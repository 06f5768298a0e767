/**
 * Standard base 64 (RFC 4648, section 4) without padding (RFC 4648, section 3.2),
 * the encoding Go's `base64.RawStdEncoding` writes: the alphabet `A-Za-z0-9+/`,
 * each group of three bytes read big-endian and cut into four 6-bit symbols, a
 * trailing group of one or two bytes filled with zero bits up to the next
 * symbol boundary and emitted as two or three symbols.  The decoder is the
 * partner that shows the encoding loses nothing.
 */
module StdBase64 {
  import opened Wrappers
  import opened Primitives
  import opened Radix
  import opened Ascii

  /** The alphabet of RFC 4648, section 4: symbol k encodes the 6-bit value k. */
  const Alphabet: string := Upper + Lower + Digits + "+/"

  /** The 6-bit value a character stands for, or -1 when it is not a symbol. */
  function SymbolIndex(c: char): (k: int)
    ensures -1 <= k < 64
  {
    if 'A' <= c <= 'Z' then c as int - 'A' as int
    else if 'a' <= c <= 'z' then c as int - 'a' as int + 26
    else if '0' <= c <= '9' then c as int - '0' as int + 52
    else if c == '+' then 62
    else if c == '/' then 63
    else -1
  }

  /** `SymbolIndex` inverts the alphabet. */
  lemma AlphabetIndex(k: int)
    requires 0 <= k < 64
    ensures SymbolIndex(Alphabet[k]) == k
  {
    if k < 26 {
      assert Alphabet[k] == Upper[k];
      UpperAt(k);
    } else if k < 52 {
      assert Alphabet[k] == Lower[k - 26];
      LowerAt(k - 26);
    } else if k < 62 {
      assert Alphabet[k] == Digits[k - 52];
      DigitsAt(k - 52);
    }
  }

  /** The symbol that encodes the 6-bit value `k`. */
  function Symbol(k: int): (c: char)
    requires 0 <= k < 64
    ensures SymbolIndex(c) == k
  {
    AlphabetIndex(k);
    Alphabet[k]
  }

  /** Every character of `s` is one of the 64 symbols. */
  predicate InAlphabet(s: string) {
    forall i :: 0 <= i < |s| ==> SymbolIndex(s[i]) >= 0
  }

  /** Unpadded base-64 text holds neither the PHC separator `$` nor the padding character `=`. */
  lemma NoSeparatorOrPadding(s: string)
    requires InAlphabet(s)
    ensures '$' !in s && '=' !in s
  {
  }

  /**
   * One group of one to three bytes as two to four symbols: the bytes big-endian,
   * cut six bits at a time, missing bytes counting as zero.
   */
  function EncodeGroup(group: seq<byte>): (r: string)
    requires 1 <= |group| <= 3
    ensures |r| == |group| + 1
  {
    var b0 := group[0] as int;
    var b1 := if |group| >= 2 then group[1] as int else 0;
    var b2 := if |group| == 3 then group[2] as int else 0;
    var symbols := [Symbol(b0 / 4), Symbol(b0 % 4 * 16 + b1 / 16), Symbol(b1 % 16 * 4 + b2 / 64), Symbol(b2 % 64)];
    symbols[..|group| + 1]
  }

  /** `base64.RawStdEncoding.EncodeToString`: full groups of three bytes, then the one or two bytes left. */
  function Encode(src: seq<byte>): (r: string)
    ensures |r| == Base64Length(|src|)
    decreases |src|
  {
    if src == [] then []
    else
      var n := if |src| >= 3 then 3 else |src|;
      EncodeGroup(src[..n]) + Encode(src[n..])
  }

  /** The number a symbol string stands for, its first symbol the most significant. */
  function BigEndianValue(s: string): nat
    requires InAlphabet(s)
  {
    if s == [] then 0 else 64 * BigEndianValue(s[..|s| - 1]) + SymbolIndex(s[|s| - 1])
  }

  lemma GroupInAlphabet(group: seq<byte>)
    requires 1 <= |group| <= 3
    ensures InAlphabet(EncodeGroup(group))
  {
  }

  /** Every symbol the encoder emits is drawn from the alphabet. */
  lemma {:induction false} EncodeInAlphabet(src: seq<byte>)
    ensures InAlphabet(Encode(src))
    decreases |src|
  {
    if src != [] {
      var n := if |src| >= 3 then 3 else |src|;
      GroupInAlphabet(src[..n]);
      EncodeInAlphabet(src[n..]);
    }
  }

  /**
   * The four 6-bit values of three bytes (RFC 4648, section 4): together they
   * spell the same 24 bits, so each byte can be read back from them.
   */
  lemma Sextets(b0: byte, b1: byte, b2: byte)
    ensures var i0, i1, i2, i3 := b0 / 4, b0 % 4 * 16 + b1 / 16, b1 % 16 * 4 + b2 / 64, b2 % 64;
      && 262144 * i0 + 4096 * i1 + 64 * i2 + i3 == b0 * 65536 + b1 * 256 + b2
      && i0 * 4 + i1 / 16 == b0 && i1 % 16 * 16 + i2 / 4 == b1 && i2 % 4 * 64 + i3 == b2
      && (b1 == 0 && b2 == 0 ==> i1 % 16 == 0) && (b2 == 0 ==> i2 % 4 == 0 && i3 == 0)
  {
  }

  /** The symbols at the front of a group, read big-endian. */
  lemma GroupPrefixValue(r: string, i0: int, i1: int, i2: int, i3: int)
    requires 2 <= |r| <= 4 && InAlphabet(r)
    requires SymbolIndex(r[0]) == i0 && SymbolIndex(r[1]) == i1
    requires |r| >= 3 ==> SymbolIndex(r[2]) == i2
    requires |r| == 4 ==> SymbolIndex(r[3]) == i3
    ensures |r| == 2 ==> BigEndianValue(r) == 64 * i0 + i1
    ensures |r| == 3 ==> BigEndianValue(r) == 4096 * i0 + 64 * i1 + i2
    ensures |r| == 4 ==> BigEndianValue(r) == 262144 * i0 + 4096 * i1 + 64 * i2 + i3
  {
    assert r[..1][..0] == [];
    assert BigEndianValue(r[..1]) == i0;
    assert r[..2][..1] == r[..1];
    assert BigEndianValue(r[..2]) == 64 * i0 + i1;
    if |r| >= 3 {
      assert r[..3][..2] == r[..2];
      assert BigEndianValue(r[..3]) == 4096 * i0 + 64 * i1 + i2;
    }
    if |r| == 4 {
      assert r[..3] == r[..|r| - 1];
    } else if |r| == 3 {
      assert r[..3] == r;
    } else {
      assert r[..2] == r;
    }
  }

  /** The symbol indices of a group's encoding are its sextets. */
  lemma GroupIndices(group: seq<byte>, b0: byte, b1: byte, b2: byte)
    requires 1 <= |group| <= 3
    requires b0 == group[0]
    requires b1 == if |group| >= 2 then group[1] else 0
    requires b2 == if |group| == 3 then group[2] else 0
    ensures InAlphabet(EncodeGroup(group))
    ensures SymbolIndex(EncodeGroup(group)[0]) == b0 / 4
    ensures SymbolIndex(EncodeGroup(group)[1]) == b0 % 4 * 16 + b1 / 16
    ensures |group| >= 2 ==> SymbolIndex(EncodeGroup(group)[2]) == b1 % 16 * 4 + b2 / 64
    ensures |group| == 3 ==> SymbolIndex(EncodeGroup(group)[3]) == b2 % 64
  {
    GroupInAlphabet(group);
  }

  /**
   * The symbols of a group read big-endian give the group's bytes read
   * big-endian, shifted left by the 4 or 2 zero bits that complete a trailing
   * group of one or two bytes.
   */
  lemma GroupBigEndian(group: seq<byte>)
    requires 1 <= |group| <= 3
    ensures InAlphabet(EncodeGroup(group))
    ensures |group| == 3 ==>
      BigEndianValue(EncodeGroup(group)) == group[0] as int * 65536 + group[1] as int * 256 + group[2] as int
    ensures |group| == 2 ==> BigEndianValue(EncodeGroup(group)) == (group[0] as int * 256 + group[1] as int) * 4
    ensures |group| == 1 ==> BigEndianValue(EncodeGroup(group)) == group[0] as int * 16
  {
    var r := EncodeGroup(group);
    var b0 := group[0];
    var b1: byte := if |group| >= 2 then group[1] else 0;
    var b2: byte := if |group| == 3 then group[2] else 0;
    GroupIndices(group, b0, b1, b2);
    Sextets(b0, b1, b2);
    GroupPrefixValue(r, b0 / 4, b0 % 4 * 16 + b1 / 16, b1 % 16 * 4 + b2 / 64, b2 % 64);
  }

  /**
   * Reads one group of two to four symbols back into one to three bytes,
   * rejecting a character outside the alphabet or fill bits that are not zero.
   */
  function DecodeGroup(s: string): Option<seq<byte>>
    requires 2 <= |s| <= 4
  {
    if !InAlphabet(s) then None
    else
      var i0 := SymbolIndex(s[0]);
      var i1 := SymbolIndex(s[1]);
      var i2 := if |s| >= 3 then SymbolIndex(s[2]) else 0;
      var i3 := if |s| == 4 then SymbolIndex(s[3]) else 0;
      if (|s| == 2 && i1 % 16 != 0) || (|s| == 3 && i2 % 4 != 0) then None
      else
        var bytes: seq<byte> := [i0 * 4 + i1 / 16, i1 % 16 * 16 + i2 / 4, i2 % 4 * 64 + i3];
        Some(bytes[..|s| - 1])
  }

  /** The inverse of `Encode`; a single trailing symbol or a rejected group makes the text invalid. */
  function Decode(s: string): Option<seq<byte>>
    decreases |s|
  {
    if |s| == 0 then Some([])
    else if |s| == 1 then None
    else
      var n := if |s| >= 4 then 4 else |s|;
      match DecodeGroup(s[..n])
      case None => None
      case Some(group) =>
        match Decode(s[n..])
        case None => None
        case Some(rest) => Some(group + rest)
  }

  /** A group of symbols with the given indices and zero fill bits decodes to the bytes they spell. */
  lemma DecodeGroupOf(s: string, i0: int, i1: int, i2: int, i3: int, b0: byte, b1: byte, b2: byte)
    requires 2 <= |s| <= 4 && InAlphabet(s)
    requires SymbolIndex(s[0]) == i0 && SymbolIndex(s[1]) == i1
    requires if |s| >= 3 then SymbolIndex(s[2]) == i2 else i2 == 0
    requires if |s| == 4 then SymbolIndex(s[3]) == i3 else i3 == 0
    requires |s| == 2 ==> i1 % 16 == 0
    requires |s| == 3 ==> i2 % 4 == 0
    requires b0 == i0 * 4 + i1 / 16 && b1 == i1 % 16 * 16 + i2 / 4 && b2 == i2 % 4 * 64 + i3
    ensures DecodeGroup(s) == Some([b0, b1, b2][..|s| - 1])
  {
  }

  /** Every group decodes back to itself. */
  lemma DecodeEncodeGroup(group: seq<byte>)
    requires 1 <= |group| <= 3
    ensures DecodeGroup(EncodeGroup(group)) == Some(group)
  {
    if |group| == 1 {
      DecodeEncodeSingle(group);
    } else if |group| == 2 {
      DecodeEncodePair(group);
    } else {
      DecodeEncodeTriple(group);
    }
  }

  lemma DecodeEncodeSingle(group: seq<byte>)
    requires |group| == 1
    ensures DecodeGroup(EncodeGroup(group)) == Some(group)
  {
    var r := EncodeGroup(group);
    var b0 := group[0];
    GroupIndices(group, b0, 0, 0);
    var i0, i1 := b0 / 4, b0 % 4 * 16;
    assert i0 * 4 + i1 / 16 == b0 && i1 % 16 == 0 && i1 % 16 * 16 == 0;
    DecodeGroupOf(r, i0, i1, 0, 0, b0, 0, 0);
    assert [b0, 0, 0][..|r| - 1] == [b0] == group;
  }

  lemma DecodeEncodePair(group: seq<byte>)
    requires |group| == 2
    ensures DecodeGroup(EncodeGroup(group)) == Some(group)
  {
    var r := EncodeGroup(group);
    var b0, b1 := group[0], group[1];
    GroupIndices(group, b0, b1, 0);
    var i0, i1, i2 := b0 / 4, b0 % 4 * 16 + b1 / 16, b1 % 16 * 4;
    assert i0 * 4 + i1 / 16 == b0 && i1 % 16 * 16 + i2 / 4 == b1 && i2 % 4 == 0 && i2 % 4 * 64 == 0 by {
      Sextets(b0, b1, 0);
    }
    DecodeGroupOf(r, i0, i1, i2, 0, b0, b1, 0);
    assert [b0, b1, 0][..|r| - 1] == [b0, b1] == group;
  }

  lemma DecodeEncodeTriple(group: seq<byte>)
    requires |group| == 3
    ensures DecodeGroup(EncodeGroup(group)) == Some(group)
  {
    var r := EncodeGroup(group);
    var i0, i1, i2, i3 := TripleSextets(group);
    DecodeGroupOf(r, i0, i1, i2, i3, group[0], group[1], group[2]);
    assert [group[0], group[1], group[2]][..|r| - 1] == group;
  }

  /** The sextets of a full group, as the symbol indices of its encoding, with the bytes they spell. */
  lemma TripleSextets(group: seq<byte>) returns (i0: int, i1: int, i2: int, i3: int)
    requires |group| == 3
    ensures InAlphabet(EncodeGroup(group)) && |EncodeGroup(group)| == 4
    ensures SymbolIndex(EncodeGroup(group)[0]) == i0 && SymbolIndex(EncodeGroup(group)[1]) == i1
    ensures SymbolIndex(EncodeGroup(group)[2]) == i2 && SymbolIndex(EncodeGroup(group)[3]) == i3
    ensures group[0] == i0 * 4 + i1 / 16 && group[1] == i1 % 16 * 16 + i2 / 4 && group[2] == i2 % 4 * 64 + i3
  {
    var b0, b1, b2 := group[0], group[1], group[2];
    GroupIndices(group, b0, b1, b2);
    i0, i1, i2, i3 := b0 / 4, b0 % 4 * 16 + b1 / 16, b1 % 16 * 4 + b2 / 64, b2 % 64;
    Sextets(b0, b1, b2);
  }


  /** Decoding the encoding of any byte sequence gives that sequence back. */
  lemma {:induction false} DecodeEncode(src: seq<byte>)
    ensures Decode(Encode(src)) == Some(src)
    decreases |src|
  {
    if src != [] {
      var n := if |src| >= 3 then 3 else |src|;
      var g := EncodeGroup(src[..n]);
      var s := Encode(src);
      assert s == g + Encode(src[n..]);
      assert s[..n + 1] == g && s[n + 1..] == Encode(src[n..]);
      DecodeEncodeGroup(src[..n]);
      DecodeEncode(src[n..]);
      assert src == src[..n] + src[n..];
    }
  }

  /** Distinct byte sequences have distinct encodings. */
  lemma EncodeInjective(a: seq<byte>, b: seq<byte>)
    requires Encode(a) == Encode(b)
    ensures a == b
  {
    DecodeEncode(a);
    DecodeEncode(b);
  }
}

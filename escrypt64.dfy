/**
 * The custom base-64 codec of libsodium's escrypt ("itoa64"): the alphabet
 * `./0-9A-Za-z`, six bits per symbol, least-significant bits first, and no
 * padding.  `Encode64Uint32` and `Encode64Bytes` are the two loops of the
 * program; `Uint32Symbols` and `BytesSymbols` are the functions that specify
 * them, and the lemmas below say what those functions mean: each symbol is in
 * the alphabet, the lengths are fixed by the input length, and the symbols read
 * back little-endian give the encoded numbers, so the byte encoding is lossless.
 */
module Escrypt64 {
  import opened Wrappers
  import opened Primitives
  import opened Radix
  import opened Ascii

  /**
   * The 64-symbol alphabet; symbol k encodes the 6-bit value k.  It is the
   * string "./0123456789ABCDEFGHIJKLMNOPQRSTUVWXYZabcdefghijklmnopqrstuvwxyz",
   * written as its four runs.
   */
  const Itoa64: string := "./" + Digits + Upper + Lower

  /** Go's `uint32`. */
  type uint32 = x: int | 0 <= x < 0x1_0000_0000

  /** The 6-bit value a character stands for, or -1 when it is not a symbol. */
  function SymbolIndex(c: char): (k: int)
    ensures -1 <= k < 64
  {
    if c == '.' then 0
    else if c == '/' then 1
    else if '0' <= c <= '9' then c as int - '0' as int + 2
    else if 'A' <= c <= 'Z' then c as int - 'A' as int + 12
    else if 'a' <= c <= 'z' then c as int - 'a' as int + 38
    else -1
  }

  /** `SymbolIndex` inverts the alphabet. */
  lemma AlphabetIndex(k: int)
    requires 0 <= k < 64
    ensures SymbolIndex(Itoa64[k]) == k
  {
    AlphabetCode(k);
  }

  /** Every character `SymbolIndex` accepts is the alphabet's symbol at that index. */
  lemma AlphabetMember(c: char)
    requires SymbolIndex(c) >= 0
    ensures Itoa64[SymbolIndex(c)] == c
  {
    AlphabetCode(SymbolIndex(c));
  }

  /** The character code of each symbol: the four runs of the alphabet in turn. */
  lemma AlphabetCode(k: int)
    requires 0 <= k < 64
    ensures k == 0 ==> Itoa64[k] == '.'
    ensures k == 1 ==> Itoa64[k] == '/'
    ensures 2 <= k < 12 ==> Itoa64[k] as int == '0' as int + (k - 2)
    ensures 12 <= k < 38 ==> Itoa64[k] as int == 'A' as int + (k - 12)
    ensures 38 <= k ==> Itoa64[k] as int == 'a' as int + (k - 38)
  {
    if k < 2 {
      AlphabetRuns(k);
    } else if k < 12 {
      DigitCode(k);
    } else if k < 38 {
      UpperCode(k);
    } else {
      LowerCode(k);
    }
  }

  lemma DigitCode(k: int)
    requires 2 <= k < 12
    ensures Itoa64[k] as int == '0' as int + (k - 2)
  {
    AlphabetRuns(k);
    DigitsAt(k - 2);
  }

  lemma UpperCode(k: int)
    requires 12 <= k < 38
    ensures Itoa64[k] as int == 'A' as int + (k - 12)
  {
    AlphabetRuns(k);
    UpperAt(k - 12);
  }

  lemma LowerCode(k: int)
    requires 38 <= k < 64
    ensures Itoa64[k] as int == 'a' as int + (k - 38)
  {
    AlphabetRuns(k);
    LowerAt(k - 38);
  }

  /** Where each run of the alphabet sits. */
  lemma AlphabetRuns(k: int)
    requires 0 <= k < 64
    ensures k == 0 ==> Itoa64[k] == '.'
    ensures k == 1 ==> Itoa64[k] == '/'
    ensures 2 <= k < 12 ==> Itoa64[k] == Digits[k - 2]
    ensures 12 <= k < 38 ==> Itoa64[k] == Upper[k - 12]
    ensures 38 <= k ==> Itoa64[k] == Lower[k - 38]
  {
    var front := "./" + Digits;
    var head := front + Upper;
    assert Itoa64 == head + Lower;
    if k < 38 {
      assert Itoa64[k] == head[k];
      if k < 12 {
        assert head[k] == front[k];
      }
    }
  }

  /** A character is in the alphabet exactly when `SymbolIndex` gives it a value. */
  lemma SymbolIndexDefined(c: char)
    ensures c in Itoa64 <==> SymbolIndex(c) >= 0
  {
    if c in Itoa64 {
      var k :| 0 <= k < |Itoa64| && Itoa64[k] == c;
      AlphabetIndex(k);
    }
    if SymbolIndex(c) >= 0 {
      AlphabetMember(c);
    }
  }

  /**
   * Every character of `s` is one of the 64 symbols (by `SymbolIndexDefined`,
   * the same as every character being in `Itoa64`).
   */
  predicate InAlphabet(s: string) {
    forall i :: 0 <= i < |s| ==> SymbolIndex(s[i]) >= 0
  }

  /** Escrypt text never holds the MCF separator `$` nor the padding character `=`. */
  lemma NoSeparatorOrPadding(s: string)
    requires InAlphabet(s)
    ensures '$' !in s && '=' !in s
  {
  }

  /** The number a symbol string stands for, its first symbol the least significant. */
  function LittleEndianValue(s: string): (v: nat)
    requires InAlphabet(s)
    ensures v < Pow64(|s|)
  {
    if s == [] then 0 else SymbolIndex(s[0]) + 64 * LittleEndianValue(s[1..])
  }

  /** The number of symbols `encode64Uint32` emits for a bit width: one per started group of six bits. */
  function SymbolCount(bits: int): nat {
    if bits <= 0 then 0 else (bits + 5) / 6
  }

  /** What `encode64Uint32(value, bits)` returns: the low 6 bits of `value` per symbol, shifting by 6 until `bits` is covered. */
  function Uint32Symbols(value: nat, bits: int): (r: string)
    ensures |r| == SymbolCount(bits)
    decreases bits
  {
    if bits <= 0 then [] else [Itoa64[value % 64]] + Uint32Symbols(value / 64, bits - 6)
  }

  /** Every symbol `encode64Uint32` emits is drawn from the alphabet. */
  lemma {:induction false} Uint32SymbolsInAlphabet(value: nat, bits: int)
    ensures InAlphabet(Uint32Symbols(value, bits))
    decreases bits
  {
    if bits > 0 {
      AlphabetIndex(value % 64);
      Uint32SymbolsInAlphabet(value / 64, bits - 6);
    }
  }

  /** The symbols of `value` read back little-endian give `value` whenever it fits in them. */
  lemma {:induction false} Uint32SymbolsRoundTrip(value: nat, bits: int)
    requires value < Pow64(SymbolCount(bits))
    ensures InAlphabet(Uint32Symbols(value, bits))
    ensures LittleEndianValue(Uint32Symbols(value, bits)) == value
    decreases bits
  {
    Uint32SymbolsInAlphabet(value, bits);
    if bits > 0 {
      var r := Uint32Symbols(value, bits);
      assert SymbolCount(bits) == SymbolCount(bits - 6) + 1;
      Uint32SymbolsRoundTrip(value / 64, bits - 6);
      AlphabetIndex(value % 64);
      assert r[0] == Itoa64[value % 64];
      assert r[1..] == Uint32Symbols(value / 64, bits - 6);
    }
  }

  /** A width of `bits` bits never holds more than its `SymbolCount(bits)` symbols can carry. */
  lemma {:induction false} Pow2WithinSymbols(bits: int)
    ensures Pow2(bits) <= Pow64(SymbolCount(bits))
    decreases bits
  {
    if bits > 0 {
      Pow2Step(bits);
      Pow2WithinSymbols(bits - 6);
      assert SymbolCount(bits) == SymbolCount(bits - 6) + 1;
    }
  }

  /**
   * `encode64Uint32(value, bits)` emits ceil(bits/6) symbols of the alphabet,
   * and when `value < 2^bits` they read back little-endian as `value`.
   */
  lemma Uint32Encoding(value: uint32, bits: int)
    requires value < Pow2(bits)
    ensures |Uint32Symbols(value, bits)| == (if bits <= 0 then 0 else (bits + 5) / 6)
    ensures InAlphabet(Uint32Symbols(value, bits))
    ensures LittleEndianValue(Uint32Symbols(value, bits)) == value
  {
    Pow2WithinSymbols(bits);
    Uint32SymbolsRoundTrip(value, bits);
  }

  /** `encode64Uint32`: one symbol per started group of six bits, least significant first. */
  method Encode64Uint32(value: uint32, bits: int) returns (result: string)
    ensures result == Uint32Symbols(value, bits)
  {
    result := [];
    var v: uint32 := value;
    var i := 0;
    while i < bits
      invariant result + Uint32Symbols(v, bits - i) == Uint32Symbols(value, bits)
      decreases bits - i
    {
      assert Uint32Symbols(v, bits - i) == [Itoa64[v % 64]] + Uint32Symbols(v / 64, bits - i - 6);
      result := result + [Itoa64[v % 64]];
      v := v / 64;
      i := i + 6;
    }
  }

  function Pow256(n: nat): (p: nat)
    ensures p >= 1
  {
    if n == 0 then 1 else 256 * Pow256(n - 1)
  }

  /** The number a byte string stands for, its first byte the least significant. */
  function LittleEndianBytes(b: seq<byte>): (v: nat)
    ensures v < Pow256(|b|)
  {
    if b == [] then 0 else b[0] as int + 256 * LittleEndianBytes(b[1..])
  }

  /** The `n` bytes of `v`, least significant first. */
  function BytesOf(v: nat, n: nat): (b: seq<byte>)
    ensures |b| == n
  {
    if n == 0 then [] else [v % 256] + BytesOf(v / 256, n - 1)
  }

  /** A byte string is recovered from the number it stands for. */
  lemma {:induction false} BytesOfLittleEndian(b: seq<byte>)
    ensures BytesOf(LittleEndianBytes(b), |b|) == b
  {
    if b != [] {
      var v := LittleEndianBytes(b);
      assert v % 256 == b[0] && v / 256 == LittleEndianBytes(b[1..]);
      BytesOfLittleEndian(b[1..]);
    }
  }

  /**
   * One group of `encode64Bytes`: its 1, 2 or 3 bytes read little-endian, as 8
   * bits per byte, emitted as 2, 3 or 4 symbols.
   */
  function GroupSymbols(group: seq<byte>): (r: string)
    requires 1 <= |group| <= 3
    ensures |r| == |group| + 1
  {
    Uint32Symbols(LittleEndianBytes(group), 8 * |group|)
  }

  /** A group of n bytes fits the n + 1 symbols it is emitted as. */
  lemma GroupFits(n: nat)
    requires 1 <= n <= 3
    ensures SymbolCount(8 * n) == n + 1
    ensures Pow256(n) <= Pow64(n + 1)
  {
    if n == 1 {
      assert Pow256(1) == 256 && Pow64(2) == 4096;
    } else if n == 2 {
      assert Pow256(2) == 65536 && Pow64(3) == 262144;
    } else {
      assert Pow256(3) == 16777216 && Pow64(4) == 16777216;
    }
  }

  /** The symbols of a group read back little-endian give the group's value. */
  lemma GroupValue(group: seq<byte>)
    requires 1 <= |group| <= 3
    ensures InAlphabet(GroupSymbols(group))
    ensures LittleEndianValue(GroupSymbols(group)) == LittleEndianBytes(group)
  {
    GroupFits(|group|);
    Uint32SymbolsRoundTrip(LittleEndianBytes(group), 8 * |group|);
  }

  /** The value of a group is b0 for one byte, b0 + b1*2^8 for two, b0 + b1*2^8 + b2*2^16 for three. */
  lemma GroupArithmetic(group: seq<byte>)
    requires 1 <= |group| <= 3
    ensures |group| == 1 ==> LittleEndianBytes(group) == group[0]
    ensures |group| == 2 ==> LittleEndianBytes(group) == group[0] as int + group[1] as int * 256
    ensures |group| == 3 ==>
      LittleEndianBytes(group) == group[0] as int + group[1] as int * 256 + group[2] as int * 65536
  {
    assert LittleEndianBytes(group) == group[0] as int + 256 * LittleEndianBytes(group[1..]);
    if |group| >= 2 {
      assert LittleEndianBytes(group[1..]) == group[1] as int + 256 * LittleEndianBytes(group[2..]);
    }
    if |group| == 3 {
      assert LittleEndianBytes(group[2..]) == group[2] as int + 256 * LittleEndianBytes(group[3..]);
    }
  }

  /** What `encode64Bytes(src)` returns: full groups of three bytes, then the one or two bytes left. */
  function BytesSymbols(src: seq<byte>): (r: string)
    ensures |r| == Base64Length(|src|)
    decreases |src|
  {
    if src == [] then []
    else
      var n := if |src| >= 3 then 3 else |src|;
      GroupSymbols(src[..n]) + BytesSymbols(src[n..])
  }

  /** Every symbol `encode64Bytes` emits is drawn from the alphabet. */
  lemma {:induction false} BytesSymbolsInAlphabet(src: seq<byte>)
    ensures InAlphabet(BytesSymbols(src))
    decreases |src|
  {
    if src != [] {
      var n := if |src| >= 3 then 3 else |src|;
      Uint32SymbolsInAlphabet(LittleEndianBytes(src[..n]), 8 * n);
      BytesSymbolsInAlphabet(src[n..]);
    }
  }

  /**
   * Reads one group of two to four symbols back into one to three bytes,
   * rejecting a character outside the alphabet or a value too large for the bytes.
   */
  function DecodeGroup(s: string): Option<seq<byte>>
    requires 2 <= |s| <= 4
  {
    if !InAlphabet(s) then None
    else
      var v := LittleEndianValue(s);
      if v < Pow256(|s| - 1) then Some(BytesOf(v, |s| - 1)) else None
  }

  /**
   * The inverse of `BytesSymbols`: four symbols give three bytes, a trailing
   * three give two and a trailing two give one; a single trailing symbol, or a
   * group `DecodeGroup` rejects, makes the whole text invalid.
   */
  function Decode64Bytes(s: string): Option<seq<byte>>
    decreases |s|
  {
    if |s| == 0 then Some([])
    else if |s| == 1 then None
    else
      var n := if |s| >= 4 then 4 else |s|;
      match DecodeGroup(s[..n])
      case None => None
      case Some(group) =>
        match Decode64Bytes(s[n..])
        case None => None
        case Some(rest) => Some(group + rest)
  }

  /** Every group decodes back to itself. */
  lemma DecodeGroupSymbols(group: seq<byte>)
    requires 1 <= |group| <= 3
    ensures DecodeGroup(GroupSymbols(group)) == Some(group)
  {
    GroupValue(group);
    BytesOfLittleEndian(group);
  }

  /** Decoding the encoding of any byte sequence gives that sequence back. */
  lemma {:induction false} DecodeEncode(src: seq<byte>)
    ensures Decode64Bytes(BytesSymbols(src)) == Some(src)
    decreases |src|
  {
    if src != [] {
      var n := if |src| >= 3 then 3 else |src|;
      var g := GroupSymbols(src[..n]);
      var s := BytesSymbols(src);
      assert s == g + BytesSymbols(src[n..]);
      assert s[..n + 1] == g && s[n + 1..] == BytesSymbols(src[n..]);
      DecodeGroupSymbols(src[..n]);
      DecodeEncode(src[n..]);
      assert src == src[..n] + src[n..];
    }
  }

  /** Distinct byte sequences have distinct encodings. */
  lemma EncodeInjective(a: seq<byte>, b: seq<byte>)
    requires BytesSymbols(a) == BytesSymbols(b)
    ensures a == b
  {
    DecodeEncode(a);
    DecodeEncode(b);
  }

  /** The four symbols `encode64Bytes` appends for one full group, spelled out as the source does. */
  lemma FullGroupSymbols(v: nat)
    ensures Uint32Symbols(v, 24) ==
      [Itoa64[v % 64], Itoa64[v / 64 % 64], Itoa64[v / 4096 % 64], Itoa64[v / 262144 % 64]]
  {
    FourSymbolsOf(v, 24);
    assert v / 64 / 64 == v / 4096;
    assert v / 4096 / 64 == v / 262144;
  }

  /** A field of one to six bits is one symbol. */
  lemma OneSymbolOf(v: nat, bits: int)
    requires 0 < bits <= 6
    ensures Uint32Symbols(v, bits) == [Itoa64[v % 64]]
  {
    assert Uint32Symbols(v / 64, bits - 6) == [];
  }

  /** A field of seven to twelve bits is two symbols. */
  lemma TwoSymbolsOf(v: nat, bits: int)
    requires 6 < bits <= 12
    ensures Uint32Symbols(v, bits) == [Itoa64[v % 64], Itoa64[v / 64 % 64]]
  {
    OneSymbolOf(v / 64, bits - 6);
  }

  /** A field of 13 to 18 bits is three symbols. */
  lemma ThreeSymbolsOf(v: nat, bits: int)
    requires 12 < bits <= 18
    ensures Uint32Symbols(v, bits) == [Itoa64[v % 64], Itoa64[v / 64 % 64], Itoa64[v / 64 / 64 % 64]]
  {
    TwoSymbolsOf(v / 64, bits - 6);
  }

  /** A field of 19 to 24 bits is four symbols. */
  lemma FourSymbolsOf(v: nat, bits: int)
    requires 18 < bits <= 24
    ensures Uint32Symbols(v, bits) ==
      [Itoa64[v % 64], Itoa64[v / 64 % 64], Itoa64[v / 64 / 64 % 64], Itoa64[v / 64 / 64 / 64 % 64]]
  {
    ThreeSymbolsOf(v / 64, bits - 6);
  }

  /** The three symbols `encode64Bytes` appends for a trailing group of two bytes. */
  lemma PairSymbols(v: nat)
    ensures Uint32Symbols(v, 16) == [Itoa64[v % 64], Itoa64[v / 64 % 64], Itoa64[v / 4096 % 64]]
  {
    ThreeSymbolsOf(v, 16);
    assert v / 64 / 64 == v / 4096;
  }

  /** The two symbols `encode64Bytes` appends for a trailing single byte. */
  lemma SingleSymbols(v: nat)
    ensures Uint32Symbols(v, 8) == [Itoa64[v % 64], Itoa64[v / 64 % 64]]
  {
    TwoSymbolsOf(v, 8);
  }

  /**
   * One turn of the loop of `encode64Bytes`: the four symbols it appends to what
   * is already emitted leave the encoding of the bytes after the group to come.
   */
  lemma FullGroupStep(src: seq<byte>, i: nat, v: nat, done: string)
    requires i + 3 <= |src|
    requires v == src[i] as int + src[i + 1] as int * 256 + src[i + 2] as int * 65536
    requires done + BytesSymbols(src[i..]) == BytesSymbols(src)
    ensures done + [Itoa64[v % 64]] + [Itoa64[v / 64 % 64]] + [Itoa64[v / 4096 % 64]] + [Itoa64[v / 262144 % 64]]
      + BytesSymbols(src[i + 3..]) == BytesSymbols(src)
  {
    FullGroupSplit(src, i, v);
    AppendFour(done, Itoa64[v % 64], Itoa64[v / 64 % 64], Itoa64[v / 4096 % 64], Itoa64[v / 262144 % 64],
      BytesSymbols(src[i + 3..]));
  }

  /**
   * Appending four symbols one at a time is appending them as one block; kept
   * apart so that the sequence reasoning does not meet the alphabet constant.
   */
  lemma AppendFour(done: string, a: char, b: char, c: char, d: char, tail: string)
    ensures done + [a] + [b] + [c] + [d] + tail == done + ([a, b, c, d] + tail)
  {
  }

  /** The encoding of the bytes from `i` on starts with the four symbols of the group at `i`. */
  lemma FullGroupSplit(src: seq<byte>, i: nat, v: nat)
    requires i + 3 <= |src|
    requires v == src[i] as int + src[i + 1] as int * 256 + src[i + 2] as int * 65536
    ensures BytesSymbols(src[i..])
      == [Itoa64[v % 64], Itoa64[v / 64 % 64], Itoa64[v / 4096 % 64], Itoa64[v / 262144 % 64]] + BytesSymbols(src[i + 3..])
  {
    var rest := src[i..];
    var g := rest[..3];
    GroupArithmetic(g);
    assert rest[3..] == src[i + 3..];
    assert BytesSymbols(rest) == GroupSymbols(g) + BytesSymbols(rest[3..]);
    assert LittleEndianBytes(g) == v;
    assert |g| == 3;
    assert GroupSymbols(g) == Uint32Symbols(v, 8 * |g|);
    FullGroupSymbols(v);
  }

  /** A trailing single byte: the two symbols `encode64Bytes` appends complete the encoding. */
  lemma SingleTailStep(src: seq<byte>, i: nat, v: nat, done: string)
    requires i + 1 == |src|
    requires v == src[i] as int
    requires done + BytesSymbols(src[i..]) == BytesSymbols(src)
    ensures done + [Itoa64[v % 64]] + [Itoa64[v / 64 % 64]] == BytesSymbols(src)
  {
    SingleTail(src, i, v);
    assert done + [Itoa64[v % 64]] + [Itoa64[v / 64 % 64]] == done + [Itoa64[v % 64], Itoa64[v / 64 % 64]];
  }

  /** The encoding of a trailing single byte is its two symbols. */
  lemma SingleTail(src: seq<byte>, i: nat, v: nat)
    requires i + 1 == |src|
    requires v == src[i] as int
    ensures BytesSymbols(src[i..]) == [Itoa64[v % 64], Itoa64[v / 64 % 64]]
  {
    var rest := src[i..];
    GroupArithmetic(rest);
    assert rest[..1] == rest && rest[1..] == [];
    assert BytesSymbols(rest) == GroupSymbols(rest);
    assert LittleEndianBytes(rest) == v;
    assert GroupSymbols(rest) == Uint32Symbols(v, 8 * |rest|);
    SingleSymbols(v);
  }

  /** A trailing pair of bytes: the three symbols `encode64Bytes` appends complete the encoding. */
  lemma PairTailStep(src: seq<byte>, i: nat, v: nat, done: string)
    requires i + 2 == |src|
    requires v == src[i] as int + src[i + 1] as int * 256
    requires done + BytesSymbols(src[i..]) == BytesSymbols(src)
    ensures done + [Itoa64[v % 64]] + [Itoa64[v / 64 % 64]] + [Itoa64[v / 4096 % 64]] == BytesSymbols(src)
  {
    PairTail(src, i, v);
    AppendThree(done, Itoa64[v % 64], Itoa64[v / 64 % 64], Itoa64[v / 4096 % 64]);
  }

  /** Appending three symbols one at a time is appending them as one block. */
  lemma AppendThree(done: string, a: char, b: char, c: char)
    ensures done + [a] + [b] + [c] == done + [a, b, c]
  {
  }

  /** The encoding of a trailing pair of bytes is its three symbols. */
  lemma PairTail(src: seq<byte>, i: nat, v: nat)
    requires i + 2 == |src|
    requires v == src[i] as int + src[i + 1] as int * 256
    ensures BytesSymbols(src[i..]) == [Itoa64[v % 64], Itoa64[v / 64 % 64], Itoa64[v / 4096 % 64]]
  {
    var rest := src[i..];
    GroupArithmetic(rest);
    assert rest[..2] == rest && rest[2..] == [];
    assert BytesSymbols(rest) == GroupSymbols(rest);
    assert LittleEndianBytes(rest) == v;
    assert GroupSymbols(rest) == Uint32Symbols(v, 8 * |rest|);
    PairSymbols(v);
  }

  /** `encode64Bytes`: full groups of three bytes in a loop, then the trailing one or two bytes. */
  method Encode64Bytes(src: seq<byte>) returns (result: string)
    ensures result == BytesSymbols(src)
  {
    result := [];
    var i := 0;
    while i + 3 <= |src|
      invariant 0 <= i <= |src|
      invariant result + BytesSymbols(src[i..]) == BytesSymbols(src)
    {
      var v := src[i] as int + src[i + 1] as int * 256 + src[i + 2] as int * 65536;
      FullGroupStep(src, i, v, result);
      result := result + [Itoa64[v % 64]];
      result := result + [Itoa64[v / 64 % 64]];
      result := result + [Itoa64[v / 4096 % 64]];
      result := result + [Itoa64[v / 262144 % 64]];
      i := i + 3;
    }
    var remaining := |src| - i;
    if remaining == 1 {
      var v := src[i] as int;
      SingleTailStep(src, i, v, result);
      result := result + [Itoa64[v % 64]];
      result := result + [Itoa64[v / 64 % 64]];
    } else if remaining == 2 {
      var v := src[i] as int + src[i + 1] as int * 256;
      PairTailStep(src, i, v, result);
      result := result + [Itoa64[v % 64]];
      result := result + [Itoa64[v / 64 % 64]];
      result := result + [Itoa64[v / 4096 % 64]];
    } else {
      assert src[i..] == [];
    }
  }
}

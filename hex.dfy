/**
 * Lower-case hexadecimal, as `fmt.Sprintf("%x", digest)` writes a byte array:
 * two digits per byte, the high nibble first.  `Unhex` is the partner that
 * shows nothing is lost.
 */
module HexCodec {
  import opened Wrappers
  import opened Primitives
  import opened Ascii

  /** The sixteen digits `%x` uses; digit k stands for the nibble k. */
  const HexDigits: string := Digits + "abcdef"

  /** The nibble a character stands for, or -1 when it is not a lower-case hex digit. */
  function NibbleOf(c: char): (k: int)
    ensures -1 <= k < 16
  {
    if '0' <= c <= '9' then c as int - '0' as int
    else if 'a' <= c <= 'f' then c as int - 'a' as int + 10
    else -1
  }

  /** `NibbleOf` inverts the digit table. */
  lemma HexDigitIndex(k: int)
    requires 0 <= k < 16
    ensures NibbleOf(HexDigits[k]) == k
  {
    if k < 10 {
      assert HexDigits[k] == Digits[k];
      DigitsAt(k);
    }
  }

  /** Every character is a lower-case hex digit. */
  predicate IsLowerHex(s: string) {
    forall i :: 0 <= i < |s| ==> NibbleOf(s[i]) >= 0
  }

  /** `%x` of a byte array. */
  function Hex(b: seq<byte>): (r: string)
    ensures |r| == 2 * |b|
  {
    if b == [] then [] else [HexDigits[b[0] / 16], HexDigits[b[0] % 16]] + Hex(b[1..])
  }

  /** Reads pairs of hex digits back into bytes; an odd length or a non-digit is rejected. */
  function Unhex(s: string): Option<seq<byte>>
  {
    if |s| == 0 then Some([])
    else if |s| == 1 then None
    else
      var hi, lo := NibbleOf(s[0]), NibbleOf(s[1]);
      if hi < 0 || lo < 0 then None
      else
        match Unhex(s[2..])
        case None => None
        case Some(rest) => Some([hi * 16 + lo] + rest)
  }

  /** `%x` output consists of lower-case hex digits only. */
  lemma {:induction false} HexIsLowerHex(b: seq<byte>)
    ensures IsLowerHex(Hex(b))
  {
    if b != [] {
      HexDigitIndex(b[0] / 16);
      HexDigitIndex(b[0] % 16);
      HexIsLowerHex(b[1..]);
      var r := Hex(b);
      assert r == [HexDigits[b[0] / 16], HexDigits[b[0] % 16]] + Hex(b[1..]);
      forall i | 0 <= i < |r|
        ensures NibbleOf(r[i]) >= 0
      {
        if i >= 2 {
          assert r[i] == Hex(b[1..])[i - 2];
        }
      }
    }
  }

  /** Reading the hex text back gives the bytes it was written from. */
  lemma {:induction false} UnhexHex(b: seq<byte>)
    ensures Unhex(Hex(b)) == Some(b)
  {
    if b != [] {
      var r := Hex(b);
      HexDigitIndex(b[0] / 16);
      HexDigitIndex(b[0] % 16);
      assert r[2..] == Hex(b[1..]);
      UnhexHex(b[1..]);
      assert b == [b[0]] + b[1..];
    }
  }

  /** Distinct byte arrays print as distinct hex text. */
  lemma HexInjective(a: seq<byte>, b: seq<byte>)
    requires Hex(a) == Hex(b)
    ensures a == b
  {
    UnhexHex(a);
    UnhexHex(b);
  }
}

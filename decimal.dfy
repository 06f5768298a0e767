/**
 * Decimal integers: `fmt`'s `%d` verb, which writes them, and `strconv.Atoi`,
 * which reads them.  The two are each other's partner: `Atoi` reads back every
 * 64-bit integer `%d` writes.
 */
module Decimal {
  import opened Wrappers
  import opened Ascii

  /** The range of Go's 64-bit `int`, which `strconv.Atoi` enforces. */
  const MinInt: int := -0x8000_0000_0000_0000
  const MaxInt: int := 0x7fff_ffff_ffff_ffff

  /** The value of a decimal digit, or -1 for any other character. */
  function DigitValue(c: char): (d: int)
    ensures -1 <= d < 10
  {
    if '0' <= c <= '9' then c as int - '0' as int else -1
  }

  predicate AllDigits(s: string) {
    forall i :: 0 <= i < |s| ==> DigitValue(s[i]) >= 0
  }

  /** The number a digit string stands for, most significant digit first. */
  function DigitsValue(s: string): nat
    requires AllDigits(s)
  {
    if s == [] then 0 else 10 * DigitsValue(s[..|s| - 1]) + DigitValue(s[|s| - 1])
  }

  /** `%d` of a non-negative number: its digits, with no leading zero. */
  function Itoa(n: nat): (r: string)
    ensures |r| >= 1 && '0' <= r[0] <= '9'
    ensures r[0] == '0' ==> n == 0
  {
    if n < 10 then DigitsAt(n); [Digits[n]] else Itoa(n / 10) + [Digits[n % 10]]
  }

  /** `%d` of any integer: a minus sign before the digits of a negative one. */
  function FormatInt(i: int): (r: string)
    ensures |r| >= 1 && (r[0] == '-' <==> i < 0)
  {
    if i < 0 then "-" + Itoa(-i) else Itoa(i)
  }

  /**
   * `strconv.Atoi`: an optional `+` or `-`, then at least one decimal digit and
   * nothing else; a value outside the 64-bit range is an error too.
   */
  function Atoi(s: string): (r: Option<int>)
    ensures r.Some? ==> MinInt <= r.value <= MaxInt
  {
    var negative := |s| > 0 && s[0] == '-';
    var digits := if |s| > 0 && (s[0] == '+' || s[0] == '-') then s[1..] else s;
    if digits == [] || !AllDigits(digits) then None
    else
      var magnitude: int := DigitsValue(digits);
      var v := if negative then -magnitude else magnitude;
      if MinInt <= v <= MaxInt then Some(v) else None
  }

  /** The digits `%d` writes for n read back as n, and none of them is a sign or a space. */
  lemma {:induction false} ItoaDigits(n: nat)
    ensures AllDigits(Itoa(n)) && DigitsValue(Itoa(n)) == n
  {
    var r := Itoa(n);
    if n < 10 {
      DigitsAt(n);
      assert r[..|r| - 1] == [];
    } else {
      ItoaDigits(n / 10);
      DigitsAt(n % 10);
      assert r[..|r| - 1] == Itoa(n / 10);
    }
  }

  /** `strconv.Atoi` reads back every 64-bit integer `%d` writes. */
  lemma AtoiFormatInt(i: int)
    requires MinInt <= i <= MaxInt
    ensures Atoi(FormatInt(i)) == Some(i)
  {
    if i < 0 {
      AtoiNegative(-i);
    } else {
      AtoiItoa(i);
    }
  }

  lemma AtoiItoa(n: nat)
    requires n <= MaxInt
    ensures Atoi(Itoa(n)) == Some(n)
  {
    ItoaDigits(n);
    assert DigitValue(Itoa(n)[0]) >= 0;
  }

  lemma AtoiNegative(n: nat)
    requires 0 < n <= -MinInt
    ensures Atoi("-" + Itoa(n)) == Some(-(n as int))
  {
    var s := "-" + Itoa(n);
    assert AllDigits(s[1..]) && DigitsValue(s[1..]) == n by {
      ItoaDigits(n);
      assert s[1..] == Itoa(n);
    }
    assert s[0] == '-' && s[1..] != [];
  }
}

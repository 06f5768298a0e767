/** Runs of ASCII characters the encoders' alphabets are assembled from. */
module Ascii {
  const Digits: string := "0123456789"
  const Upper: string := "ABCDEFGHIJKLMNOPQRSTUVWXYZ"
  const Lower: string := "abcdefghijklmnopqrstuvwxyz"

  lemma DigitsAt(j: int)
    requires 0 <= j < 10
    ensures Digits[j] as int == '0' as int + j
  {
  }

  lemma UpperAt(j: int)
    requires 0 <= j < 26
    ensures Upper[j] as int == 'A' as int + j
  {
  }

  lemma LowerAt(j: int)
    requires 0 <= j < 26
    ensures Lower[j] as int == 'a' as int + j
  {
  }
}

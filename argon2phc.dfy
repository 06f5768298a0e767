/**
 * `hashArgon2`: Argon2id with libsodium's interactive limits, written as the
 * PHC string `$argon2id$v=19$m=<memory>,t=<time>,p=<threads>$<salt>$<key>` with
 * salt and key in unpadded standard base 64.
 */
module Argon2Phc {
  import opened Wrappers
  import opened Primitives
  import opened StdBase64
  import opened Decimal
  import opened GoStrings
  import opened Radix

  /** libsodium's interactive limits: 2 passes over 65536 KiB, one lane, a 32-byte tag, a 16-byte salt. */
  const TimeCost: nat := 2
  const MemoryCost: nat := 65536
  const Threads: nat := 1
  const KeyLen: nat := 32
  const SaltLen: nat := 16

  /** The header `fmt.Sprintf` writes before the salt. */
  function PhcHeader(): string {
    "$argon2id$v=19$m=" + Itoa(MemoryCost) + ",t=" + Itoa(TimeCost) + ",p=" + Itoa(Threads) + "$"
  }

  /** The header spelled out: 31 characters. */
  lemma PhcHeaderText()
    ensures PhcHeader() == "$argon2id$v=19$m=65536,t=2,p=1$"
  {
    CostDigits();
    assert "$argon2id$v=19$m=" + "65536" + ",t=" + "2" + ",p=" + "1" + "$" == "$argon2id$v=19$m=65536,t=2,p=1$";
  }

  /** The three costs in decimal. */
  lemma CostDigits()
    ensures Itoa(MemoryCost) == "65536" && Itoa(TimeCost) == "2" && Itoa(Threads) == "1"
  {
    assert Itoa(1) == "1" && Itoa(2) == "2";
    assert Itoa(6) == "6" && Itoa(5) == "5" && Itoa(3) == "3";
    assert Itoa(65) == "65";
    assert Itoa(655) == "655";
    assert Itoa(6553) == "6553";
    assert Itoa(65536) == "65536";
  }

  /** A 16-byte salt takes 22 symbols and a 32-byte tag 43. */
  lemma EncodedLengths()
    ensures Base64Length(SaltLen) == 22 && Base64Length(KeyLen) == 43
  {
  }

  /**
   * `hashArgon2`: a 16-byte salt from the random source, the Argon2id tag of the
   * password under that salt, and the PHC string of both; a failed random draw
   * is returned as the error.
   */
  function HashArgon2(prims: Primitives, src: RandomSource, password: string): (r: Result<string, HashError>)
    ensures r.Err? <==> |src.available| < SaltLen
    ensures r.Err? ==> r.error == RandomSourceFailure
    ensures r.Ok? ==> |r.value| == 97
  {
    match ReadRandom(src, SaltLen)
    case Err(e) => Err(e)
    case Ok(salt) =>
      var hash := prims.argon2id(password, salt, TimeCost, MemoryCost, Threads, KeyLen);
      PhcHeaderText();
      EncodedLengths();
      Ok(PhcHeader() + Encode(salt) + "$" + Encode(hash))
  }

  /** Where the parts of `header + salt + "$" + key` sit, for a 31-character header, a 22-symbol salt and a 43-symbol key. */
  lemma PhcSplit(header: string, salt: string, key: string)
    requires |header| == 31 && |salt| == 22 && |key| == 43
    ensures var h := header + salt + "$" + key;
      h[..31] == header && h[31..53] == salt && h[53] == '$' && h[54..] == key
  {
  }

  /**
   * The PHC string of a successful call: the fixed header, 22 symbols that decode
   * to the salt drawn, a `$` at index 53, and 43 symbols that decode to the tag
   * of the password under that salt; the `$` at 53 is the last one.
   */
  lemma HashArgon2Layout(prims: Primitives, src: RandomSource, password: string)
    requires HashArgon2(prims, src, password).Ok?
    ensures var h := HashArgon2(prims, src, password).value;
      var salt := src.available[..SaltLen];
      var hash := prims.argon2id(password, salt, TimeCost, MemoryCost, Threads, KeyLen);
      && h[..31] == "$argon2id$v=19$m=65536,t=2,p=1$"
      && h[31..53] == Encode(salt) && Decode(h[31..53]) == Some(salt)
      && h[53] == '$'
      && h[54..] == Encode(hash) && Decode(h[54..]) == Some(hash)
      && LastIndex(h, '$') == 53
  {
    var h := HashArgon2(prims, src, password).value;
    var salt := src.available[..SaltLen];
    var hash := prims.argon2id(password, salt, TimeCost, MemoryCost, Threads, KeyLen);
    PhcHeaderText();
    PhcSplit(PhcHeader(), Encode(salt), Encode(hash));
    DecodeEncode(salt);
    DecodeEncode(hash);
    EncodeInAlphabet(hash);
    NoSeparatorOrPadding(Encode(hash));
    LastIndexBeforeSuffix(h, '$', 53);
  }
}

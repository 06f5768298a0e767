/**
 * The escrypt `$7$` modular-crypt string of libsodium's
 * `crypto_pwhash_scryptsalsa208sha256_str`, as `hashSCrypt` writes it and
 * `verifySCrypt` reads it back:
 *
 *   `$7$` <log2 N: 1 symbol> <r: 5 symbols> <p: 5 symbols> <encoded salt> `$` <encoded key>
 *
 * The scrypt function is given the ENCODED salt text as its salt, not the raw
 * bytes drawn from the random source.
 */
module EscryptMcf {
  import opened Wrappers
  import opened Primitives
  import opened Radix
  import opened Escrypt64
  import opened GoStrings

  /** libsodium's interactive limits for scrypt: N = 2^14, r = 8, p = 1; a 32-byte key and a 32-byte salt. */
  const N: nat := 16384
  const R: nat := 8
  const P: nat := 1
  const KeyLen: nat := 32
  const SaltLen: nat := 32
  const Log2N: uint32 := 14

  /** The parameter fields spelled out. */
  lemma ParamSymbolsText()
    ensures "$7$" + Uint32Symbols(Log2N, 6) + Uint32Symbols(R, 30) + Uint32Symbols(P, 30) == "$7$C6..../...."
  {
    LogNSymbol();
    SmallFieldSymbols();
    ParamPieces();
  }

  /** The pieces joined; kept apart so that the literal concatenation is not unfolded next to the symbol lemmas. */
  lemma ParamPieces()
    ensures "$7$" + "C" + "6...." + "/...." == "$7$C6..../...."
  {
  }

  /** The cost field written is the one scrypt is run with: N = 2^log2N. */
  lemma LogNMatchesN()
    ensures Pow2(Log2N) == N
  {
    assert Pow2(4) == 16;
    assert Pow2(8) == 256;
    assert Pow2(12) == 4096;
  }

  /** log2 N = 14 is the single symbol `C`. */
  lemma LogNSymbol()
    ensures Uint32Symbols(Log2N, 6) == "C"
  {
    AlphabetMember('C');
    assert Uint32Symbols(14, 6) == [Itoa64[14]] + Uint32Symbols(0, 0);
  }

  /** r = 8 and p = 1 as 30-bit fields: `6....` and `/....`. */
  lemma SmallFieldSymbols()
    ensures Uint32Symbols(R, 30) == "6...."
    ensures Uint32Symbols(P, 30) == "/...."
  {
    AlphabetMember('6');
    AlphabetMember('/');
    ZeroSymbols();
    assert Uint32Symbols(8, 30) == [Itoa64[8]] + Uint32Symbols(0, 24);
    assert Uint32Symbols(1, 30) == [Itoa64[1]] + Uint32Symbols(0, 24);
  }

  /** The four high symbols of a 30-bit field holding a value below 64. */
  lemma ZeroSymbols()
    ensures Uint32Symbols(0, 24) == "...."
  {
    AlphabetMember('.');
    assert Uint32Symbols(0, 6) == ".";
    assert Uint32Symbols(0, 12) == "..";
    assert Uint32Symbols(0, 18) == "...";
  }

  /**
   * `hashSCrypt`: a 32-byte salt from the random source, encoded; the scrypt key
   * of the password under the encoded salt text; and the `$7$` string of both.
   * A failed random draw is returned as the error.
   */
  function HashSCrypt(prims: Primitives, src: RandomSource, password: string): (r: Result<string, HashError>)
    ensures r.Err? <==> |src.available| < SaltLen
    ensures r.Err? ==> r.error == RandomSourceFailure
    ensures r.Ok? ==> |r.value| == 101
  {
    match ReadRandom(src, SaltLen)
    case Err(e) => Err(e)
    case Ok(rawSalt) =>
      var encodedSalt := BytesSymbols(rawSalt);
      var dk := prims.scrypt(password, encodedSalt, N, R, P, KeyLen);
      Ok("$7$" + Uint32Symbols(Log2N, 6) + Uint32Symbols(R, 30) + Uint32Symbols(P, 30)
        + encodedSalt + "$" + BytesSymbols(dk))
  }

  /** Where the parts of `prefix + salt + "$" + key` sit, for a 14-character prefix and 43-symbol salt and key. */
  lemma McfSplit(prefix: string, salt: string, key: string)
    requires |prefix| == 14 && |salt| == 43 && |key| == 43
    ensures var h := prefix + salt + "$" + key;
      h[..14] == prefix && h[14..57] == salt && h[57] == '$' && h[58..] == key
  {
  }

  /**
   * The `$7$` string of a successful call: the fixed parameter prefix, the 43
   * symbols of the salt drawn (which decode back to it), a `$` at index 57 that
   * is the last `$`, and the 43 symbols of the key scrypt derives from the
   * password and the ENCODED salt.
   */
  lemma HashSCryptLayout(prims: Primitives, src: RandomSource, password: string)
    requires HashSCrypt(prims, src, password).Ok?
    ensures var h := HashSCrypt(prims, src, password).value;
      var encodedSalt := BytesSymbols(src.available[..SaltLen]);
      var dk := prims.scrypt(password, encodedSalt, N, R, P, KeyLen);
      && h[..14] == "$7$C6..../...."
      && h[14..57] == encodedSalt
      && Decode64Bytes(h[14..57]) == Some(src.available[..SaltLen])
      && h[57] == '$'
      && h[58..] == BytesSymbols(dk)
      && LastIndex(h, '$') == 57
  {
    var h := HashSCrypt(prims, src, password).value;
    var rawSalt := src.available[..SaltLen];
    var encodedSalt := BytesSymbols(rawSalt);
    var dk := prims.scrypt(password, encodedSalt, N, R, P, KeyLen);
    HashSCryptValue(prims, src, password);
    assert |encodedSalt| == 43 && |BytesSymbols(dk)| == 43;
    McfSplit("$7$C6..../....", encodedSalt, BytesSymbols(dk));
    DecodeEncode(rawSalt);
    BytesSymbolsInAlphabet(dk);
    NoSeparatorOrPadding(BytesSymbols(dk));
    LastIndexBeforeSuffix(h, '$', 57);
  }

  /** The string of a successful call, field by field. */
  lemma HashSCryptFields(prims: Primitives, src: RandomSource, password: string)
    requires HashSCrypt(prims, src, password).Ok?
    ensures var encodedSalt := BytesSymbols(src.available[..SaltLen]);
      var dk := prims.scrypt(password, encodedSalt, N, R, P, KeyLen);
      HashSCrypt(prims, src, password).value
        == "$7$" + Uint32Symbols(Log2N, 6) + Uint32Symbols(R, 30) + Uint32Symbols(P, 30) + encodedSalt + "$" + BytesSymbols(dk)
  {
    assert ReadRandom(src, SaltLen) == Ok(src.available[..SaltLen]);
  }

  /** The string of a successful call with its parameter fields spelled out. */
  lemma HashSCryptValue(prims: Primitives, src: RandomSource, password: string)
    requires HashSCrypt(prims, src, password).Ok?
    ensures var encodedSalt := BytesSymbols(src.available[..SaltLen]);
      var dk := prims.scrypt(password, encodedSalt, N, R, P, KeyLen);
      HashSCrypt(prims, src, password).value == "$7$C6..../...." + encodedSalt + "$" + BytesSymbols(dk)
  {
    HashSCryptFields(prims, src, password);
    ParamSymbolsText();
  }

  /**
   * The inputs on which `verifySCrypt` slices `storedHash[14:lastDollar]` with
   * the low bound above the high one: they pass both guards, yet the last `$`
   * sits at index 4 to 13.  Go panics on such a slice.
   */
  predicate SliceOutOfRange(storedHash: string) {
    |storedHash| >= 14 && storedHash[..3] == "$7$" && 3 < LastIndex(storedHash, '$') < 14
  }

  /**
   * `verifySCrypt` as written: the salt is the text from index 14 up to the last
   * `$`, the expected key the text after it, and the password matches when the
   * encoded scrypt key equals the expected key.  It is defined only where the
   * Go code does not panic; a match needs exactly 43 key symbols after the last `$`.
   */
  function VerifySCrypt(prims: Primitives, storedHash: string, password: string): (ok: bool)
    requires !SliceOutOfRange(storedHash)
    ensures ok ==> |storedHash| == LastIndex(storedHash, '$') + 44
  {
    if |storedHash| < 14 || storedHash[..3] != "$7$" then false
    else
      var lastDollar := LastIndex(storedHash, '$');
      if lastDollar <= 3 then false
      else
        var encodedSalt := storedHash[14..lastDollar];
        var expectedDK := storedHash[lastDollar + 1..];
        var dk := prims.scrypt(password, encodedSalt, 16384, 8, 1, 32);
        BytesSymbols(dk) == expectedDK
  }

  /**
   * `verifySCrypt` with its evident intent kept on every input: a last `$` before
   * index 14 leaves no room for the parameter fields, so the password does not match.
   */
  function VerifySCryptChecked(prims: Primitives, storedHash: string, password: string): (ok: bool)
    ensures ok ==> |storedHash| >= 58 && storedHash[..3] == "$7$"
    ensures ok ==> |storedHash| == LastIndex(storedHash, '$') + 44
  {
    if |storedHash| < 14 || storedHash[..3] != "$7$" then false
    else
      var lastDollar := LastIndex(storedHash, '$');
      if lastDollar < 14 then false
      else
        var encodedSalt := storedHash[14..lastDollar];
        var expectedDK := storedHash[lastDollar + 1..];
        var dk := prims.scrypt(password, encodedSalt, 16384, 8, 1, 32);
        BytesSymbols(dk) == expectedDK
  }

  /** A 14-character input the guards let through whose slice bounds are reversed. */
  lemma SliceGuardGap()
    ensures var s := "$7$C$.........";
      |s| == 14 && s[..3] == "$7$" && LastIndex(s, '$') == 4 && SliceOutOfRange(s)
  {
    var s := "$7$C$.........";
    forall j | 4 < j < |s|
      ensures s[j] != '$'
    {
    }
    LastIndexAt(s, '$', 4);
  }

  /** Wherever the code as written is defined, the checked version agrees with it; elsewhere it rejects. */
  lemma CheckedAgrees(prims: Primitives, storedHash: string, password: string)
    ensures !SliceOutOfRange(storedHash) ==>
      VerifySCryptChecked(prims, storedHash, password) == VerifySCrypt(prims, storedHash, password)
    ensures SliceOutOfRange(storedHash) ==> !VerifySCryptChecked(prims, storedHash, password)
  {
  }

  /** Generate, then verify: the string `hashSCrypt` returns verifies with the same password. */
  lemma GeneratedHashVerifies(prims: Primitives, src: RandomSource, password: string)
    requires HashSCrypt(prims, src, password).Ok?
    ensures !SliceOutOfRange(HashSCrypt(prims, src, password).value)
    ensures VerifySCrypt(prims, HashSCrypt(prims, src, password).value, password)
    ensures VerifySCryptChecked(prims, HashSCrypt(prims, src, password).value, password)
  {
    HashSCryptLayout(prims, src, password);
    var h := HashSCrypt(prims, src, password).value;
    WellFormedVerifies(prims, h, password);
  }

  /** A string with the `$7$` prefix, its last `$` at 57 and the key of its salt after it verifies. */
  lemma WellFormedVerifies(prims: Primitives, h: string, password: string)
    requires |h| == 101 && h[..14] == "$7$C6..../...." && LastIndex(h, '$') == 57
    requires h[58..] == BytesSymbols(prims.scrypt(password, h[14..57], N, R, P, KeyLen))
    ensures !SliceOutOfRange(h)
    ensures VerifySCrypt(prims, h, password)
    ensures VerifySCryptChecked(prims, h, password)
  {
    McfMarker(h);
  }

  /** The parameter prefix starts with the `$7$` marker. */
  lemma McfMarker(h: string)
    requires |h| >= 14 && h[..14] == "$7$C6..../...."
    ensures h[..3] == "$7$"
  {
    var prefix := "$7$C6..../....";
    assert h[..3] == h[..14][..3];
    assert prefix[..3] == "$7$";
  }

  /**
   * A generated string verifies a password exactly when scrypt derives the same
   * key from it as from the password it was generated for.
   */
  lemma VerifyAcceptsExactlyMatchingKeys(prims: Primitives, src: RandomSource, password: string, other: string)
    requires HashSCrypt(prims, src, password).Ok?
    ensures var encodedSalt := BytesSymbols(src.available[..SaltLen]);
      VerifySCryptChecked(prims, HashSCrypt(prims, src, password).value, other)
      <==> prims.scrypt(other, encodedSalt, N, R, P, KeyLen) == prims.scrypt(password, encodedSalt, N, R, P, KeyLen)
  {
    HashSCryptLayout(prims, src, password);
    var h := HashSCrypt(prims, src, password).value;
    var encodedSalt := BytesSymbols(src.available[..SaltLen]);
    var mine := prims.scrypt(other, encodedSalt, N, R, P, KeyLen);
    var theirs := prims.scrypt(password, encodedSalt, N, R, P, KeyLen);
    WellFormedVerdict(prims, h, other);
    if BytesSymbols(mine) == BytesSymbols(theirs) {
      EncodeInjective(mine, theirs);
    }
  }

  /** On a string of the generated shape, the checked verifier compares the key of its salt with the stored key. */
  lemma WellFormedVerdict(prims: Primitives, h: string, password: string)
    requires |h| == 101 && h[..14] == "$7$C6..../...." && LastIndex(h, '$') == 57
    ensures VerifySCryptChecked(prims, h, password)
      <==> BytesSymbols(prims.scrypt(password, h[14..57], N, R, P, KeyLen)) == h[58..]
  {
    McfMarker(h);
  }

}

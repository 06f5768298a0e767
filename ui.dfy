/**
 * The decisions the two tabs of the password tool take when their buttons are
 * pressed, lifted out of the widget callbacks: which message the generate tab
 * shows or which hash it generates, and which verdict the verify tab gives on a
 * pasted string.  The widgets, the clipboard and the status texts themselves
 * are not modelled; the outcome datatypes name the branch each text belongs to.
 */
module PasswordTool {
  import opened Wrappers
  import opened Primitives
  import opened GoStrings
  import opened HexCodec
  import opened ModeList
  import opened Modes
  import Escrypt64
  import StdBase64
  import Argon2Phc
  import EscryptMcf

  /** What the "Generate Hash" button ends in. */
  datatype GenerateOutcome =
    | ModeMissing                       // "Please select an encryption mode"
    | PasswordMissing                   // "Password is required"
    | UsernameMissing                   // "Username is required for this mode"
    | HashFailed(error: HashError)      // "Error: ..." and the output is cleared
    | Generated(mode: int, hash: string) // the hash is shown with its mode and length

  /** The "Generate Hash" callback: the mode is read from the selected label, then handled by `GenerateForMode`. */
  function GenerateClick(prims: Primitives, src: RandomSource, selected: string, username: string, password: string)
    : (o: GenerateOutcome)
    ensures o.ModeMissing? <==> ParseModeFromSelection(selected) == 0
    ensures o.Generated? ==> o.mode == ParseModeFromSelection(selected)
  {
    GenerateForMode(prims, src, ParseModeFromSelection(selected), username, password)
  }

  /**
   * The rest of the callback once the mode is known: mode 0 means nothing was
   * selected, then the password check, then the username check for the modes
   * that need one, then `eqcryptHash`.
   */
  function GenerateForMode(prims: Primitives, src: RandomSource, mode: int, username: string, password: string)
    : (o: GenerateOutcome)
    ensures o.ModeMissing? <==> mode == 0
    ensures o.PasswordMissing? <==> mode != 0 && password == ""
    ensures o.UsernameMissing? <==> mode != 0 && password != "" && NeedsUsername(mode) && username == ""
    ensures o.Generated? ==> o.mode == mode && 1 <= mode <= 14
    ensures o.HashFailed? ==> EqcryptHash(prims, src, username, password, mode) == Err(o.error)
    ensures o.Generated? ==> EqcryptHash(prims, src, username, password, mode) == Ok(o.hash)
  {
    if mode == 0 then ModeMissing
    else if password == "" then PasswordMissing
    else if NeedsUsername(mode) && username == "" then UsernameMissing
    else
      match EqcryptHash(prims, src, username, password, mode)
      case Err(e) => HashFailed(e)
      case Ok(hash) => Generated(mode, hash)
  }

  /** The note under the username field, as the mode list's change callback sets it. */
  function UsernameNote(selected: string): (note: string)
    ensures note == "Username is required for this mode" || note == "Username is not used for this mode"
    ensures note == "Username is required for this mode" <==> NeedsUsername(ParseModeFromSelection(selected))
  {
    if NeedsUsername(ParseModeFromSelection(selected)) then "Username is required for this mode"
    else "Username is not used for this mode"
  }

  /** The note for each label says "required" exactly when the mode's recipe uses the username. */
  lemma UsernameNoteMatchesRecipe(i: int)
    requires 0 <= i < |ModeOptions|
    ensures UsernameNote(ModeOptions[i]) == "Username is required for this mode"
      <==> i < 12 && LegacyMode(i + 1).1 != PasswordOnly
  {
    ModeOptionsParse(i);
    NeedsUsernameMatchesRecipe(i + 1);
  }

  /**
   * Every label of the mode list generates a hash of its own mode once a password,
   * and a username where the mode needs one, are given and the random source can
   * supply the salt its mode draws.
   */
  lemma EveryOptionGenerates(prims: Primitives, src: RandomSource, i: int, username: string, password: string)
    requires 0 <= i < |ModeOptions|
    requires password != "" && (NeedsUsername(i + 1) ==> username != "")
    requires i + 1 == 13 ==> |src.available| >= 16
    requires i + 1 == 14 ==> |src.available| >= 32
    ensures GenerateClick(prims, src, ModeOptions[i], username, password).Generated?
    ensures GenerateClick(prims, src, ModeOptions[i], username, password).mode == i + 1
  {
    ModeOptionsParse(i);
    ModeGenerates(prims, src, i + 1, username, password);
  }

  /**
   * Each mode from 1 to 14 generates once its inputs are present: the legacy modes
   * draw no randomness, Argon2id needs a 16-byte salt and scrypt a 32-byte one.
   */
  lemma ModeGenerates(prims: Primitives, src: RandomSource, mode: int, username: string, password: string)
    requires 1 <= mode <= 14
    requires password != "" && (NeedsUsername(mode) ==> username != "")
    requires mode == 13 ==> |src.available| >= 16
    requires mode == 14 ==> |src.available| >= 32
    ensures GenerateForMode(prims, src, mode, username, password).Generated?
  {
    if mode <= 12 {
      LegacyHashShape(prims, src, username, password, mode);
    } else if mode == 13 {
      Argon2Mode(prims, src, username, password);
    } else {
      SCryptMode(prims, src, username, password);
    }
  }

  /** A mode number outside 1 to 14, once a password is given, is reported as an unsupported mode carrying that number. */
  lemma UnknownModeFails(prims: Primitives, src: RandomSource, mode: int, username: string, password: string)
    requires mode != 0 && (mode < 1 || mode > 14)
    requires password != ""
    ensures GenerateForMode(prims, src, mode, username, password) == HashFailed(UnsupportedMode(mode))
  {
    assert !NeedsUsername(mode) by {
      assert mode !in ModeNeedsUsername;
    }
  }

  /** The kinds of stored hash the verify tab tells apart by prefix. */
  datatype HashKind = SCryptMcf | Argon2String | OtherHash

  /** The prefix test of the verify tab: `$7$` first, then `$argon2`. */
  function ClassifyStoredHash(h: string): (k: HashKind)
    ensures k == SCryptMcf <==> |h| >= 3 && h[..3] == "$7$"
    ensures k == Argon2String <==> k != SCryptMcf && |h| >= 7 && h[..7] == "$argon2"
  {
    if HasPrefix(h, "$7$") then SCryptMcf
    else if HasPrefix(h, "$argon2") then Argon2String
    else OtherHash
  }

  /** What the "Verify" button ends in. */
  datatype Verdict =
    | InputMissing          // "Both hash and password are required"
    | Pass                  // "PASS - Password matches this SCrypt hash"
    | Fail                  // "FAIL - Password does NOT match this SCrypt hash"
    | Argon2Unsupported     // "Argon2 verification not yet supported in verify tab"
    | LengthOnly(length: nat) // "Hash is <length> chars (MD5=32, SHA1=40, SHA512=128) - ..."

  /**
   * The "Verify" callback: the pasted text without surrounding white space; both
   * inputs required; a `$7$` string checked with scrypt, an `$argon2` string
   * refused, anything else answered with its length.  A `$7$` string whose last
   * `$` sits before index 14 is answered FAIL here, where the code as written
   * would slice out of range.
   */
  function VerifyClick(prims: Primitives, hashText: string, password: string): (v: Verdict)
    ensures v.InputMissing? <==> TrimSpace(hashText) == "" || password == ""
    ensures v.Pass? ==> |TrimSpace(hashText)| >= 58
    ensures v.LengthOnly? ==> v.length == |TrimSpace(hashText)| && ClassifyStoredHash(TrimSpace(hashText)) == OtherHash
  {
    var h := TrimSpace(hashText);
    if h == "" || password == "" then InputMissing
    else
      match ClassifyStoredHash(h)
      case SCryptMcf => if EscryptMcf.VerifySCryptChecked(prims, h, password) then Pass else Fail
      case Argon2String => Argon2Unsupported
      case OtherHash => LengthOnly(|h|)
  }

  /** Surrounding white space in the pasted text does not change the verdict. */
  lemma VerifyIgnoresSurroundingSpace(prims: Primitives, hashText: string, password: string)
    ensures VerifyClick(prims, TrimSpace(hashText), password) == VerifyClick(prims, hashText, password)
  {
    var h := TrimSpace(hashText);
    if h != [] {
      TrimSpaceUnchanged(h);
    }
  }

  /** A hash of a legacy mode is answered with its length: 32, 40 or 128 for MD5, SHA-1 and SHA-512. */
  lemma LegacyHashVerdict(prims: Primitives, src: RandomSource, username: string, password: string, mode: int)
    requires 1 <= mode <= 12 && password != ""
    ensures EqcryptHash(prims, src, username, password, mode).Ok?
    ensures VerifyClick(prims, EqcryptHash(prims, src, username, password, mode).value, password)
      == LengthOnly(DigestLength(LegacyMode(mode).0))
  {
    LegacyHashShape(prims, src, username, password, mode);
    var h := EqcryptHash(prims, src, username, password, mode).value;
    HexTrimmed(h);
    StoredClick(prims, h, password);
  }

  /** Non-empty lower-case hex has no surrounding white space and is classified as neither scrypt nor Argon2. */
  lemma HexTrimmed(h: string)
    requires h != [] && IsLowerHex(h)
    ensures Trimmed(h) && ClassifyStoredHash(h) == OtherHash
  {
    assert NibbleOf(h[0]) >= 0 && NibbleOf(h[|h| - 1]) >= 0;
    assert h[0] != '$';
  }

  /** On text with no surrounding white space, the verdict is the one its kind calls for. */
  lemma StoredClick(prims: Primitives, h: string, password: string)
    requires Trimmed(h) && password != ""
    ensures ClassifyStoredHash(h) == SCryptMcf ==>
      VerifyClick(prims, h, password) == if EscryptMcf.VerifySCryptChecked(prims, h, password) then Pass else Fail
    ensures ClassifyStoredHash(h) == Argon2String ==> VerifyClick(prims, h, password) == Argon2Unsupported
    ensures ClassifyStoredHash(h) == OtherHash ==> VerifyClick(prims, h, password) == LengthOnly(|h|)
  {
    TrimSpaceUnchanged(h);
  }

  /** A generated Argon2id string is recognised by its prefix and refused. */
  lemma Argon2Verdict(prims: Primitives, src: RandomSource, username: string, password: string)
    requires password != "" && |src.available| >= 16
    ensures EqcryptHash(prims, src, username, password, 13).Ok?
    ensures VerifyClick(prims, EqcryptHash(prims, src, username, password, 13).value, password) == Argon2Unsupported
  {
    Argon2Mode(prims, src, username, password);
    DispatchArgon2(prims, src, username, password);
    var h := EqcryptHash(prims, src, username, password, 13).value;
    Argon2Phc.HashArgon2Layout(prims, src, password);
    var salt := src.available[..Argon2Phc.SaltLen];
    var key := prims.argon2id(password, salt, Argon2Phc.TimeCost, Argon2Phc.MemoryCost, Argon2Phc.Threads, Argon2Phc.KeyLen);
    StdBase64.EncodeInAlphabet(key);
    PhcTrimmed(h, StdBase64.Encode(key));
    StoredClick(prims, h, password);
  }

  /** A string with the Argon2id header and a standard base-64 tail has no surrounding white space and is classified as Argon2. */
  lemma PhcTrimmed(h: string, key: string)
    requires |h| == 97 && h[..31] == "$argon2id$v=19$m=65536,t=2,p=1$"
    requires h[54..] == key && StdBase64.InAlphabet(key)
    ensures Trimmed(h) && ClassifyStoredHash(h) == Argon2String
  {
    var header := "$argon2id$v=19$m=65536,t=2,p=1$";
    assert h[96] == key[42];
    assert h[0] == header[0] && h[1] == header[1];
    assert h[..7] == h[..31][..7];
    assert header[..7] == "$argon2";
  }

  /** Generate with the default mode, SCrypt, then verify the string shown: the password passes. */
  lemma GenerateThenVerify(prims: Primitives, src: RandomSource, username: string, password: string)
    requires password != "" && |src.available| >= 32
    ensures GenerateClick(prims, src, ModeOptions[13], username, password).Generated?
    ensures VerifyClick(prims, GenerateClick(prims, src, ModeOptions[13], username, password).hash, password) == Pass
  {
    ModeOptionsParse(13);
    SCryptGeneratesAndVerifies(prims, src, username, password);
  }

  /** Mode 14 generates a `$7$` string that then verifies with the same password. */
  lemma SCryptGeneratesAndVerifies(prims: Primitives, src: RandomSource, username: string, password: string)
    requires password != "" && |src.available| >= 32
    ensures GenerateForMode(prims, src, 14, username, password).Generated?
    ensures VerifyClick(prims, GenerateForMode(prims, src, 14, username, password).hash, password) == Pass
  {
    assert !NeedsUsername(14) by {
      assert 14 !in ModeNeedsUsername;
    }
    SCryptMode(prims, src, username, password);
    SCryptClick(prims, src, username, password, password);
  }

  /** On a mode-14 string, the verify tab passes exactly when the checked verifier accepts. */
  lemma SCryptClick(prims: Primitives, src: RandomSource, username: string, password: string, other: string)
    requires |src.available| >= 32 && other != ""
    ensures EqcryptHash(prims, src, username, password, 14).Ok?
    ensures var h := EqcryptHash(prims, src, username, password, 14).value;
      VerifyClick(prims, h, other) == Pass <==> EscryptMcf.VerifySCryptChecked(prims, h, other)
  {
    DispatchSCrypt(prims, src, username, password);
    GeneratedSCryptClick(prims, src, password, other);
  }

  /**
   * Verifying a generated scrypt string with another password passes exactly when
   * scrypt derives the same key from both under the encoded salt.
   */
  lemma SCryptVerdict(prims: Primitives, src: RandomSource, username: string, password: string, other: string)
    requires |src.available| >= 32 && other != ""
    ensures EqcryptHash(prims, src, username, password, 14).Ok?
    ensures var encodedSalt := Escrypt64.BytesSymbols(src.available[..EscryptMcf.SaltLen]);
      (VerifyClick(prims, EqcryptHash(prims, src, username, password, 14).value, other) == Pass)
      <==> (prims.scrypt(other, encodedSalt, EscryptMcf.N, EscryptMcf.R, EscryptMcf.P, EscryptMcf.KeyLen)
            == prims.scrypt(password, encodedSalt, EscryptMcf.N, EscryptMcf.R, EscryptMcf.P, EscryptMcf.KeyLen))
  {
    DispatchSCrypt(prims, src, username, password);
    GeneratedSCryptClick(prims, src, password, other);
    EscryptMcf.VerifyAcceptsExactlyMatchingKeys(prims, src, password, other);
  }

  /** On a generated scrypt string, the verify tab passes exactly when the checked verifier accepts. */
  lemma GeneratedSCryptClick(prims: Primitives, src: RandomSource, password: string, other: string)
    requires |src.available| >= 32 && other != ""
    ensures EscryptMcf.HashSCrypt(prims, src, password).Ok?
    ensures var h := EscryptMcf.HashSCrypt(prims, src, password).value;
      VerifyClick(prims, h, other) == Pass <==> EscryptMcf.VerifySCryptChecked(prims, h, other)
  {
    var h := EscryptMcf.HashSCrypt(prims, src, password).value;
    EscryptMcf.HashSCryptLayout(prims, src, password);
    var encodedSalt := Escrypt64.BytesSymbols(src.available[..EscryptMcf.SaltLen]);
    var dk := prims.scrypt(password, encodedSalt, EscryptMcf.N, EscryptMcf.R, EscryptMcf.P, EscryptMcf.KeyLen);
    Escrypt64.BytesSymbolsInAlphabet(dk);
    McfTrimmed(h, Escrypt64.BytesSymbols(dk));
    StoredClick(prims, h, other);
  }

  /** A string with the `$7$` parameter prefix and an escrypt base-64 tail has no surrounding white space and is classified as scrypt. */
  lemma McfTrimmed(h: string, key: string)
    requires |h| == 101 && h[..14] == "$7$C6..../...."
    requires h[58..] == key && Escrypt64.InAlphabet(key)
    ensures Trimmed(h) && ClassifyStoredHash(h) == SCryptMcf
  {
    EscryptMcf.McfMarker(h);
    assert h[100] == key[42];
    assert h[0] == h[..3][0];
  }
}

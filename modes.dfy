/**
 * The encryption modes of the EQEmu login server (`EncryptionMode` in
 * loginserver/encryption.h): the table of modes that need a username and the
 * dispatcher `eqcryptHash`, with the legacy modes laid out as a table of
 * digest and recipe.
 */
module Modes {
  import opened Wrappers
  import opened Primitives
  import opened HexCodec
  import opened Digests
  import Argon2Phc
  import EscryptMcf

  /** The modes that mix the username into the hash. */
  const ModeNeedsUsername: map<int, bool> := map[
    2 := true, 3 := true, 4 := true,
    6 := true, 7 := true, 8 := true,
    10 := true, 11 := true, 12 := true
  ]

  /** `modeNeedsUsername[mode]`: a mode missing from the table reads as false. */
  function NeedsUsername(mode: int): (b: bool)
    ensures b <==> 1 <= mode <= 12 && mode % 4 != 1
  {
    mode in ModeNeedsUsername && ModeNeedsUsername[mode]
  }

  /**
   * `eqcryptHash`: modes 1 to 12 are MD5, SHA-1 and SHA-512 of the password, of
   * `password:username`, of `username:password`, or of the two hex digests
   * concatenated; 13 is Argon2id and 14 scrypt; any other mode is an error.
   */
  function EqcryptHash(prims: Primitives, src: RandomSource, username: string, password: string, mode: int)
    : (r: Result<string, HashError>)
    ensures r.Err? && r.error.UnsupportedMode? <==> mode < 1 || mode > 14
    ensures r.Err? && r.error.UnsupportedMode? ==> r.error.mode == mode
    ensures r.Err? && !r.error.UnsupportedMode? ==> 13 <= mode <= 14 && r.error == RandomSourceFailure
  {
    if 1 <= mode <= 12 then Ok(LegacyHash(prims, username, password, mode))
    else if mode == 13 then Argon2Phc.HashArgon2(prims, src, password)
    else if mode == 14 then EscryptMcf.HashSCrypt(prims, src, password)
    else Err(UnsupportedMode(mode))
  }

  /** The twelve legacy modes of `eqcryptHash`, none of which can fail. */
  function LegacyHash(prims: Primitives, username: string, password: string, mode: int): (h: string)
    requires 1 <= mode <= 12
    ensures |h| == if mode <= 4 then 32 else if mode <= 8 then 40 else 128
  {
    if mode == 1 then HashMD5(prims, password)
    else if mode == 2 then HashMD5(prims, password + ":" + username)
    else if mode == 3 then HashMD5(prims, username + ":" + password)
    else if mode == 4 then HashMD5(prims, HashMD5(prims, username) + HashMD5(prims, password))
    else if mode == 5 then HashSHA1(prims, password)
    else if mode == 6 then HashSHA1(prims, password + ":" + username)
    else if mode == 7 then HashSHA1(prims, username + ":" + password)
    else if mode == 8 then HashSHA1(prims, HashSHA1(prims, username) + HashSHA1(prims, password))
    else if mode == 9 then HashSHA512(prims, password)
    else if mode == 10 then HashSHA512(prims, password + ":" + username)
    else if mode == 11 then HashSHA512(prims, username + ":" + password)
    else HashSHA512(prims, HashSHA512(prims, username) + HashSHA512(prims, password))
  }

  /** The three digests of the legacy modes. */
  datatype DigestKind = MD5 | SHA1 | SHA512

  /** The four ways a legacy mode feeds the password and username to the digest. */
  datatype Recipe =
    | PasswordOnly           // H(p)
    | PasswordColonUsername  // H(p + ":" + u)
    | UsernameColonPassword  // H(u + ":" + p)
    | Triple                 // H(H(u) + H(p))

  function Digest(prims: Primitives, kind: DigestKind, s: string): string {
    match kind
    case MD5 => HashMD5(prims, s)
    case SHA1 => HashSHA1(prims, s)
    case SHA512 => HashSHA512(prims, s)
  }

  /** The length of a digest in hex digits. */
  function DigestLength(kind: DigestKind): nat {
    match kind
    case MD5 => 32
    case SHA1 => 40
    case SHA512 => 128
  }

  function Apply(prims: Primitives, kind: DigestKind, recipe: Recipe, username: string, password: string): string {
    match recipe
    case PasswordOnly => Digest(prims, kind, password)
    case PasswordColonUsername => Digest(prims, kind, password + ":" + username)
    case UsernameColonPassword => Digest(prims, kind, username + ":" + password)
    case Triple => Digest(prims, kind, Digest(prims, kind, username) + Digest(prims, kind, password))
  }

  /** The legacy modes as a table: four recipes per digest, MD5 for 1-4, SHA-1 for 5-8, SHA-512 for 9-12. */
  function LegacyMode(mode: int): (DigestKind, Recipe)
    requires 1 <= mode <= 12
  {
    var kind := if mode <= 4 then MD5 else if mode <= 8 then SHA1 else SHA512;
    var recipes := [PasswordOnly, PasswordColonUsername, UsernameColonPassword, Triple];
    (kind, recipes[(mode - 1) % 4])
  }

  /** `eqcryptHash` follows the legacy table on modes 1 to 12. */
  lemma EqcryptLegacyTable(prims: Primitives, src: RandomSource, username: string, password: string, mode: int)
    requires 1 <= mode <= 12
    ensures EqcryptHash(prims, src, username, password, mode)
      == Ok(Apply(prims, LegacyMode(mode).0, LegacyMode(mode).1, username, password))
  {
    if mode <= 4 {
      LegacyTableMD5(prims, username, password, mode);
    } else if mode <= 8 {
      LegacyTableSHA1(prims, username, password, mode);
    } else {
      LegacyTableSHA512(prims, username, password, mode);
    }
  }

  lemma LegacyTableMD5(prims: Primitives, username: string, password: string, mode: int)
    requires 1 <= mode <= 4
    ensures LegacyHash(prims, username, password, mode)
      == Apply(prims, LegacyMode(mode).0, LegacyMode(mode).1, username, password)
  {
  }

  lemma LegacyTableSHA1(prims: Primitives, username: string, password: string, mode: int)
    requires 5 <= mode <= 8
    ensures LegacyHash(prims, username, password, mode)
      == Apply(prims, LegacyMode(mode).0, LegacyMode(mode).1, username, password)
  {
  }

  lemma LegacyTableSHA512(prims: Primitives, username: string, password: string, mode: int)
    requires 9 <= mode <= 12
    ensures LegacyHash(prims, username, password, mode)
      == Apply(prims, LegacyMode(mode).0, LegacyMode(mode).1, username, password)
  {
  }

  /** Every legacy hash is lower-case hex of its digest's length: 32, 40 or 128 digits. */
  lemma LegacyHashShape(prims: Primitives, src: RandomSource, username: string, password: string, mode: int)
    requires 1 <= mode <= 12
    ensures EqcryptHash(prims, src, username, password, mode).Ok?
    ensures var h := EqcryptHash(prims, src, username, password, mode).value;
      IsLowerHex(h) && |h| == DigestLength(LegacyMode(mode).0)
  {
    EqcryptLegacyTable(prims, src, username, password, mode);
    var (kind, recipe) := LegacyMode(mode);
    var input := match recipe
      case PasswordOnly => password
      case PasswordColonUsername => password + ":" + username
      case UsernameColonPassword => username + ":" + password
      case Triple => Digest(prims, kind, username) + Digest(prims, kind, password);
    assert Apply(prims, kind, recipe, username, password) == Digest(prims, kind, input);
    DigestText(prims, input);
  }

  /** A mode needs a username exactly when it is a legacy mode whose recipe uses the username. */
  lemma NeedsUsernameMatchesRecipe(mode: int)
    ensures NeedsUsername(mode) <==> 1 <= mode <= 12 && LegacyMode(mode).1 != PasswordOnly
  {
  }

  /** A mode that does not need a username gives the same result whatever the username. */
  lemma UsernameIgnored(prims: Primitives, src: RandomSource, u1: string, u2: string, password: string, mode: int)
    requires !NeedsUsername(mode)
    ensures EqcryptHash(prims, src, u1, password, mode) == EqcryptHash(prims, src, u2, password, mode)
  {
    if 1 <= mode <= 12 {
      LegacyUsernameIgnored(prims, u1, u2, password, mode);
    }
  }

  lemma LegacyUsernameIgnored(prims: Primitives, u1: string, u2: string, password: string, mode: int)
    requires 1 <= mode <= 12 && !NeedsUsername(mode)
    ensures LegacyHash(prims, u1, password, mode) == LegacyHash(prims, u2, password, mode)
  {
    assert mode == 1 || mode == 5 || mode == 9;
  }

  /** Mode 13 fails only when the random source cannot supply the salt, and otherwise gives an `$argon2id$` string. */
  lemma Argon2Mode(prims: Primitives, src: RandomSource, username: string, password: string)
    ensures var r := EqcryptHash(prims, src, username, password, 13);
      (r.Err? <==> |src.available| < 16)
      && (r.Ok? ==> |r.value| == 97 && r.value[..31] == "$argon2id$v=19$m=65536,t=2,p=1$")
  {
    var r := EqcryptHash(prims, src, username, password, 13);
    DispatchArgon2(prims, src, username, password);
    if |src.available| >= 16 {
      Argon2Phc.HashArgon2Layout(prims, src, password);
    }
  }

  lemma DispatchArgon2(prims: Primitives, src: RandomSource, username: string, password: string)
    ensures EqcryptHash(prims, src, username, password, 13) == Argon2Phc.HashArgon2(prims, src, password)
  {
  }

  lemma DispatchSCrypt(prims: Primitives, src: RandomSource, username: string, password: string)
    ensures EqcryptHash(prims, src, username, password, 14) == EscryptMcf.HashSCrypt(prims, src, password)
  {
  }

  /** Mode 14 fails only when the random source cannot supply the salt, and otherwise gives a `$7$` string that verifies. */
  lemma SCryptMode(prims: Primitives, src: RandomSource, username: string, password: string)
    ensures var r := EqcryptHash(prims, src, username, password, 14);
      (r.Err? <==> |src.available| < 32)
      && (r.Ok? ==> |r.value| == 101 && r.value[..14] == "$7$C6..../...."
                    && EscryptMcf.VerifySCryptChecked(prims, r.value, password))
  {
    var r := EqcryptHash(prims, src, username, password, 14);
    DispatchSCrypt(prims, src, username, password);
    if |src.available| >= 32 {
      var h := r.value;
      EscryptMcf.HashSCryptLayout(prims, src, password);
      assert h[..14] == "$7$C6..../....";
      EscryptMcf.GeneratedHashVerifies(prims, src, password);
      assert EscryptMcf.VerifySCryptChecked(prims, h, password);
    }
  }
}

/**
 * The foreign collaborators of the hashing engine: the digest and key-derivation
 * functions of Go's crypto libraries and the system random source.  None of their
 * internals is modelled; each digest or KDF is an arbitrary deterministic function
 * whose only known property is the length of its output.
 *
 * A Go `string` is a sequence of bytes.  Throughout the model a Go string is a Dafny
 * `string` holding one character per byte, so `len(s)`, `s[i:j]` and `[]byte(s)`
 * keep their Go meaning.
 */
module Primitives {
  import opened Wrappers

  /** One octet: Go's `byte`. */
  type byte = x: int | 0 <= x < 256

  function Zeros(n: nat): seq<byte> {
    seq(n, _ => 0)
  }

  /** `md5.Sum` (RFC 1321): 16 bytes of digest for the bytes of a string. */
  type Md5Fn = f: string -> seq<byte> | forall s :: |f(s)| == 16
    witness (s: string) => Zeros(16)

  /** `sha1.Sum` (FIPS 180-4): 20 bytes of digest. */
  type Sha1Fn = f: string -> seq<byte> | forall s :: |f(s)| == 20
    witness (s: string) => Zeros(20)

  /** `sha512.Sum512` (FIPS 180-4): 64 bytes of digest. */
  type Sha512Fn = f: string -> seq<byte> | forall s :: |f(s)| == 64
    witness (s: string) => Zeros(64)

  /**
   * `scrypt.Key(password, salt, N, r, p, keyLen)` (RFC 7914) for valid parameters:
   * the derived key has exactly `keyLen` bytes.
   */
  type ScryptFn = f: (string, string, nat, nat, nat, nat) -> seq<byte>
    | forall password, salt, n, r, p, keyLen :: |f(password, salt, n, r, p, keyLen)| == keyLen
    witness (password: string, salt: string, n: nat, r: nat, p: nat, keyLen: nat) => Zeros(keyLen)

  /**
   * `argon2.IDKey(password, salt, time, memory, threads, keyLen)` (RFC 9106):
   * the tag has exactly `keyLen` bytes.
   */
  type Argon2idFn = f: (string, seq<byte>, nat, nat, nat, nat) -> seq<byte>
    | forall password, salt, time, memory, threads, keyLen ::
        |f(password, salt, time, memory, threads, keyLen)| == keyLen
    witness (password: string, salt: seq<byte>, time: nat, memory: nat, threads: nat, keyLen: nat) => Zeros(keyLen)

  /** The library functions the engine calls, fixed for one run of the program. */
  datatype Primitives = Primitives(
    md5: Md5Fn,
    sha1: Sha1Fn,
    sha512: Sha512Fn,
    scrypt: ScryptFn,
    argon2id: Argon2idFn)

  /** Failures the engine reports to its caller instead of a hash. */
  datatype HashError =
    | RandomSourceFailure        // `rand.Read` returned an error
    | UnsupportedMode(mode: int) // `eqcryptHash` was given a mode outside 1..14

  /** The bytes the system random source is able to deliver to the next `rand.Read`. */
  datatype RandomSource = RandomSource(available: seq<byte>)

  /**
   * `rand.Read` into a fresh buffer of `n` bytes: it either fills the whole buffer
   * or fails.
   */
  function ReadRandom(src: RandomSource, n: nat): (r: Result<seq<byte>, HashError>)
    ensures r.Ok? <==> n <= |src.available|
    ensures r.Ok? ==> |r.value| == n
    ensures r.Err? ==> r.error == RandomSourceFailure
  {
    if n <= |src.available| then Ok(src.available[..n]) else Err(RandomSourceFailure)
  }
}

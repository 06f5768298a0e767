/**
 * The three legacy digest formatters: the MD5, SHA-1 or SHA-512 digest of the
 * bytes of a string, printed with `%x`.
 */
module Digests {
  import opened Wrappers
  import opened Primitives
  import opened HexCodec

  /** `hashMD5`: 32 hex digits. */
  function HashMD5(prims: Primitives, s: string): (r: string)
    ensures |r| == 32
  {
    Hex(prims.md5(s))
  }

  /** `hashSHA1`: 40 hex digits. */
  function HashSHA1(prims: Primitives, s: string): (r: string)
    ensures |r| == 40
  {
    Hex(prims.sha1(s))
  }

  /** `hashSHA512`: 128 hex digits. */
  function HashSHA512(prims: Primitives, s: string): (r: string)
    ensures |r| == 128
  {
    Hex(prims.sha512(s))
  }

  /** Each formatter writes lower-case hex that reads back as exactly the digest. */
  lemma DigestText(prims: Primitives, s: string)
    ensures IsLowerHex(HashMD5(prims, s)) && Unhex(HashMD5(prims, s)) == Some(prims.md5(s))
    ensures IsLowerHex(HashSHA1(prims, s)) && Unhex(HashSHA1(prims, s)) == Some(prims.sha1(s))
    ensures IsLowerHex(HashSHA512(prims, s)) && Unhex(HashSHA512(prims, s)) == Some(prims.sha512(s))
  {
    HexIsLowerHex(prims.md5(s));
    UnhexHex(prims.md5(s));
    HexIsLowerHex(prims.sha1(s));
    UnhexHex(prims.sha1(s));
    HexIsLowerHex(prims.sha512(s));
    UnhexHex(prims.sha512(s));
  }
}

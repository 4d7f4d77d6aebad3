/**
 * The hash primitives both formats call. Their internals are not part of
 * this model: a Suite supplies them, each with its fixed digest length, and
 * an Init/Update.../Final sequence is the hash of the concatenated updates.
 */
module Sha {
  import opened Bytes

  type Digest20 = d: seq<byte> | |d| == 20 witness Zeros(20)
  type Digest32 = d: seq<byte> | |d| == 32 witness Zeros(32)
  type Digest48 = d: seq<byte> | |d| == 48 witness Zeros(48)
  type Digest64 = d: seq<byte> | |d| == 64 witness Zeros(64)

  /** SHA-1, SHA-256, SHA-384 and SHA-512 as black boxes. */
  datatype Suite = Suite(
    sha1: seq<byte> -> Digest20,
    sha256: seq<byte> -> Digest32,
    sha384: seq<byte> -> Digest48,
    sha512: seq<byte> -> Digest64)

  datatype HashType = Sha1 | Sha256 | Sha384 | Sha512

  /** SHA1_BINARY_SIZE, SHA256_BINARY_SIZE, SHA384_BINARY_SIZE, SHA512_BINARY_SIZE. */
  function DigestSize(h: HashType): (n: nat)
    ensures 20 <= n <= 64
  {
    match h
    case Sha1 => 20
    case Sha256 => 32
    case Sha384 => 48
    case Sha512 => 64
  }

  /** The digest of `m` under `h`; its length is the primitive's native size. */
  function Hash(suite: Suite, h: HashType, m: seq<byte>): (d: seq<byte>)
    ensures |d| == DigestSize(h)
  {
    match h
    case Sha1 => suite.sha1(m)
    case Sha256 => suite.sha256(m)
    case Sha384 => suite.sha384(m)
    case Sha512 => suite.sha512(m)
  }
}

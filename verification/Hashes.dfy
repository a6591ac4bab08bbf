/** The hash algorithms an eMRTD may use. Their digests are a parameter of the model. */
module Hashes {
  import opened Wrappers
  import opened ByteStrings

  datatype HashAlgo = Sha1 | Sha224 | Sha256 | Sha384 | Sha512

  function DigestLen(hash: HashAlgo): (len: nat)
    ensures 20 <= len <= 64
  {
    match hash
    case Sha1 => 20
    case Sha224 => 28
    case Sha256 => 32
    case Sha384 => 48
    case Sha512 => 64
  }

  ghost predicate FixedLength(digest: (HashAlgo, Bytes) -> Bytes) {
    forall hash, data :: |digest(hash, data)| == DigestLen(hash)
  }

  /** Any digest function with the right output lengths. */
  type Digest = d: (HashAlgo, Bytes) -> Bytes | FixedLength(d)
    witness (hash: HashAlgo, data: Bytes) => Zeros(DigestLen(hash))

  function FromOid(oid: seq<nat>): Option<HashAlgo> {
    if oid == [1, 3, 14, 3, 2, 26] then Some(Sha1)
    else if oid == [2, 16, 840, 1, 101, 3, 4, 2, 4] then Some(Sha224)
    else if oid == [2, 16, 840, 1, 101, 3, 4, 2, 1] then Some(Sha256)
    else if oid == [2, 16, 840, 1, 101, 3, 4, 2, 2] then Some(Sha384)
    else if oid == [2, 16, 840, 1, 101, 3, 4, 2, 3] then Some(Sha512)
    else None
  }

  /** The DigestInfo prefix of section 9.2 of RFC 8017. */
  function DigestInfoPrefix(hash: HashAlgo): Bytes {
    match hash
    case Sha1 => [0x30, 0x21, 0x30, 0x09, 0x06, 0x05, 0x2b, 0x0e, 0x03, 0x02, 0x1a, 0x05, 0x00, 0x04, 0x14]
    case Sha224 => NistPrefix(0x2d, 0x04, 0x1c)
    case Sha256 => NistPrefix(0x31, 0x01, 0x20)
    case Sha384 => NistPrefix(0x41, 0x02, 0x30)
    case Sha512 => NistPrefix(0x51, 0x03, 0x40)
  }

  function NistPrefix(total: Byte, arc: Byte, len: Byte): Bytes {
    [0x30, total, 0x30, 0x0d, 0x06, 0x09, 0x60, 0x86, 0x48, 0x01, 0x65, 0x03, 0x04, 0x02, arc, 0x05, 0x00, 0x04, len]
  }

  /** ISO/IEC 9796-2 hash identifiers, used in an explicit trailer. */
  function FromIso9796Id(id: Byte): Option<HashAlgo> {
    match id
    case 0x33 => Some(Sha1)
    case 0x34 => Some(Sha256)
    case 0x35 => Some(Sha512)
    case 0x36 => Some(Sha384)
    case 0x38 => Some(Sha224)
    case _ => None
  }
}

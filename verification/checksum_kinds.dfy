/** The kinds of checksum that a write can send. */
module ChecksumKinds {
  datatype ChecksumKind = Md5 | Crc64 | Crc32 | Crc32c | Sha1 | Sha256

  function DigestLen(kind: ChecksumKind): nat {
    match kind
    case Md5 => 16 case Crc64 => 8 case Crc32 => 4 case Crc32c => 4 case Sha1 => 20 case Sha256 => 32
  }

  // The characters of the base64 of a digest.
  function TextLen(kind: ChecksumKind): nat { (DigestLen(kind) + 2) / 3 * 4 }
}

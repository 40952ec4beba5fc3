/** Cryptographic digests tagged with their algorithm. */
module Hashes {
  import opened Encoding

  datatype HashType = Sha1 | Sha256 {
    /** The tag the Go struct stores: `HashSHA1` or `HashSHA256`. */
    function Name(): string {
      match this
      case Sha1 => "sha1"
      case Sha256 => "sha256"
    }
  }

  datatype HashValue = HashValue(hashType: HashType, digest: seq<byte>)
}

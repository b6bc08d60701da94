/** Digests, as arbitrary functions. */
module Hashes {
  import opened Bytes

  datatype Digests = Digests(sha256: seq<byte> -> string, md5: seq<byte> -> string)

  /** No other byte string has the digest of `y`. */
  ghost predicate Separates(digest: seq<byte> -> string, y: seq<byte>) {
    forall x :: digest(x) == digest(y) ==> x == y
  }
}

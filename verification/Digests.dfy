// SHA-256 of canonical JSON, idealised as a free algebra: each kind of hashed document is a
// constructor, so equal digests have equal preimages of the same kind.
module Digests {
  import opened Wrappers

  datatype Digest =
    | LogEntryDigest(sequence: int, authorizationHash: Digest, acceptedAt: int, previousEntryHash: Option<Digest>)
    | LeafDigest(entryHash: Digest)
    | NodeDigest(left: Digest, right: Digest)
    | OtherDigest(text: string)

  /** A text field that should hold 64 lower-case hexadecimal digits. */
  datatype HashText = Hex(digest: Digest) | NotHex(text: string)
}

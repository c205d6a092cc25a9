/** File identity. SHA-256 is opaque here: a digest carries its content, so equal digests
    mean equal contents; a caller may also present text that is no digest at all. */
module Hash {

  datatype ETag<+T> = Digest(content: T) | Foreign(text: string)

  /** `verify_etag`. */
  predicate VerifyEtag<T(==)>(claimed: ETag<T>, current: T) {
    claimed == Digest(current)
  }
}

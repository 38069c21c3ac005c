/** The entity graph a metalink document decodes into. Every attribute and element text is kept
    verbatim as a byte string: sizes, preferences, algorithm names and digests are never parsed. */
module Metalink {
  import opened ByteStrings

  /** The root `<metalink>` element; owns exactly one `<files>` block. */
  datatype Metalink = Metalink(files: Files)

  /** `<files>`: the described files, in declaration order. */
  datatype Files = Files(file: seq<MetaFile>)

  /** One `<file name="...">`: its size text, any number of `<resources>` blocks and one
      `<verification>` block (empty when the element is absent). */
  datatype MetaFile = MetaFile(
    name: Bytes,
    size: Size,
    resources: seq<Resources>,
    verification: FileVerification)

  /** `<verification>`: the declared checksums, in declaration order. */
  datatype FileVerification = FileVerification(hashes: seq<Hash>)

  /** `<hash type="...">DIGEST</hash>`: a free-form algorithm name and the declared digest text. */
  datatype Hash = Hash(hashType: Bytes, text: Bytes)

  /** `<size>`: the byte count exactly as written. */
  datatype Size = Size(text: Bytes)

  /** `<resources>`: the mirror locations, in declaration order. */
  datatype Resources = Resources(urls: seq<Url>)

  /** `<url type=".." protocol=".." location=".." preference="..">LINK</url>`. */
  datatype Url = Url(
    urlType: Bytes,
    protocol: Bytes,
    location: Bytes,
    preference: Bytes,
    link: Bytes)
}

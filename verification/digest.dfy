/** Whole-file digests. The four hash algorithms are not modelled: they enter as arbitrary
    functions from a file's bytes to its digest bytes, and only the way their results and the
    file's errors reach the caller is. */
module Digest {
  import opened Wrappers
  import opened ByteStrings

  /** The checksum algorithms the comparison knows by name. */
  datatype Algorithm = Md5 | Sha1 | Sha256 | Sha512

  /** The `type` attribute value that names each algorithm. */
  function Name(alg: Algorithm): (r: Bytes)
    ensures |r| == if alg == Md5 then 3 else if alg == Sha1 then 4 else 6
  {
    match alg
    case Md5 => Ascii("md5")
    case Sha1 => Ascii("sha1")
    case Sha256 => Ascii("sha256")
    case Sha512 => Ascii("sha512")
  }

  /** The hash primitives, one function from content to digest per algorithm. */
  datatype Primitives = Primitives(
    md5: Bytes -> Bytes,
    sha1: Bytes -> Bytes,
    sha256: Bytes -> Bytes,
    sha512: Bytes -> Bytes)

  /** Primitives whose digests have the standard widths: 16, 20, 32 and 64 bytes. */
  ghost predicate StandardSizes(p: Primitives) {
    forall b: Bytes {:trigger p.md5(b)} {:trigger p.sha1(b)} {:trigger p.sha256(b)} {:trigger p.sha512(b)} ::
      |p.md5(b)| == 16 && |p.sha1(b)| == 20 && |p.sha256(b)| == 32 && |p.sha512(b)| == 64
  }

  /** Why a local file could not be digested: it could not be opened, or reading it failed part way. */
  datatype IoError = OpenFailed(reason: Bytes) | ReadFailed(reason: Bytes)

  /** The file at the path being checked: its full content, and the error opening or reading it
      reports, if any. */
  datatype LocalFile = LocalFile(content: Bytes, failure: Option<IoError>)

  /** What a digest of `file` with `hash` must be: the file's own error when it has one, and the
      digest of its entire content otherwise. */
  ghost predicate DigestOf(hash: Bytes -> Bytes, file: LocalFile, r: Result<Bytes, IoError>) {
    match file.failure
    case Some(e) => r == Failure(e)
    case None => r == Success(hash(file.content))
  }

  /** Open the file, feed all of it to the hash, return the sum; any error is returned as is. */
  function Compute(hash: Bytes -> Bytes, file: LocalFile): Result<Bytes, IoError> {
    if file.failure.Some? then Failure(file.failure.value) else Success(hash(file.content))
  }

  function ComputeMd5(p: Primitives, file: LocalFile): (r: Result<Bytes, IoError>)
    ensures DigestOf(p.md5, file, r)
  {
    Compute(p.md5, file)
  }

  function ComputeSha1(p: Primitives, file: LocalFile): (r: Result<Bytes, IoError>)
    ensures DigestOf(p.sha1, file, r)
  {
    Compute(p.sha1, file)
  }

  function ComputeSha256(p: Primitives, file: LocalFile): (r: Result<Bytes, IoError>)
    ensures DigestOf(p.sha256, file, r)
  {
    Compute(p.sha256, file)
  }

  function ComputeSha512(p: Primitives, file: LocalFile): (r: Result<Bytes, IoError>)
    ensures DigestOf(p.sha512, file, r)
  {
    Compute(p.sha512, file)
  }
}

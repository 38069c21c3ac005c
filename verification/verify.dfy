/** `MetaFile.CompareHash`: find the first declared checksum for the requested algorithm,
    digest the local file with that algorithm, and compare the declared text with the digest's
    lowercase hex spelling. */
module Verify {
  import opened Wrappers
  import opened ByteStrings
  import opened Hex
  import opened Metalink
  import opened Digest

  /** Why a comparison could not be made. */
  datatype CompareError =
    | HashNotPresent(hash: Bytes)   // no declaration qualifies for the requested name
    | DigestFailed(cause: IoError)  // the local file could not be opened or read

  /** The Go pair `(bool, error)`. */
  datatype Verdict = Verdict(matched: bool, err: Option<CompareError>)

  /** Which digest the `sha512` case computes: the SHA-256 one, as the code is written, or the
      SHA-512 one the name asks for. */
  datatype Variant = AsWritten | Corrected

  /** The switch over one declaration `v`: the algorithm whose case fires for the requested
      name `hash`, if any. Each case asks for the literal name, `v.Type == hash` and a digest
      text longer than two bytes. */
  function Case(v: Hash, hash: Bytes): Option<Algorithm> {
    if v.hashType == Name(Md5) && v.hashType == hash && |v.text| > 2 then Some(Md5)
    else if v.hashType == Name(Sha1) && v.hashType == hash && |v.text| > 2 then Some(Sha1)
    else if v.hashType == Name(Sha256) && v.hashType == hash && |v.text| > 2 then Some(Sha256)
    else if v.hashType == Name(Sha512) && v.hashType == hash && |v.text| > 2 then Some(Sha512)
    else None
  }

  predicate Qualifies(v: Hash, hash: Bytes) {
    Case(v, hash).Some?
  }

  /** The four names are pairwise different. */
  lemma NamesDistinct(a: Algorithm, b: Algorithm)
    ensures Name(a) == Name(b) <==> a == b
  {
    if a != b && |Name(a)| == |Name(b)| {
      assert Name(a)[3] != Name(b)[3];
    }
  }

  /** The switch fires exactly for a declaration whose type is the requested name, that name
      is one of the four, and whose digest text is longer than two bytes. */
  lemma CaseSelects(v: Hash, hash: Bytes, alg: Algorithm)
    ensures Case(v, hash) == Some(alg) <==> v.hashType == hash == Name(alg) && |v.text| > 2
  {
    if v.hashType == hash == Name(alg) && |v.text| > 2 {
      if Case(v, hash) != Some(alg) {
        var other := Case(v, hash).value;
        NamesDistinct(other, alg);
      }
    }
  }

  /** The digest the switch case for `alg` computes. */
  function ComputeFor(variant: Variant, p: Primitives, alg: Algorithm, file: LocalFile): Result<Bytes, IoError> {
    match alg
    case Md5 => ComputeMd5(p, file)
    case Sha1 => ComputeSha1(p, file)
    case Sha256 => ComputeSha256(p, file)
    case Sha512 => if variant == AsWritten then ComputeSha256(p, file) else ComputeSha512(p, file)
  }

  /** The hash function each case applies to the file's content. */
  function HashUsed(variant: Variant, p: Primitives, alg: Algorithm): Bytes -> Bytes {
    match alg
    case Md5 => p.md5
    case Sha1 => p.sha1
    case Sha256 => p.sha256
    case Sha512 => if variant == AsWritten then p.sha256 else p.sha512
  }

  /** The digest a case computes is `HashUsed` applied through `Compute`. */
  lemma ComputeForUsesHashUsed(variant: Variant, p: Primitives, alg: Algorithm, file: LocalFile)
    ensures ComputeFor(variant, p, alg, file) == Compute(HashUsed(variant, p, alg), file)
  {
  }

  /** The body of a case once it has fired for declaration `v`. */
  function Judge(variant: Variant, p: Primitives, v: Hash, alg: Algorithm, file: LocalFile): Verdict {
    match ComputeFor(variant, p, alg, file)
    case Failure(e) => Verdict(false, Some(DigestFailed(e)))
    case Success(d) => Verdict(v.text == HexEncode(d), None)
  }

  /** `i` is the first declaration of `hs` for which the switch fires. */
  ghost predicate FirstQualifyingAt(hs: seq<Hash>, hash: Bytes, i: int) {
    && 0 <= i < |hs|
    && Qualifies(hs[i], hash)
    && forall j :: 0 <= j < i ==> !Qualifies(hs[j], hash)
  }

  /** The `for` loop over the declarations: the first one whose case fires decides the result;
      none firing yields the not-present error. */
  function Scan(variant: Variant, p: Primitives, hs: seq<Hash>, hash: Bytes, file: LocalFile): (r: Verdict)
    ensures r.err.Some? ==> !r.matched
    ensures r.err == Some(HashNotPresent(hash)) <==> forall j :: 0 <= j < |hs| ==> !Qualifies(hs[j], hash)
    ensures r.matched ==> file.failure.None?
    ensures r.err.Some? && r.err.value.DigestFailed? ==> file.failure == Some(r.err.value.cause)
    decreases |hs|
  {
    if |hs| == 0 then Verdict(false, Some(HashNotPresent(hash)))
    else
      match Case(hs[0], hash)
      case Some(alg) => Judge(variant, p, hs[0], alg, file)
      case None => Scan(variant, p, hs[1..], hash, file)
  }

  /** `metadata.CompareHash(hash, filename)` as written. */
  function CompareHash(p: Primitives, metadata: MetaFile, hash: Bytes, file: LocalFile): (r: Verdict)
    ensures r.err.Some? ==> !r.matched
    ensures r.err == Some(HashNotPresent(hash))
        <==> forall j :: 0 <= j < |metadata.verification.hashes| ==> !Qualifies(metadata.verification.hashes[j], hash)
  {
    Scan(AsWritten, p, metadata.verification.hashes, hash, file)
  }

  /** `CompareHash` with the `sha512` case computing the SHA-512 digest. */
  function CompareHashCorrected(p: Primitives, metadata: MetaFile, hash: Bytes, file: LocalFile): (r: Verdict)
    ensures r.err.Some? ==> !r.matched
    ensures r.err == Some(HashNotPresent(hash))
        <==> forall j :: 0 <= j < |metadata.verification.hashes| ==> !Qualifies(metadata.verification.hashes[j], hash)
  {
    Scan(Corrected, p, metadata.verification.hashes, hash, file)
  }

  // ---------------------------------------------------------------------------------------
  // Selection

  /** The first qualifying declaration alone decides the result. */
  lemma {:induction false} FirstQualifyingDecides(variant: Variant, p: Primitives, hs: seq<Hash>, hash: Bytes, file: LocalFile, i: int)
    requires FirstQualifyingAt(hs, hash, i)
    ensures Scan(variant, p, hs, hash, file) == Judge(variant, p, hs[i], Case(hs[i], hash).value, file)
    decreases i
  {
    if i > 0 {
      assert !Qualifies(hs[0], hash);
      assert FirstQualifyingAt(hs[1..], hash, i - 1) by {
        forall j | 0 <= j < i - 1 ensures !Qualifies(hs[1..][j], hash) {
          assert hs[1..][j] == hs[j + 1];
        }
      }
      FirstQualifyingDecides(variant, p, hs[1..], hash, file, i - 1);
    }
  }

  /** Declarations after the first qualifying one are never examined: replacing them changes nothing. */
  lemma LaterDeclarationsIgnored(variant: Variant, p: Primitives, hs: seq<Hash>, hash: Bytes, file: LocalFile, i: int, tail: seq<Hash>)
    requires FirstQualifyingAt(hs, hash, i)
    ensures Scan(variant, p, hs[..i + 1] + tail, hash, file) == Scan(variant, p, hs, hash, file)
  {
    var hs' := hs[..i + 1] + tail;
    assert forall j :: 0 <= j <= i ==> hs'[j] == hs[j];
    assert FirstQualifyingAt(hs', hash, i);
    FirstQualifyingDecides(variant, p, hs, hash, file, i);
    FirstQualifyingDecides(variant, p, hs', hash, file, i);
  }

  /** A declaration the switch does not fire for can be removed without changing the result. */
  lemma {:induction false} NonQualifyingIgnored(variant: Variant, p: Primitives, pre: seq<Hash>, v: Hash, post: seq<Hash>, hash: Bytes, file: LocalFile)
    requires !Qualifies(v, hash)
    ensures Scan(variant, p, pre + [v] + post, hash, file) == Scan(variant, p, pre + post, hash, file)
    decreases |pre|
  {
    if |pre| == 0 {
      assert (pre + [v] + post)[1..] == pre + post;
    } else {
      assert (pre + [v] + post)[0] == pre[0] == (pre + post)[0];
      assert (pre + [v] + post)[1..] == pre[1..] + [v] + post;
      assert (pre + post)[1..] == pre[1..] + post;
      NonQualifyingIgnored(variant, p, pre[1..], v, post, hash, file);
    }
  }

  /** A declaration whose digest text has at most two bytes is skipped even when its type is the
      requested name. */
  lemma ShortDigestSkipped(variant: Variant, p: Primitives, pre: seq<Hash>, v: Hash, post: seq<Hash>, hash: Bytes, file: LocalFile)
    requires |v.text| <= 2
    ensures Scan(variant, p, pre + [v] + post, hash, file) == Scan(variant, p, pre + post, hash, file)
  {
    NonQualifyingIgnored(variant, p, pre, v, post, hash, file);
  }

  /** A requested name other than `md5`, `sha1`, `sha256` and `sha512` (the upper-case `SHA256`
      among them) is never found, whatever the declarations are. */
  lemma UnsupportedNameNotFound(variant: Variant, p: Primitives, hs: seq<Hash>, hash: Bytes, file: LocalFile)
    requires forall alg: Algorithm :: hash != Name(alg)
    ensures Scan(variant, p, hs, hash, file) == Verdict(false, Some(HashNotPresent(hash)))
  {
  }

  // ---------------------------------------------------------------------------------------
  // Comparison

  /** Once a declaration is selected and the digest succeeds, the result is `(true, nil)` exactly
      when the declared text is the lowercase hex of the digest (equivalently, decodes to it), and
      `(false, nil)` otherwise: a mismatch is no error. */
  lemma SelectedComparesHex(variant: Variant, p: Primitives, hs: seq<Hash>, hash: Bytes, file: LocalFile, i: int, alg: Algorithm)
    requires FirstQualifyingAt(hs, hash, i) && hash == Name(alg)
    requires file.failure.None?
    ensures var d := HashUsed(variant, p, alg)(file.content);
      && Scan(variant, p, hs, hash, file).err.None?
      && (Scan(variant, p, hs, hash, file).matched <==> hs[i].text == HexEncode(d))
      && (Scan(variant, p, hs, hash, file).matched <==> HexDecode(hs[i].text) == Some(d))
  {
    FirstQualifyingDecides(variant, p, hs, hash, file, i);
    CaseSelects(hs[i], hash, alg);
    EncodingIffDecodes(hs[i].text, HashUsed(variant, p, alg)(file.content));
  }

  /** Once a declaration is selected, a file that cannot be opened or read gives `(false, err)`
      with that very error, which is never the not-present error. */
  lemma DigestErrorPropagates(variant: Variant, p: Primitives, hs: seq<Hash>, hash: Bytes, file: LocalFile, i: int)
    requires FirstQualifyingAt(hs, hash, i)
    requires file.failure.Some?
    ensures Scan(variant, p, hs, hash, file) == Verdict(false, Some(DigestFailed(file.failure.value)))
  {
    FirstQualifyingDecides(variant, p, hs, hash, file, i);
  }

  /** A selected declaration whose text holds any byte outside `0`-`9`, `a`-`f` (upper-case hex
      included) never matches. */
  lemma NonLowerHexNeverMatches(variant: Variant, p: Primitives, hs: seq<Hash>, hash: Bytes, file: LocalFile, i: int, k: int)
    requires FirstQualifyingAt(hs, hash, i)
    requires 0 <= k < |hs[i].text| && !IsLowerHexDigit(hs[i].text[k])
    ensures !Scan(variant, p, hs, hash, file).matched
  {
    FirstQualifyingDecides(variant, p, hs, hash, file, i);
  }

  // ---------------------------------------------------------------------------------------
  // The `sha512` case

  /** As written, the `sha512` case compares against the SHA-256 digest of the file. */
  lemma Sha512UsesSha256AsWritten(p: Primitives, hs: seq<Hash>, file: LocalFile, i: int)
    requires FirstQualifyingAt(hs, Name(Sha512), i)
    requires file.failure.None?
    ensures Scan(AsWritten, p, hs, Name(Sha512), file).matched <==> hs[i].text == HexEncode(p.sha256(file.content))
  {
    SelectedComparesHex(AsWritten, p, hs, Name(Sha512), file, i, Sha512);
  }

  /** As written, with standard digest widths, the correct 128-digit SHA-512 declaration of a
      readable file is reported as a mismatch. */
  lemma Sha512AsWrittenRejectsCorrectDigest(p: Primitives, hs: seq<Hash>, file: LocalFile, i: int)
    requires StandardSizes(p)
    requires FirstQualifyingAt(hs, Name(Sha512), i)
    requires file.failure.None?
    requires hs[i].text == HexEncode(p.sha512(file.content))
    ensures Scan(AsWritten, p, hs, Name(Sha512), file) == Verdict(false, None)
  {
    SelectedComparesHex(AsWritten, p, hs, Name(Sha512), file, i, Sha512);
    assert |p.sha512(file.content)| == 64 && |p.sha256(file.content)| == 32;
  }

  /** Corrected, the same declaration is reported as a match. */
  lemma Sha512CorrectedAcceptsCorrectDigest(p: Primitives, hs: seq<Hash>, file: LocalFile, i: int)
    requires FirstQualifyingAt(hs, Name(Sha512), i)
    requires file.failure.None?
    requires hs[i].text == HexEncode(p.sha512(file.content))
    ensures Scan(Corrected, p, hs, Name(Sha512), file) == Verdict(true, None)
  {
    SelectedComparesHex(Corrected, p, hs, Name(Sha512), file, i, Sha512);
  }

  /** The two variants differ only in the `sha512` case. */
  lemma {:induction false} VariantsAgreeBelowSha512(p: Primitives, hs: seq<Hash>, hash: Bytes, file: LocalFile)
    requires hash != Name(Sha512)
    ensures Scan(AsWritten, p, hs, hash, file) == Scan(Corrected, p, hs, hash, file)
    decreases |hs|
  {
    if |hs| > 0 {
      match Case(hs[0], hash)
      case Some(alg) =>
        CaseSelects(hs[0], hash, alg);
      case None =>
        VariantsAgreeBelowSha512(p, hs[1..], hash, file);
    }
  }
}

# go-metalink-parser: checksum selection and comparison

This project models the verifier of the metalink parser: `MetaFile.CompareHash`, which looks
through a file entry's declared `<hash>` elements for the requested algorithm, digests the local
file with that algorithm and compares the declared text with the digest's lowercase hexadecimal
spelling. It also models the entity graph that the XML decoder fills (`Metalink`, `Files`,
`MetaFile`, `FileVerification`, `Hash`, `Size`, `Resources`, `Url`) and the four `Compute*` digest
helpers.

Modules:

- `Wrappers`: `Option` and `Result`.
- `ByteStrings`: a Go string is a sequence of bytes, and `len` and `==` work on bytes. Every string
  of the source is therefore modelled as `Bytes`, including attribute values, digest texts and
  algorithm names. So the guard `len(v.Text) > 2` counts bytes, as in Go.
- `Hex`: `hex.EncodeToString` as `HexEncode`, and a lowercase decoder `HexDecode` as its partner.
  Round trips are proved in both directions.
- `Metalink`: the entity graph, as immutable datatypes.
- `Digest`: the hash primitives are not implemented. They are a `Primitives` record of four
  arbitrary functions from content to digest. The file at the given path is a `LocalFile`: its
  whole content plus the error, if any, that opening or reading it reports. `ComputeMd5` through
  `ComputeSha512` return that error, or else the primitive applied to the content.
- `Verify`: the switch over one declaration (`Case`), the loop over the declarations (`Scan`),
  and `CompareHash` itself. The Go result `(bool, error)` is the datatype `Verdict`.
  `CompareHash` is the code as written. `CompareHashCorrected` uses the SHA-512 digest in the
  `sha512` case (see Findings). All selection and comparison lemmas hold for both variants.

The `sha512` case computes SHA-256 (metalinks.go:162), not the SHA-512 its name asks for.
`CompareHash` follows the code; `CompareHashCorrected` uses SHA-512 (see Findings).

## Model

| member | source | states |
|---|---|---|
| Hex.HexEncode | metalinks.go:133 | the encoding of n bytes has 2n bytes, all of them `0`-`9` or `a`-`f` |
| Hex.DecodeEncode | metalinks.go:133 | lowercase hex decoding recovers every encoded byte string |
| Hex.EncodeDecode | metalinks.go:133 | every text that decodes is the encoding of what it decodes to |
| Hex.EncodingIffDecodes | metalinks.go:133 | a text is the hex encoding of b exactly when it decodes to b |
| Hex.EncodeInjective | metalinks.go:133 | different digests have different hex encodings |
| Verify.NamesDistinct | metalinks.go:128-161 | the literals `md5`, `sha1`, `sha256`, `sha512` are pairwise different |
| Verify.CaseSelects | metalinks.go:127-174 | a case fires for a declaration exactly when its type equals the requested name, that name is one of the four, and the digest text is longer than two bytes |
| Verify.Scan | metalinks.go:126-176 | an error always comes with `false`; the not-present error occurs exactly when no declaration qualifies; `true` needs a readable file; a digest error is the file's own error |
| Verify.CompareHash | metalinks.go:125-177 | an error always comes with `false`; the not-present error occurs exactly when no declaration of the entry qualifies |
| Verify.CompareHashCorrected | metalinks.go:125-177 | the same guarantees with the `sha512` case computing the SHA-512 digest |
| Verify.FirstQualifyingDecides | metalinks.go:126-171 | the result is the one the first qualifying declaration gives |
| Verify.LaterDeclarationsIgnored | metalinks.go:134-171 | replacing every declaration after the first qualifying one does not change the result |
| Verify.NonQualifyingIgnored | metalinks.go:126-174 | removing a declaration that does not qualify does not change the result |
| Verify.ShortDigestSkipped | metalinks.go:128-161 | a declaration whose text has at most two bytes is skipped even if its type matches |
| Verify.UnsupportedNameNotFound | metalinks.go:127-176 | a requested name outside the four gives `(false, not present)` whatever is declared |
| Verify.SelectedComparesHex | metalinks.go:133-138 | with a readable file, the result has no error and is `true` exactly when the selected text is the lowercase hex of the digest, i.e. when it decodes to the digest |
| Verify.DigestErrorPropagates | metalinks.go:129-132 | with an unreadable file, the result is `(false, err)` carrying the file's own error |
| Verify.NonLowerHexNeverMatches | metalinks.go:133-134 | a selected text with any byte outside `0`-`9`, `a`-`f`, upper-case hex included, never matches |
| Verify.Sha512UsesSha256AsWritten | metalinks.go:161-166 | as written, a `sha512` declaration is compared with the SHA-256 digest |
| Verify.Sha512AsWrittenRejectsCorrectDigest | metalinks.go:161-171 | as written, with standard digest widths, the correct SHA-512 declaration gives `(false, nil)` |
| Verify.Sha512CorrectedAcceptsCorrectDigest | metalinks.go:161-171 | corrected, the correct SHA-512 declaration gives `(true, nil)` |
| Verify.VariantsAgreeBelowSha512 | metalinks.go:128-171 | for every requested name other than `sha512`, both variants give the same result |

## Left out

- Digest.ComputeMd5, Digest.ComputeSha1, Digest.ComputeSha256, Digest.ComputeSha512 (metalinks.go:179-241): their bodies are the digest abstraction itself, so their contracts only spell that abstraction out and they have no row of their own; the error propagation they perform is stated by `Verify.DigestErrorPropagates` and by `Verify.Scan`.
- `ParseFile`, `ParseString`, `ParseBytes` and `ParseFileFromUrl` (metalinks.go:69-122) are left out. They only hand bytes to `encoding/xml.Unmarshal`, whose decoding is not part of this model. The HTTP fetch and `ioutil.ReadFile`, including the ignored read error at line 71, are I/O.
- The `XMLName` and chardata `Text` fields of the container structs are left out. They carry no behaviour.
- MD5, SHA-1, SHA-256 and SHA-512 are parameters, not implementations. Only their output widths are ever assumed, in `StandardSizes`, for the `sha512` finding.
- Opening the file, `io.Copy` streaming and `defer file.Close()` are left out. A file is its whole content plus an optional open or read error, and both kinds of error reach the caller in the same way.
- The text of the not-present error, produced by `fmt.Errorf`, is left out. `HashNotPresent` carries only the requested name that the message quotes.
- The commented-out block at metalinks.go:243-255 is not code.

## Findings

| source | as written | input that shows it | evidently intended | confidence | as-written member | corrected member |
|---|---|---|---|---|---|---|
| metalinks.go:161-166 | the `sha512` case calls `ComputeSha256` | a file entry whose first `sha512` declaration holds the correct 128-digit SHA-512 of a readable file: the SHA-256 hex has 64 digits, so the result is `(false, nil)` | call `ComputeSha512`, so that the correct declaration gives `(true, nil)` | high; not executed | Verify.Sha512AsWrittenRejectsCorrectDigest | Verify.Sha512CorrectedAcceptsCorrectDigest |

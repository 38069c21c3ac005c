/** Go strings and byte slices are both sequences of bytes: `len` counts bytes and `==`
    compares them byte for byte. The model represents both as `Bytes`. */
module ByteStrings {

  newtype Byte = b: int | 0 <= b < 256

  type Bytes = seq<Byte>

  /** The byte encoding of a string literal made of ASCII characters, as Go stores it. */
  function Ascii(s: string): (r: Bytes)
    requires forall i :: 0 <= i < |s| ==> s[i] as int < 128
    ensures |r| == |s|
    ensures forall i :: 0 <= i < |s| ==> r[i] as int == s[i] as int
  {
    seq(|s|, i requires 0 <= i < |s| => s[i] as int as Byte)
  }
}

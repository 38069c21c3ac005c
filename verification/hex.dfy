/** Lowercase hexadecimal encoding of byte strings, as produced by Go's `hex.EncodeToString`,
    together with a decoder for the same alphabet that serves as its reference partner. */
module Hex {
  import opened Wrappers
  import opened ByteStrings

  /** The sixteen bytes `0`-`9` and `a`-`f`: the only bytes the encoder emits. */
  predicate IsLowerHexDigit(c: Byte) {
    (0x30 <= c <= 0x39) || (0x61 <= c <= 0x66)
  }

  predicate IsLowerHex(s: Bytes) {
    forall i :: 0 <= i < |s| ==> IsLowerHexDigit(s[i])
  }

  /** Entry `n` of the table "0123456789abcdef". */
  function HexDigit(n: int): (c: Byte)
    requires 0 <= n < 16
    ensures IsLowerHexDigit(c)
  {
    if n < 10 then (0x30 + n) as Byte else (0x61 + (n - 10)) as Byte
  }

  /** The value of a lowercase hex digit; `None` for any other byte, upper-case `A`-`F` included. */
  function HexValue(c: Byte): (r: Option<int>)
    ensures r.Some? <==> IsLowerHexDigit(c)
    ensures r.Some? ==> 0 <= r.value < 16 && HexDigit(r.value) == c
  {
    if 0x30 <= c <= 0x39 then Some(c as int - 0x30)
    else if 0x61 <= c <= 0x66 then Some(c as int - 0x61 + 10)
    else None
  }

  /** Each byte becomes its high nibble's digit followed by its low nibble's digit
      (`v >> 4` and `v & 0x0f` in the library, `/ 16` and `% 16` here). */
  function HexEncode(src: Bytes): (dst: Bytes)
    ensures |dst| == 2 * |src|
    ensures IsLowerHex(dst)
  {
    if |src| == 0 then []
    else [HexDigit(src[0] as int / 16), HexDigit(src[0] as int % 16)] + HexEncode(src[1..])
  }

  /** Reads pairs of lowercase hex digits back into bytes; odd length or any other byte fails. */
  function HexDecode(s: Bytes): (r: Option<Bytes>)
    decreases |s|
  {
    if |s| == 0 then Some([])
    else if |s| == 1 then None
    else
      match (HexValue(s[0]), HexValue(s[1]), HexDecode(s[2..]))
      case (Some(hi), Some(lo), Some(rest)) => Some([(hi * 16 + lo) as Byte] + rest)
      case _ => None
  }

  /** Decoding undoes encoding. */
  lemma {:induction false} DecodeEncode(src: Bytes)
    ensures HexDecode(HexEncode(src)) == Some(src)
  {
    if |src| > 0 {
      var e := HexEncode(src);
      var hi, lo := src[0] as int / 16, src[0] as int % 16;
      assert e[2..] == HexEncode(src[1..]);
      DecodeEncode(src[1..]);
      assert HexValue(e[0]) == Some(hi);
      assert HexValue(e[1]) == Some(lo);
      assert (hi * 16 + lo) as Byte == src[0];
      assert [src[0]] + src[1..] == src;
    }
  }

  /** Whatever decodes was a lowercase hex encoding: encoding undoes decoding. */
  lemma {:induction false} EncodeDecode(s: Bytes, b: Bytes)
    requires HexDecode(s) == Some(b)
    ensures HexEncode(b) == s
    decreases |s|
  {
    if |s| > 0 {
      var hi, lo := HexValue(s[0]).value, HexValue(s[1]).value;
      var rest := HexDecode(s[2..]).value;
      EncodeDecode(s[2..], rest);
      assert b == [(hi * 16 + lo) as Byte] + rest;
      assert b[1..] == rest;
      assert b[0] as int / 16 == hi && b[0] as int % 16 == lo;
      assert s == [s[0], s[1]] + s[2..];
    }
  }

  /** A text is the lowercase hex encoding of `b` exactly when it decodes to `b`. */
  lemma EncodingIffDecodes(s: Bytes, b: Bytes)
    ensures s == HexEncode(b) <==> HexDecode(s) == Some(b)
  {
    if s == HexEncode(b) {
      DecodeEncode(b);
    }
    if HexDecode(s) == Some(b) {
      EncodeDecode(s, b);
    }
  }

  /** Distinct byte strings have distinct encodings. */
  lemma EncodeInjective(a: Bytes, b: Bytes)
    requires HexEncode(a) == HexEncode(b)
    ensures a == b
  {
    DecodeEncode(a);
    DecodeEncode(b);
  }
}

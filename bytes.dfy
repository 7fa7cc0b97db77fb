/** PHP strings as byte sequences, and the parts of PHP's string library the core uses. */
module ByteStrings {

  newtype byte = x: int | 0 <= x < 256

  /** A PHP string: an arbitrary sequence of bytes. */
  type Bytes = seq<byte>

  function Min(a: int, b: int): (m: int)
  {
    if a <= b then a else b
  }

  /** The bytes of a text literal; every character of the literals used here is ASCII. */
  function Ascii(s: string): (r: Bytes)
    ensures |r| == |s|
    ensures forall i :: 0 <= i < |s| && s[i] as int < 256 ==> r[i] as int == s[i] as int
  {
    seq(|s|, i requires 0 <= i < |s| => (s[i] as int % 256) as byte)
  }

  /**
   * PHP 8 `substr($s, $offset, $length)` for a non-negative offset and length:
   * an offset past the end gives the empty string, a length past the end stops there.
   */
  function Substr(s: Bytes, offset: nat, length: nat): (r: Bytes)
    ensures |r| == Min(length, |s| - Min(offset, |s|))
  {
    s[Min(offset, |s|)..Min(offset + length, |s|)]
  }

  /** PHP 8 `substr($s, $offset)` for a non-negative offset: everything from `offset` on. */
  function SubstrFrom(s: Bytes, offset: nat): (r: Bytes)
    ensures |r| == |s| - Min(offset, |s|)
  {
    s[Min(offset, |s|)..]
  }
}

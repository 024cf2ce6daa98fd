// Bytes, optional results and the numeric limits shared by the whole model.
module Bytes {

  type byte = x: int | 0 <= x < 256
  type bytes = seq<byte>

  datatype Option<+T> = None | Some(value: T)

  const TWO_32: nat := 0x1_0000_0000
  const TWO_64: nat := 0x1_0000_0000_0000_0000

  const INT_MAX: nat := 0x7FFF_FFFF

  // The largest length a length-delimited record may announce: INT_MAX - kSlopBytes.
  const MAX_LEN: nat := INT_MAX - 16

  /** The bytes of an ASCII literal. */
  function Ascii(s: string): (r: bytes)
    ensures |r| == |s|
  {
    seq(|s|, i requires 0 <= i < |s| => s[i] as int % 256)
  }
}

/** Octets, and the one-character-per-octet ("binary string") view of them. */
module Bytes {
  type Byte = b: int | 0 <= b < 256

  /** The binary string whose character codes are the given octets. */
  function Latin1(bs: seq<Byte>): (r: string)
    ensures |r| == |bs| && forall k :: 0 <= k < |bs| ==> r[k] as int == bs[k]
  {
    seq(|bs|, k requires 0 <= k < |bs| => bs[k] as char)
  }
}

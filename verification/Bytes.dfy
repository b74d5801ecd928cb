// Byte strings and big-endian integers.
module Bytes {
  type byte = x: int | 0 <= x < 256

  function Pow256(len: nat): (r: nat)
    ensures r > 0
  {
    if len == 0 then 1 else 256 * Pow256(len - 1)
  }

  function BigEndian(v: nat, len: nat): (bs: seq<byte>)
    ensures |bs| == len
  {
    if len == 0 then [] else BigEndian(v / 256, len - 1) + [v % 256]
  }

  function FromBigEndian(bs: seq<byte>): nat {
    if bs == [] then 0 else 256 * FromBigEndian(bs[..|bs| - 1]) + bs[|bs| - 1]
  }

  lemma {:induction false} BigEndianRoundTrip(v: nat, len: nat)
    requires v < Pow256(len)
    ensures FromBigEndian(BigEndian(v, len)) == v
  {
    if len > 0 {
      BigEndianRoundTrip(v / 256, len - 1);
      assert BigEndian(v, len)[..len - 1] == BigEndian(v / 256, len - 1);
    }
  }
}

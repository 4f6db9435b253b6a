/** Bytes and the two integer layouts the bridge uses: `struct` packing and `int.from_bytes`. */
module Bytes {
  import opened Wrappers

  /** An unsigned 8-bit value; every element of a Python `bytes` object is one. */
  type byte = b: int | 0 <= b < 256

  /** 256 to the power n: one more than the largest value n bytes can hold. */
  function Pow256(n: nat): (p: nat)
    ensures p >= 1
  {
    if n == 0 then 1 else 256 * Pow256(n - 1)
  }

  /** `int.from_bytes(s, byteorder='big')`: the unsigned value of s, most significant byte first. */
  function FromBytesBig(s: seq<byte>): (v: nat)
    ensures v < Pow256(|s|)
    ensures |s| == 1 ==> v == s[0]
  {
    if s == [] then 0 else 256 * FromBytesBig(s[..|s| - 1]) + s[|s| - 1]
  }

  /** `struct.pack(">H", x)`: a 16-bit value as two bytes, high byte first;
      `struct.error` (None) when x does not fit in 16 unsigned bits. */
  function PackU16Big(x: int): (r: Option<seq<byte>>)
    ensures r.Some? <==> 0 <= x < 0x1_0000
    ensures r.Some? ==> |r.value| == 2 && FromBytesBig(r.value) == x
  {
    if 0 <= x < 0x1_0000 then
      var s: seq<byte> := [x / 256, x % 256];
      assert s[..1] == [x / 256];
      Some(s)
    else
      None
  }
}

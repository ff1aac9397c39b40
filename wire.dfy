/**
 * The integer encodings the container copies byte for byte from memory on the
 * reference platform: `size_t` and `uint64_t` are 8 bytes little-endian,
 * `int` is 4 bytes two's complement little-endian, a `char` key is 1 byte.
 */
module Wire {
  import opened Types

  function Pow256(n: nat): (p: nat)
    ensures p >= 1
  {
    if n == 0 then 1 else 256 * Pow256(n - 1)
  }

  /** The low `width` bytes of `n`, least significant first. */
  function LittleEndian(n: nat, width: nat): (bs: seq<Byte>)
    ensures |bs| == width
  {
    if width == 0 then [] else [n % 256] + LittleEndian(n / 256, width - 1)
  }

  /** The number a little-endian byte sequence stores. */
  function FromLittleEndian(bs: seq<Byte>): (n: nat)
    ensures n < Pow256(|bs|)
  {
    if bs == [] then 0
    else
      var rest := FromLittleEndian(bs[1..]);
      assert bs[0] + 256 * rest <= 255 + 256 * (Pow256(|bs| - 1) - 1);
      bs[0] + 256 * rest
  }

  lemma {:induction false} LittleEndianRoundTrip(n: nat, width: nat)
    requires n < Pow256(width)
    ensures FromLittleEndian(LittleEndian(n, width)) == n
  {
    if width > 0 {
      var bs := LittleEndian(n, width);
      assert bs[1..] == LittleEndian(n / 256, width - 1);
      assert n / 256 < Pow256(width - 1);
      LittleEndianRoundTrip(n / 256, width - 1);
    }
  }

  /** A `size_t` or `uint64_t` field: 8 bytes. */
  function Word64(n: nat): (bs: seq<Byte>)
    ensures |bs| == 8
    ensures n < Pow256(8) ==> FromLittleEndian(bs) == n
  {
    if n < Pow256(8) then
      LittleEndianRoundTrip(n, 8);
      LittleEndian(n, 8)
    else
      LittleEndian(n, 8)
  }

  /** An `int` field: 4 bytes, two's complement. */
  function Int32Bytes(v: int): (bs: seq<Byte>)
    requires IsInt32(v)
    ensures |bs| == 4
    ensures Int32FromBytes(bs) == v
  {
    var u := if v < 0 then v + 0x1_0000_0000 else v;
    assert Pow256(4) == 0x1_0000_0000;
    LittleEndianRoundTrip(u, 4);
    LittleEndian(u, 4)
  }

  /** Reading an `int` back from its 4 stored bytes. */
  function Int32FromBytes(bs: seq<Byte>): (v: int)
    requires |bs| == 4
    ensures IsInt32(v)
  {
    var u := FromLittleEndian(bs);
    assert Pow256(4) == 0x1_0000_0000;
    if u <= Int32Max then u else u - 0x1_0000_0000
  }
}

/** Machine types of the reference platform (x86-64, little-endian, signed `char`). */
module Types {

  /** A C++ `char`: signed, 8 bits. `std::map<char, ...>` orders keys by this value. */
  type Char = c: int | -128 <= c < 128

  /** A `uint8_t`. */
  type Byte = b: int | 0 <= b < 256

  /** A `uint64_t` (also `checksum_t`). */
  type Uint64 = x: int | 0 <= x < 0x1_0000_0000_0000_0000

  const Int32Min: int := -0x8000_0000
  const Int32Max: int := 0x7FFF_FFFF

  predicate IsInt32(v: int) { Int32Min <= v <= Int32Max }

  /** `Huffman::Int` (`std::int32_t`). */
  type Int32 = v: int | Int32Min <= v <= Int32Max

  function Pow2(n: nat): (p: nat)
    ensures p >= 1
  {
    if n == 0 then 1 else 2 * Pow2(n - 1)
  }

  /** `(uint8_t)c`: the byte that stores the char (two's complement). */
  function CharToByte(c: Char): (b: Byte)
    ensures b == c || b == c + 256
  {
    c % 256
  }

  /** Reading a stored byte back as a `char` (`memcpy` / `reinterpret_cast<char*>`). */
  function ByteToChar(b: Byte): (c: Char)
    ensures CharToByte(c) == b
  {
    if b < 128 then b else b - 256
  }

  lemma CharByteRoundTrip(c: Char)
    ensures ByteToChar(CharToByte(c)) == c
  {
  }

  /** Every char of a string as the `uint8_t` that holds it. */
  function Unsigned(s: seq<Char>): (r: seq<Byte>)
    ensures |r| == |s|
    ensures forall i :: 0 <= i < |s| ==> r[i] == CharToByte(s[i])
  {
    seq(|s|, i requires 0 <= i < |s| => CharToByte(s[i]))
  }

  /** A byte vector viewed through `reinterpret_cast<char*>`. */
  function Reinterpret(bs: seq<Byte>): (r: seq<Char>)
    ensures |r| == |bs|
    ensures Unsigned(r) == bs
  {
    seq(|bs|, i requires 0 <= i < |bs| => ByteToChar(bs[i]))
  }

  /** Viewing the bytes of a string as chars again gives the string back. */
  lemma ReinterpretUnsigned(s: seq<Char>)
    ensures Reinterpret(Unsigned(s)) == s
  {
    var r := Reinterpret(Unsigned(s));
    forall i | 0 <= i < |s|
      ensures r[i] == s[i]
    {
      CharByteRoundTrip(s[i]);
    }
  }

  /** Bit `j` of `x` (bit 0 is the least significant). */
  predicate BitSet(x: nat, j: nat) {
    (x / Pow2(j)) % 2 == 1
  }

  lemma DivUnique(x: nat, d: nat, q: nat, r: nat)
    requires d > 0 && r < d && x == d * q + r
    ensures x / d == q && x % d == r
  {
    var k := x / d - q;
    assert d * k == r - x % d;
  }

  /** Shifting right by `j + 1` is shifting right by one, then by `j`. */
  lemma {:induction false} ShiftBit(x: nat, j: nat)
    ensures BitSet(x, j + 1) == BitSet(x / 2, j)
  {
    var p := Pow2(j);
    var q := (x / 2) / p;
    var r := (x / 2) % p;
    assert x / 2 == p * q + r;
    assert x == (2 * p) * q + (2 * r + x % 2);
    DivUnique(x, 2 * p, q, 2 * r + x % 2);
  }

  /** Two numbers below `2^n` that agree on their low `n` bits are equal. */
  lemma {:induction false} SameBits(x: nat, y: nat, n: nat)
    requires x < Pow2(n) && y < Pow2(n)
    requires forall j :: 0 <= j < n ==> BitSet(x, j) == BitSet(y, j)
    ensures x == y
  {
    if n > 0 {
      forall j | 0 <= j < n - 1
        ensures BitSet(x / 2, j) == BitSet(y / 2, j)
      {
        ShiftBit(x, j);
        ShiftBit(y, j);
      }
      SameBits(x / 2, y / 2, n - 1);
      assert BitSet(x, 0) == BitSet(y, 0);
    }
  }
}

/**
 * The container's integrity digest: 64-bit FNV-1a (section 2 of the IETF
 * Internet-Draft draft-eastlake-fnv), with `uint64_t` wrap-around written out
 * as arithmetic modulo 2^64.
 */
module Checksum {
  import opened Types

  const OffsetBasis: Uint64 := 0xcbf2_9ce4_8422_2325
  const FnvPrime: nat := 0x0000_0100_0000_01b3
  const Modulus: nat := 0x1_0000_0000_0000_0000

  /** Bitwise exclusive or of the low `width` bits of `a` and `b`. */
  function Xor(a: nat, b: nat, width: nat): (r: nat)
    ensures r < Pow2(width)
    ensures forall j :: 0 <= j < width ==> (BitSet(r, j) <==> BitSet(a, j) != BitSet(b, j))
  {
    if width == 0 then 0
    else
      var low := (a % 2 + b % 2) % 2;
      var high := Xor(a / 2, b / 2, width - 1);
      var r := low + 2 * high;
      assert r / 2 == high && r % 2 == low by { DivUnique(r, 2, high, low); }
      forall j | 0 <= j < width
        ensures BitSet(r, j) <==> BitSet(a, j) != BitSet(b, j)
      {
        if j > 0 {
          ShiftBit(r, j - 1);
          ShiftBit(a, j - 1);
          ShiftBit(b, j - 1);
        }
      }
      r
  }

  /** `hash ^= (uint8_t)buf[i]`: the byte only reaches the low eight bits. */
  function XorByte(h: Uint64, b: Byte): (r: Uint64)
    ensures r / 256 == h / 256
    ensures r % 256 == Xor(h % 256, b, 8)
  {
    var x := Xor(h % 256, b, 8);
    assert Pow2(8) == 256;
    assert h / 256 <= 0x100_0000_0000_0000 - 1;
    var r := h / 256 * 256 + x;
    DivUnique(r, 256, h / 256, x);
    r
  }

  /** `hash *= 0x00000100000001b3` on a `uint64_t`. */
  function MultiplyPrime(h: Uint64): Uint64 {
    (h * FnvPrime) % Modulus
  }

  /** One round of FNV-1a: exclusive or first, then multiply. */
  function Step(h: Uint64, b: Byte): Uint64 {
    MultiplyPrime(XorByte(h, b))
  }

  /** The inverse of the prime modulo 2^64: `FnvPrime * PrimeInverse == 1 + PrimeInverseCarry * Modulus`. */
  const PrimeInverse: nat := 0xce96_5057_aff6_957b
  const PrimeInverseCarry: nat := 887285111055

  /** The prime is odd, so multiplying by it modulo 2^64 loses nothing: distinct hashes stay distinct. */
  lemma MultiplyPrimeInjective(a: Uint64, b: Uint64)
    requires MultiplyPrime(a) == MultiplyPrime(b)
    ensures a == b
  {
    var k := a * FnvPrime / Modulus - b * FnvPrime / Modulus;
    assert (a - b) * FnvPrime == k * Modulus;
    assert FnvPrime * PrimeInverse == 1 + PrimeInverseCarry * Modulus;
    assert (a - b) * FnvPrime * PrimeInverse == k * PrimeInverse * Modulus;
    var m := k * PrimeInverse - (a - b) * PrimeInverseCarry;
    assert a - b == m * Modulus;
  }

  /** Exclusive or with the same byte loses nothing either. */
  lemma XorByteInjective(a: Uint64, b: Uint64, x: Byte)
    requires XorByte(a, x) == XorByte(b, x)
    ensures a == b
  {
    var ra := XorByte(a, x);
    forall j | 0 <= j < 8
      ensures BitSet(a % 256, j) == BitSet(b % 256, j)
    {
      assert BitSet(ra % 256, j) <==> BitSet(a % 256, j) != BitSet(x, j);
    }
    assert Pow2(8) == 256;
    SameBits(a % 256, b % 256, 8);
  }

  /** One FNV-1a round with a given byte maps distinct running hashes to distinct ones. */
  lemma StepInjective(a: Uint64, b: Uint64, x: Byte)
    requires Step(a, x) == Step(b, x)
    ensures a == b
  {
    MultiplyPrimeInjective(XorByte(a, x), XorByte(b, x));
    XorByteInjective(a, b, x);
  }

  /** The hash after feeding `bytes`, in order, to a running hash `h`. */
  function Fold(h: Uint64, bytes: seq<Byte>): Uint64
    decreases |bytes|
  {
    if bytes == [] then h else Fold(Step(h, bytes[0]), bytes[1..])
  }

  lemma {:induction false} FoldAppend(h: Uint64, a: seq<Byte>, b: seq<Byte>)
    ensures Fold(h, a + b) == Fold(Fold(h, a), b)
    decreases |a|
  {
    if a != [] {
      assert (a + b)[0] == a[0] && (a + b)[1..] == a[1..] + b;
      assert Fold(h, a + b) == Fold(Step(h, a[0]), a[1..] + b);
      assert Fold(h, a) == Fold(Step(h, a[0]), a[1..]);
      FoldAppend(Step(h, a[0]), a[1..], b);
    } else {
      assert a + b == b;
    }
  }

  /** FNV-1a of a byte buffer: the offset basis for the empty buffer, else one round per byte. */
  function Fnv1a(bytes: seq<Byte>): (r: Uint64)
    ensures bytes == [] ==> r == OffsetBasis
    ensures bytes != [] ==> r == Step(Fnv1a(bytes[..|bytes| - 1]), bytes[|bytes| - 1])
  {
    if bytes == [] then OffsetBasis
    else
      var n := |bytes| - 1;
      assert bytes == bytes[..n] + [bytes[n]];
      FoldAppend(OffsetBasis, bytes[..n], [bytes[n]]);
      Fold(OffsetBasis, bytes)
  }

  /** Feeding `a` and then `b` is the same as starting from the digest of `a`. */
  lemma ChecksumAppend(a: seq<Byte>, b: seq<Byte>)
    ensures Fnv1a(a + b) == Fold(Fnv1a(a), b)
  {
    FoldAppend(OffsetBasis, a, b);
  }

  /** `checksum(buf, len)`: reads the first `len` chars, each as its unsigned byte. */
  method Checksum(buf: seq<Char>, len: nat) returns (hash: Uint64)
    requires len <= |buf|
    ensures hash == Fnv1a(Unsigned(buf[..len]))
  {
    hash := OffsetBasis;
    var i := 0;
    while i < len
      invariant i <= len
      invariant hash == Fnv1a(Unsigned(buf[..i]))
    {
      ghost var bytes := Unsigned(buf[..i + 1]);
      assert bytes[..i] == Unsigned(buf[..i]);
      hash := XorByte(hash, CharToByte(buf[i]));
      hash := MultiplyPrime(hash);
      i := i + 1;
    }
  }
}

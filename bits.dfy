/**
 * `Huffman::Methods::PackBitsToBytes` and `UnpackBytesToBits`: a string of
 * '0'/'1' characters packed most significant bit first into bytes, the last
 * byte padded with zero bits, and the way back.
 */
module BitPack {
  import opened Types

  /** A bit string as the codec produces it: only '0' and '1'. */
  predicate IsBits(s: string) {
    forall i :: 0 <= i < |s| ==> s[i] == '0' || s[i] == '1'
  }

  /**
   * The value left in `currentByte` after shifting in the characters of `s`
   * one at a time (`<<= 1`, then `|= 1` when the character is '1'; any other
   * character is a 0 bit).
   */
  function ShiftIn(s: string): (v: nat)
    ensures v < Pow2(|s|)
    ensures |s| <= 8 ==> v < 256
  {
    Pow2Mono(|s|, 8);
    if s == [] then 0 else 2 * ShiftIn(s[..|s| - 1]) + (if s[|s| - 1] == '1' then 1 else 0)
  }

  lemma {:induction false} Pow2Mono(m: nat, n: nat)
    ensures m <= n ==> Pow2(m) <= Pow2(n)
    ensures Pow2(8) == 256
  {
    if m < n {
      Pow2Mono(m, n - 1);
    }
  }

  /** `b <<= k` on a `uint8_t`, one position at a time: bits shifted past the eighth are lost. */
  function ShiftLeft(b: Byte, k: nat): Byte {
    if k == 0 then b else (2 * ShiftLeft(b, k - 1)) % 256
  }

  /** Doubling commutes with keeping the low eight bits. */
  lemma DoubleMod(x: nat)
    ensures (2 * (x % 256)) % 256 == (2 * x) % 256
  {
    var r := x % 256;
    DivUnique(2 * x, 256, 2 * (x / 256) + (2 * r) / 256, (2 * r) % 256);
  }

  /** Shifting left `k` times is multiplying by `2^k` and keeping the low eight bits. */
  lemma {:induction false} ShiftLeftValue(b: Byte, k: nat)
    ensures ShiftLeft(b, k) == (b * Pow2(k)) % 256
  {
    if k > 0 {
      ShiftLeftValue(b, k - 1);
      var p := Pow2(k - 1);
      assert b * Pow2(k) == 2 * (b * p);
      DoubleMod(b * p);
    }
  }

  function Zeros(n: nat): (z: string)
    ensures |z| == n && forall i :: 0 <= i < n ==> z[i] == '0'
  {
    seq(n, _ => '0')
  }

  /** Bit `i` of a packed vector: byte `i / 8`, bit `7 - i % 8` (most significant first). */
  predicate PackedBit(bytes: seq<Byte>, i: nat)
    requires i < 8 * |bytes|
  {
    BitSet(bytes[i / 8], 7 - i % 8)
  }

  /** The characters that go into output byte `k`: eight of them, or the one to seven left at the end. */
  function Group(s: string, k: nat): (g: string)
    requires 8 * k < |s|
    ensures 0 < |g| <= 8
  {
    s[8 * k .. if 8 * k + 8 <= |s| then 8 * k + 8 else |s|]
  }

  /** Output byte `k`: its characters shifted in, then shifted left over the missing ones. */
  function PackedByte(s: string, k: nat): Byte
    requires 8 * k < |s|
  {
    var g := Group(s, k);
    ShiftLeft(ShiftIn(g), 8 - |g|)
  }

  /** What `PackBitsToBytes` returns: one byte per started group of eight characters. */
  function PackBits(s: string): (bytes: seq<Byte>)
    ensures |bytes| == (|s| + 7) / 8
  {
    seq((|s| + 7) / 8, k requires 0 <= k < (|s| + 7) / 8 => PackedByte(s, k))
  }

  /** Character `j` of `s` is the bit at position `|s| - 1 - j` of `ShiftIn(s)`. */
  lemma {:induction false} ShiftInBit(s: string, j: nat)
    requires j < |s|
    ensures BitSet(ShiftIn(s), |s| - 1 - j) <==> s[j] == '1'
    decreases |s|
  {
    var n := |s| - 1;
    var v := ShiftIn(s[..n]);
    var low := if s[n] == '1' then 1 else 0;
    assert ShiftIn(s) == 2 * v + low;
    DivUnique(2 * v + low, 2, v, low);
    if j < n {
      ShiftBit(2 * v + low, n - 1 - j);
      ShiftInBit(s[..n], j);
    }
  }

  lemma ShiftInZero(w: string)
    ensures ShiftIn(w + ['0']) == 2 * ShiftIn(w)
  {
    assert (w + ['0'])[..|w|] == w;
  }

  /** The final `currentByte <<= (8 - bitCount)` is shifting in zero characters. */
  lemma SmallMod(x: nat)
    requires x < 256
    ensures x % 256 == x
  {
  }

  lemma {:induction false} ShiftInZeros(t: string, k: nat)
    requires |t| + k <= 8
    ensures ShiftIn(t + Zeros(k)) == ShiftLeft(ShiftIn(t), k)
  {
    if k > 0 {
      var w := t + Zeros(k - 1);
      ShiftInZeros(t, k - 1);
      var shifted := ShiftLeft(ShiftIn(t), k - 1);
      assert Zeros(k) == Zeros(k - 1) + ['0'];
      assert t + Zeros(k) == w + ['0'];
      ShiftInZero(w);
      var v := ShiftIn(w + ['0']);
      assert v == 2 * shifted < 256;
      SmallMod(v);
      assert ShiftLeft(ShiftIn(t), k) == v % 256;
    } else {
      assert t + Zeros(k) == t;
    }
  }


  /**
   * Bit `i` of the packed output is `s[i]` (set exactly when it is '1');
   * the padding bits after `|s|` are all zero.
   */
  lemma PackBitsAt(s: string, i: nat)
    requires i < 8 * |PackBits(s)|
    ensures PackedBit(PackBits(s), i) <==> i < |s| && s[i] == '1'
  {
    var k := i / 8;
    var j := i % 8;
    var g := Group(s, k);
    var padded := g + Zeros(8 - |g|);
    ShiftInZeros(g, 8 - |g|);
    assert PackBits(s)[k] == ShiftIn(padded);
    ShiftInBit(padded, j);
    assert padded[j] == if j < |g| then s[i] else '0';
  }

  /** The eight characters `byte & (1 << i) ? '1' : '0'` for `i` from 7 down to 0. */
  function ByteBits(b: Byte): (r: string)
    ensures |r| == 8
  {
    seq(8, j requires 0 <= j < 8 => if BitSet(b, 7 - j) then '1' else '0')
  }

  /** Shifting the eight characters of a byte back in gives the byte. */
  lemma ByteBitsRoundTrip(b: Byte)
    ensures ShiftIn(ByteBits(b)) == b
  {
    var r := ByteBits(b);
    forall j | 0 <= j < 8
      ensures BitSet(ShiftIn(r), j) == BitSet(b, j)
    {
      ShiftInBit(r, 7 - j);
    }
    Pow2Mono(8, 8);
    SameBits(ShiftIn(r), b, 8);
  }

  /** Every bit of every byte, most significant first. */
  function AllBits(bytes: seq<Byte>): (r: string)
    ensures |r| == 8 * |bytes|
    ensures forall i :: 0 <= i < |r| ==> r[i] == if PackedBit(bytes, i) then '1' else '0'
  {
    if bytes == [] then []
    else
      var n := |bytes| - 1;
      var r := AllBits(bytes[..n]) + ByteBits(bytes[n]);
      assert forall i :: 8 * n <= i < 8 * |bytes| ==> i / 8 == n && i % 8 == i - 8 * n;
      r
  }

  /** What `UnpackBytesToBits` returns: `substr(0, bitLength)` of all the bits. */
  function UnpackBits(bytes: seq<Byte>, bitLength: nat): (r: string)
    ensures |r| == if bitLength < 8 * |bytes| then bitLength else 8 * |bytes|
    ensures IsBits(r)
    ensures forall i :: 0 <= i < |r| ==> (r[i] == '1' <==> PackedBit(bytes, i))
  {
    var all := AllBits(bytes);
    if bitLength < |all| then all[..bitLength] else all
  }

  /** Packing all the bits of a byte vector gives the vector back. */
  lemma PackAllBits(bytes: seq<Byte>)
    ensures PackBits(AllBits(bytes)) == bytes
  {
    var s := AllBits(bytes);
    DivUnique(8 * |bytes| + 7, 8, |bytes|, 7);
    forall k | 0 <= k < |bytes|
      ensures PackBits(s)[k] == bytes[k]
    {
      PackedByteBits(bytes, k);
    }
  }

  /** The eight characters of byte `k` sit at `8 * k` in the unpacked string. */
  lemma {:induction false} AllBitsWindow(bytes: seq<Byte>, k: nat)
    requires k < |bytes|
    ensures 8 * k + 8 <= |AllBits(bytes)| && AllBits(bytes)[8 * k .. 8 * k + 8] == ByteBits(bytes[k])
    decreases |bytes|
  {
    var n := |bytes| - 1;
    var front := AllBits(bytes[..n]);
    assert AllBits(bytes) == front + ByteBits(bytes[n]);
    if k < n {
      AllBitsWindow(bytes[..n], k);
      SliceFront(front, ByteBits(bytes[n]), 8 * k, 8 * k + 8);
    } else {
      SliceFront(front + ByteBits(bytes[n]), [], 8 * k, 8 * k + 8);
      assert (front + ByteBits(bytes[n]))[|front|..] == ByteBits(bytes[n]);
    }
  }

  /** A slice inside the front part of a concatenation is a slice of that part. */
  lemma SliceFront<T>(a: seq<T>, b: seq<T>, lo: nat, hi: nat)
    requires lo <= hi <= |a|
    ensures (a + b)[lo..hi] == a[lo..hi]
  {
  }

  /** Output byte `k` of the packing is made of the eight characters of input byte `k`. */
  lemma PackedByteBits(bytes: seq<Byte>, k: nat)
    requires k < |bytes|
    ensures 8 * k < |AllBits(bytes)| && PackedByte(AllBits(bytes), k) == bytes[k]
  {
    AllBitsWindow(bytes, k);
    assert Group(AllBits(bytes), k) == ByteBits(bytes[k]);
    ByteBitsRoundTrip(bytes[k]);
  }

  /** Unpacking exactly `|s|` bits of `PackBits(s)` gives `s` back. */
  lemma UnpackPackRoundTrip(s: string)
    requires IsBits(s)
    ensures UnpackBits(PackBits(s), |s|) == s
  {
    var r := UnpackBits(PackBits(s), |s|);
    forall i | 0 <= i < |s|
      ensures r[i] == s[i]
    {
      PackBitsAt(s, i);
    }
  }

  /** One more character shifted into the (at most seven) pending bits `s[start..i]`. */
  lemma ShiftInStep(s: string, start: nat, i: nat, currentByte: Byte)
    requires start <= i < |s| && i - start < 8
    requires currentByte == ShiftIn(s[start..i])
    ensures ShiftLeft(currentByte, 1) + (if s[i] == '1' then 1 else 0) == ShiftIn(s[start..i + 1]) < 256
  {
    var window := s[start..i + 1];
    assert window[..i - start] == s[start..i];
  }

  /** Bytes `0 .. |done| - 1` of the packed form of `s`. */
  predicate PackedSoFar(s: string, done: seq<Byte>)
  {
    8 * |done| <= |s| && forall k :: 0 <= k < |done| ==> done[k] == PackedByte(s, k)
  }

  /** A full group of eight pending characters becomes the next output byte. */
  lemma PackGroup(s: string, done: seq<Byte>, byte: Byte)
    requires PackedSoFar(s, done) && 8 * |done| + 8 <= |s|
    requires byte == ShiftIn(s[8 * |done| .. 8 * |done| + 8])
    ensures PackedSoFar(s, done + [byte])
  {
    assert byte == PackedByte(s, |done|);
  }

  /** After the last character: the one to seven pending characters, if any, make the last byte. */
  lemma PackFinish(s: string, done: seq<Byte>, byte: Byte)
    requires PackedSoFar(s, done) && |s| < 8 * |done| + 8
    requires byte == ShiftIn(s[8 * |done| ..])
    ensures 8 * |done| == |s| ==> done == PackBits(s)
    ensures 8 * |done| < |s| ==> done + [ShiftLeft(byte, 8 - (|s| - 8 * |done|))] == PackBits(s)
  {
    var n := |done|;
    if 8 * n < |s| {
      assert Group(s, n) == s[8 * n ..];
      var all := done + [PackedByte(s, n)];
      assert |all| == |PackBits(s)|;
      assert forall k :: 0 <= k < |all| ==> all[k] == PackBits(s)[k];
    } else {
      assert |done| == |PackBits(s)|;
    }
  }

  method PackBitsToBytes(bitString: string) returns (compressedData: seq<Byte>, bitLength: nat)
    ensures bitLength == |bitString|
    ensures compressedData == PackBits(bitString)
  {
    compressedData := [];
    var currentByte: Byte := 0;
    var bitCount: nat := 0;
    bitLength := |bitString|;
    var i := 0;
    ghost var start := 0;
    while i < |bitString|
      invariant start == 8 * |compressedData| <= i <= |bitString|
      invariant bitCount == i - start < 8
      invariant currentByte == ShiftIn(bitString[start..i])
      invariant PackedSoFar(bitString, compressedData)
    {
      ShiftInStep(bitString, start, i, currentByte);
      // `currentByte <<= 1`, then `|= 1` sets the low bit, which the left shift cleared
      currentByte := ShiftLeft(currentByte, 1);
      if bitString[i] == '1' {
        currentByte := currentByte + 1;
      }
      bitCount := bitCount + 1;
      i := i + 1;
      if bitCount == 8 {
        PackGroup(bitString, compressedData, currentByte);
        compressedData := compressedData + [currentByte];
        currentByte := 0;
        bitCount := 0;
        start := i;
      }
    }
    assert bitString[start..i] == bitString[start..];
    PackFinish(bitString, compressedData, currentByte);
    if bitCount > 0 {
      currentByte := ShiftLeft(currentByte, 8 - bitCount);
      compressedData := compressedData + [currentByte];
    }
  }

  method UnpackBytesToBits(compressedData: seq<Byte>, bitLength: nat) returns (bitString: string)
    ensures bitString == UnpackBits(compressedData, bitLength)
  {
    var all: string := [];
    for k := 0 to |compressedData|
      invariant all == AllBits(compressedData[..k])
    {
      var byte := compressedData[k];
      var i := 7;
      while i >= 0
        invariant -1 <= i <= 7
        invariant all == AllBits(compressedData[..k]) + ByteBits(byte)[..7 - i]
      {
        all := all + [if BitSet(byte, i) then '1' else '0'];
        i := i - 1;
      }
      assert compressedData[..k + 1][..k] == compressedData[..k];
    }
    assert compressedData[..|compressedData|] == compressedData;
    bitString := if bitLength < |all| then all[..bitLength] else all;
  }
}

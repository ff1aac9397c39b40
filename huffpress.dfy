/**
 * `Huffpress::HuffpressFile`: a header (magic, version, frequency map, bit
 * length, payload size and two checksums) in front of the Huffman payload;
 * its in-place updates, and its byte layout written to and read from a buffer.
 */
module Huffpress {
  import opened Types
  import opened Wire
  import opened BitPack
  import opened HuffmanTree
  import Checksum
  import Huffman

  /** The magic of a fresh header: "HPF". */
  const Magic: seq<Char> := [72, 80, 70]

  /** `Huffpress::Version`. */
  const Version: seq<Byte> := [0, 1, 2]

  /** `HuffpressFile::_HuffpressFileHeader`; `size_t` fields are naturals. */
  datatype Header = Header(
    magic: seq<Char>,
    version: seq<Byte>,
    freqMap: FreqMap,
    bitLength: nat,
    size: nat,
    sourceChecksum: Uint64,
    compressedChecksum: Uint64)

  /** The default member initialisers of the header. */
  const FreshHeader: Header := Header(Magic, Version, map[], 0, 0, 0, 0)

  /** A `size_t` value: below 2^64. */
  predicate FitsWord(n: nat) {
    n < 0x1_0000_0000_0000_0000
  }

  // ---------------------------------------------------------------------------
  // Byte layout
  // ---------------------------------------------------------------------------

  /** The frequency entries for `keys`, in that order: the key's byte, then its count in 4 bytes. */
  function EntryBytes(m: FreqMap, keys: seq<Char>): (bs: seq<Byte>)
    requires forall i :: 0 <= i < |keys| ==> keys[i] in m
    ensures |bs| == 5 * |keys|
  {
    if keys == [] then []
    else
      var n := |keys| - 1;
      EntryBytes(m, keys[..n]) + ([CharToByte(keys[n])] + Int32Bytes(m[keys[n]]))
  }

  /** The entries of the whole map, in map order (ascending signed char). */
  function MapEntries(m: FreqMap): (bs: seq<Byte>)
    ensures |bs| == 5 * |m|
  {
    EntryBytes(m, SortedKeys(m))
  }

  /** Magic, version and the entry count: 14 bytes for a well-formed header. */
  function Prologue(h: Header): (bs: seq<Byte>)
    ensures |bs| == |h.magic| + |h.version| + 8
  {
    Unsigned(h.magic) + h.version + Word64(|h.freqMap|)
  }

  /** Bit length, size and both checksums: 32 bytes. */
  function Epilogue(h: Header): (bs: seq<Byte>)
    ensures |bs| == 32
  {
    Word64(h.bitLength) + Word64(h.size) + Word64(h.sourceChecksum) + Word64(h.compressedChecksum)
  }

  /**
   * What `SerializeToBuffer` leaves in the buffer: prologue, the entries in
   * map order (ascending signed char), epilogue, then the whole payload.
   */
  function Serialized(h: Header, byteVec: seq<Byte>): (bs: seq<Byte>)
    ensures |h.magic| == 3 && |h.version| == 3 ==> |bs| == 46 + 5 * |h.freqMap| + |byteVec|
  {
    Prologue(h) + (MapEntries(h.freqMap) + (Epilogue(h) + byteVec))
  }

  /** The entry count stored at bytes 6..14. */
  function EntryCount(buffer: seq<Byte>): nat
    requires |buffer| >= 14
  {
    WordAt(buffer, 6)
  }

  /** Where the bit length starts: after the prologue and the entries. */
  function TailStart(buffer: seq<Byte>): nat
    requires |buffer| >= 14
  {
    14 + 5 * EntryCount(buffer)
  }

  /** An 8-byte little-endian field read at `at`. */
  function WordAt(buffer: seq<Byte>, at: nat): (n: Uint64)
    requires at + 8 <= |buffer|
  {
    assert Pow256(8) == 0x1_0000_0000_0000_0000;
    FromLittleEndian(buffer[at..at + 8])
  }

  /**
   * Every read of `ParseFromBuffer` stays inside the buffer: the prologue,
   * the entries it announces, the epilogue and the payload size it announces.
   */
  predicate WellSized(buffer: seq<Byte>) {
    |buffer| >= 14 &&
    TailStart(buffer) + 32 <= |buffer| &&
    TailStart(buffer) + 32 + WordAt(buffer, TailStart(buffer) + 8) <= |buffer|
  }

  /** The key byte of entry `l`. */
  function KeyByte(bytes: seq<Byte>, l: nat): Byte
    requires 5 * l < |bytes|
  {
    bytes[5 * l]
  }

  /** Entries `0..k` read into an empty map in order: a repeated key takes the later count. */
  function DecodeEntries(bytes: seq<Byte>, k: nat): FreqMap
    requires 5 * k <= |bytes|
  {
    if k == 0 then map[]
    else
      var at := 5 * (k - 1);
      DecodeEntries(bytes, k - 1)[ByteToChar(bytes[at]) := Int32FromBytes(bytes[at + 1 .. at + 5])]
  }

  /** The header `ParseFromBuffer` reads; nothing in it is checked. */
  function ParsedHeader(buffer: seq<Byte>): Header
    requires WellSized(buffer)
  {
    var t := TailStart(buffer);
    Header(
      Reinterpret(buffer[..3]),
      buffer[3..6],
      DecodeEntries(buffer[14..], EntryCount(buffer)),
      WordAt(buffer, t),
      WordAt(buffer, t + 8),
      WordAt(buffer, t + 16),
      WordAt(buffer, t + 24))
  }

  /** The payload `ParseFromBuffer` reads: `size` bytes after the epilogue. */
  function ParsedPayload(buffer: seq<Byte>): seq<Byte>
    requires WellSized(buffer)
  {
    var t := TailStart(buffer);
    buffer[t + 32 .. t + 32 + WordAt(buffer, t + 8)]
  }

  // ---------------------------------------------------------------------------
  // The file
  // ---------------------------------------------------------------------------

  class HuffpressFile {
    var header: Header
    var byteVec: seq<Byte>

    /** The header's fixed-size arrays: three magic chars and three version bytes. */
    predicate Valid()
      reads this
    {
      |header.magic| == 3 && |header.version| == 3
    }

    /** `HuffpressFile() = default`: the default header and no payload. */
    constructor ()
      ensures Valid()
      ensures header == FreshHeader && byteVec == []
    {
      header := FreshHeader;
      byteVec := [];
    }

    /** `HuffpressFile(data)`: a default file, then `Init(data)`. */
    constructor FromData(data: seq<Char>)
      requires |data| > 0
      requires Huffman.FitsInt32(Huffman.Tally(map[], data))
      ensures Valid()
      ensures var counted := Huffman.Counted(map[], data);
        var bits := Huffman.Encode(Codes(counted), data);
        byteVec == PackBits(bits) &&
        header == FreshHeader.(freqMap := counted, bitLength := |bits|, size := |byteVec|,
          sourceChecksum := Checksum.Fnv1a(Unsigned(data)),
          compressedChecksum := Checksum.Fnv1a(byteVec))
      ensures |header.freqMap| >= 2 ==> Huffman.Decoded(header.freqMap, UnpackBits(byteVec, header.bitLength)) == data
    {
      header := FreshHeader;
      byteVec := [];
      new;
      Init(data);
    }

    /**
     * `Init(data)`: compress into `byteVec`, counting into the header's map
     * (which keeps what it held), and record bit length, size and both
     * checksums. With two or more keys the payload decompresses to `data`;
     * with one key it is empty.
     */
    method Init(data: seq<Char>)
      modifies this
      requires Valid()
      requires |header.freqMap| > 0 || |data| > 0
      requires Huffman.FitsInt32(Huffman.Tally(header.freqMap, data))
      ensures Valid()
      ensures var counted := Huffman.Counted(old(header.freqMap), data);
        var bits := Huffman.Encode(Codes(counted), data);
        byteVec == PackBits(bits) &&
        header == old(header).(freqMap := counted, bitLength := |bits|, size := |byteVec|,
          sourceChecksum := Checksum.Fnv1a(Unsigned(data)),
          compressedChecksum := Checksum.Fnv1a(byteVec))
      ensures |header.freqMap| >= 2 ==> Huffman.Decoded(header.freqMap, UnpackBits(byteVec, header.bitLength)) == data
      ensures |header.freqMap| == 1 ==> header.bitLength == 0 && byteVec == []
    {
      ghost var before := header.freqMap;
      var compressed, counted, bitLength := Huffman.Compress(data, header.freqMap);
      byteVec := compressed;
      header := header.(freqMap := counted, bitLength := bitLength);
      header := header.(size := |byteVec|);
      var source := Checksum.Checksum(data, |data|);
      header := header.(sourceChecksum := source);
      var packed := Checksum.Checksum(Reinterpret(byteVec), header.size);
      header := header.(compressedChecksum := packed);
      WholeViews(data, compressed);
      if |counted| >= 2 {
        Huffman.RoundTrip(data, before);
      } else {
        Huffman.OneSymbol(data, before);
      }
    }

    /** `Modify(data)`: the same body as `Init(data)`, so the same effect. */
    method Modify(data: seq<Char>)
      modifies this
      requires Valid()
      requires |header.freqMap| > 0 || |data| > 0
      requires Huffman.FitsInt32(Huffman.Tally(header.freqMap, data))
      ensures Valid()
      ensures var counted := Huffman.Counted(old(header.freqMap), data);
        var bits := Huffman.Encode(Codes(counted), data);
        byteVec == PackBits(bits) &&
        header == old(header).(freqMap := counted, bitLength := |bits|, size := |byteVec|,
          sourceChecksum := Checksum.Fnv1a(Unsigned(data)),
          compressedChecksum := Checksum.Fnv1a(byteVec))
      ensures |header.freqMap| >= 2 ==> Huffman.Decoded(header.freqMap, UnpackBits(byteVec, header.bitLength)) == data
      ensures |header.freqMap| == 1 ==> header.bitLength == 0 && byteVec == []
    {
      Init(data);
    }

    /**
     * `Modify(newByteVec, newFreqMap, bitLength)`: take the payload and the map
     * as given; the source checksum is that of the payload decompressed with
     * the given bit length, which is not stored: `header.bitLength` keeps its
     * old value.
     */
    method ModifyCompressed(newByteVec: seq<Byte>, newFreqMap: FreqMap, bitLength: nat)
      modifies this
      requires Valid()
      requires |newFreqMap| > 0
      requires |newFreqMap| >= 2 || bitLength == 0 || |newByteVec| == 0
      ensures Valid()
      ensures byteVec == newByteVec
      ensures header == old(header).(size := |newByteVec|, freqMap := newFreqMap,
        sourceChecksum := Checksum.Fnv1a(Unsigned(Huffman.Decoded(newFreqMap, UnpackBits(newByteVec, bitLength)))),
        compressedChecksum := Checksum.Fnv1a(newByteVec))
    {
      byteVec := newByteVec;
      header := header.(size := |byteVec|);
      header := header.(freqMap := newFreqMap);
      var decompressed := Huffman.Decompress(byteVec, header.freqMap, bitLength);
      var source := Checksum.Checksum(decompressed, |decompressed|);
      header := header.(sourceChecksum := source);
      var packed := Checksum.Checksum(Reinterpret(byteVec), header.size);
      header := header.(compressedChecksum := packed);
      WholeViews(decompressed, newByteVec);
    }

    /** `Decompress()`: the payload decoded with the header's map and bit length; nothing changes. */
    method Decompress() returns (data: seq<Char>)
      requires |header.freqMap| > 0
      requires |header.freqMap| >= 2 || header.bitLength == 0 || |byteVec| == 0
      ensures data == Huffman.Decoded(header.freqMap, UnpackBits(byteVec, header.bitLength))
    {
      data := Huffman.Decompress(byteVec, header.freqMap, header.bitLength);
    }

    /** `SerializeToBuffer(buffer)`: the buffer is cleared, then filled with the layout. */
    method SerializeToBuffer() returns (buffer: seq<Byte>)
      ensures buffer == Serialized(header, byteVec)
    {
      buffer := [];
      buffer := buffer + Unsigned(header.magic);
      buffer := buffer + header.version;
      var freqMapSize := |header.freqMap|;
      buffer := buffer + Word64(freqMapSize);
      var keys := SortedKeys(header.freqMap);
      for i := 0 to |keys|
        invariant buffer == Prologue(header) + EntryBytes(header.freqMap, keys[..i])
      {
        EntryStep(header.freqMap, keys, i, Prologue(header), buffer);
        buffer := buffer + [CharToByte(keys[i])];
        buffer := buffer + Int32Bytes(header.freqMap[keys[i]]);
      }
      assert keys[..|keys|] == keys;
      SerializedFields(header, byteVec);
      buffer := buffer + Word64(header.bitLength);
      buffer := buffer + Word64(header.size);
      buffer := buffer + Word64(header.sourceChecksum);
      buffer := buffer + Word64(header.compressedChecksum);
      buffer := buffer + byteVec;
    }

    /**
     * `ParseFromBuffer(buffer)`: read the layout back from offset 0, clearing
     * the map before the entries; the payload is resized to the size read.
     */
    method ParseFromBuffer(buffer: seq<Byte>)
      modifies this
      requires WellSized(buffer)
      ensures Valid()
      ensures header == ParsedHeader(buffer) && byteVec == ParsedPayload(buffer)
    {
      var offset: nat := 0;
      header := header.(magic := Reinterpret(buffer[offset .. offset + 3]));
      offset := offset + 3;
      header := header.(version := buffer[offset .. offset + 3]);
      offset := offset + 3;
      var freqMapSize := WordAt(buffer, offset);
      offset := offset + 8;
      offset := ParseEntries(buffer, offset, freqMapSize);
      header := header.(bitLength := WordAt(buffer, offset));
      offset := offset + 8;
      header := header.(size := WordAt(buffer, offset));
      offset := offset + 8;
      header := header.(sourceChecksum := WordAt(buffer, offset));
      offset := offset + 8;
      header := header.(compressedChecksum := WordAt(buffer, offset));
      offset := offset + 8;
      byteVec := buffer[offset .. offset + header.size];
    }

    /**
     * The entry loop of `ParseFromBuffer`: clear the map, then read `count`
     * entries from `offset` on, each overwriting the count of its key.
     */
    method ParseEntries(buffer: seq<Byte>, offset: nat, count: Uint64) returns (next: nat)
      modifies this
      requires WellSized(buffer) && offset == 14 && count == EntryCount(buffer)
      ensures next == TailStart(buffer)
      ensures header == old(header).(freqMap := DecodeEntries(buffer[14..], count))
      ensures byteVec == old(byteVec)
    {
      next := offset;
      header := header.(freqMap := map[]);
      for i := 0 to count
        invariant next == 14 + 5 * i
        invariant header == old(header).(freqMap := DecodeEntries(buffer[14..], i))
        invariant byteVec == old(byteVec)
      {
        ParseEntryStep(buffer, i, header.freqMap);
        var key := ByteToChar(buffer[next]);
        next := next + 1;
        var value := Int32FromBytes(buffer[next .. next + 4]);
        next := next + 4;
        header := header.(freqMap := header.freqMap[key := value]);
      }
    }
  }

  /** One step of the entry loop of `SerializeToBuffer`. */
  lemma EntryStep(m: FreqMap, keys: seq<Char>, i: nat, prefix: seq<Byte>, buffer: seq<Byte>)
    requires i < |keys| && forall j :: 0 <= j < |keys| ==> keys[j] in m
    requires buffer == prefix + EntryBytes(m, keys[..i])
    ensures buffer + [CharToByte(keys[i])] + Int32Bytes(m[keys[i]]) == prefix + EntryBytes(m, keys[..i + 1])
  {
    assert keys[..i + 1][..i] == keys[..i];
  }

  /** Checksumming all of a text, or all of a payload seen as chars, covers exactly its bytes. */
  lemma WholeViews(data: seq<Char>, bs: seq<Byte>)
    ensures data[..|data|] == data
    ensures Unsigned(Reinterpret(bs)[..|bs|]) == bs
  {
    assert Reinterpret(bs)[..|bs|] == Reinterpret(bs);
  }

  /** The layout field by field, in the order `SerializeToBuffer` appends them. */
  lemma SerializedFields(h: Header, byteVec: seq<Byte>)
    ensures Serialized(h, byteVec) ==
      Prologue(h) + MapEntries(h.freqMap) + Word64(h.bitLength) + Word64(h.size) +
      Word64(h.sourceChecksum) + Word64(h.compressedChecksum) + byteVec
  {
    Regroup(Prologue(h), MapEntries(h.freqMap), Word64(h.bitLength), Word64(h.size),
      Word64(h.sourceChecksum), Word64(h.compressedChecksum), byteVec);
  }

  /** Appending the four words and the payload one by one, regrouped from the right. */
  lemma Regroup(p: seq<Byte>, e: seq<Byte>, w0: seq<Byte>, w1: seq<Byte>, w2: seq<Byte>, w3: seq<Byte>, r: seq<Byte>)
    ensures p + e + w0 + w1 + w2 + w3 + r == p + (e + ((w0 + w1 + w2 + w3) + r))
  {
  }

  /** One step of the entry loop of `ParseFromBuffer`. */
  lemma ParseEntryStep(buffer: seq<Byte>, i: nat, m: FreqMap)
    requires WellSized(buffer) && i < EntryCount(buffer) && m == DecodeEntries(buffer[14..], i)
    ensures var at := 14 + 5 * i;
      m[ByteToChar(buffer[at]) := Int32FromBytes(buffer[at + 1 .. at + 5])] == DecodeEntries(buffer[14..], i + 1)
  {
    var bytes := buffer[14..];
    var at := 14 + 5 * i;
    assert bytes[5 * i] == buffer[at];
    assert bytes[5 * i + 1 .. 5 * i + 5] == buffer[at + 1 .. at + 5];
  }

  // ---------------------------------------------------------------------------
  // Round trip
  // ---------------------------------------------------------------------------

  /** A strictly increasing run of chars has at most 256 elements. */
  lemma {:induction false} IncreasingFrom(s: seq<Char>, i: nat)
    requires forall a, b :: 0 <= a < b < |s| ==> s[a] < s[b]
    requires i < |s|
    ensures s[i] >= -128 + i
  {
    if i > 0 {
      IncreasingFrom(s, i - 1);
    }
  }

  /** A frequency map has at most 256 keys, so its size fits the 8-byte count. */
  lemma MapSizeBound(m: FreqMap)
    ensures |m| <= 256
  {
    var keys := SortedKeys(m);
    SortedKeysIncrease(m);
    if |keys| > 0 {
      IncreasingFrom(keys, |keys| - 1);
    }
  }

  /**
   * Reading back the entries written for `keys` gives, for every key, its
   * count in `m`, and no other key.
   */
  lemma {:induction false} EntriesRoundTrip(m: FreqMap, keys: seq<Char>, rest: seq<Byte>)
    requires forall i :: 0 <= i < |keys| ==> keys[i] in m
    ensures forall c :: c in DecodeEntries(EntryBytes(m, keys) + rest, |keys|) <==> c in keys
    ensures forall c :: c in DecodeEntries(EntryBytes(m, keys) + rest, |keys|) ==>
      DecodeEntries(EntryBytes(m, keys) + rest, |keys|)[c] == m[c]
  {
    if keys != [] {
      var n := |keys| - 1;
      var entry := [CharToByte(keys[n])] + Int32Bytes(m[keys[n]]);
      LastEntry(m, keys, rest);
      EntriesRoundTrip(m, keys[..n], entry + rest);
      assert forall c :: c in keys <==> c in keys[..n] || c == keys[n];
    }
  }

  /** Reading the last of the entries written for `keys` adds its key with its count. */
  lemma LastEntry(m: FreqMap, keys: seq<Char>, rest: seq<Byte>)
    requires keys != [] && forall i :: 0 <= i < |keys| ==> keys[i] in m
    ensures var n := |keys| - 1;
      var bytes := EntryBytes(m, keys) + rest;
      var entry := [CharToByte(keys[n])] + Int32Bytes(m[keys[n]]);
      bytes == EntryBytes(m, keys[..n]) + (entry + rest) &&
      DecodeEntries(bytes, |keys|) == DecodeEntries(bytes, n)[keys[n] := m[keys[n]]]
  {
    var n := |keys| - 1;
    var key, count := CharToByte(keys[n]), Int32Bytes(m[keys[n]]);
    var entry := [key] + count;
    var pre := EntryBytes(m, keys[..n]);
    assert EntryBytes(m, keys) == pre + entry;
    var bytes := EntryBytes(m, keys) + rest;
    assert bytes == pre + (entry + rest);
    DecodeNext(bytes, n, pre, entry, rest);
    EntryParts(key, count);
    CharByteRoundTrip(keys[n]);
  }

  /** The entry after `n` whole entries is the next one read. */
  lemma DecodeNext(bytes: seq<Byte>, n: nat, pre: seq<Byte>, entry: seq<Byte>, rest: seq<Byte>)
    requires |pre| == 5 * n && |entry| == 5 && bytes == pre + (entry + rest)
    ensures 5 * (n + 1) <= |bytes|
    ensures DecodeEntries(bytes, n + 1) ==
      DecodeEntries(bytes, n)[ByteToChar(entry[0]) := Int32FromBytes(entry[1..5])]
  {
    Behind(pre, entry + rest, 0, 5);
    InFront(entry, rest, 0, 5);
    assert bytes[5 * n .. 5 * n + 5] == entry;
    assert bytes[5 * n + 1 .. 5 * n + 5] == entry[1..5];
  }

  /** An entry's first byte is its key and the other four its count. */
  lemma EntryParts(key: Byte, count: seq<Byte>)
    requires |count| == 4
    ensures ([key] + count)[0] == key && ([key] + count)[1..5] == count
  {
  }

  /**
   * Among repeated keys the last entry's count is the one kept: the parser
   * checks nothing and overwrites.
   */
  lemma {:induction false} DecodeEntriesLastWins(bytes: seq<Byte>, k: nat, j: nat)
    requires 5 * k <= |bytes| && j < k
    requires forall l :: j < l < k ==> KeyByte(bytes, l) != KeyByte(bytes, j)
    ensures ByteToChar(bytes[5 * j]) in DecodeEntries(bytes, k)
    ensures DecodeEntries(bytes, k)[ByteToChar(bytes[5 * j])] == Int32FromBytes(bytes[5 * j + 1 .. 5 * j + 5])
  {
    if j < k - 1 {
      DecodeEntriesLastWins(bytes, k - 1, j);
      var at := 5 * (k - 1);
      assert KeyByte(bytes, k - 1) != KeyByte(bytes, j);
      assert ByteToChar(bytes[at]) != ByteToChar(bytes[5 * j]);
    }
  }

  /** Where the prologue's fields sit in a buffer that starts with it. */
  lemma PrologueFields(h: Header, rest: seq<Byte>)
    requires |h.magic| == 3 && |h.version| == 3
    ensures var b := Prologue(h) + rest;
      |b| == 14 + |rest| && b[..3] == Unsigned(h.magic) && b[3..6] == h.version &&
      b[6..14] == Word64(|h.freqMap|) && b[14..] == rest
  {
    var b := Prologue(h) + rest;
    assert b == Unsigned(h.magic) + (h.version + (Word64(|h.freqMap|) + rest));
  }

  /** The four words of the epilogue, 8 bytes each. */
  lemma EpilogueWindows(h: Header)
    ensures var e := Epilogue(h);
      e[0..8] == Word64(h.bitLength) && e[8..16] == Word64(h.size) &&
      e[16..24] == Word64(h.sourceChecksum) && e[24..32] == Word64(h.compressedChecksum)
  {
    var w0, w1, w2, w3 := Word64(h.bitLength), Word64(h.size), Word64(h.sourceChecksum), Word64(h.compressedChecksum);
    InFront(w0 + w1, w2, 8, 8);
    InFront(w0 + w1 + w2, w3, 8, 8);
    InFront(w0, w1, 0, 8);
    InFront(w0 + w1, w2, 0, 8);
    InFront(w0 + w1 + w2, w3, 0, 8);
    Behind(w0, w1, 0, 8);
    Behind(w0 + w1, w2, 0, 8);
    Behind(w0 + w1 + w2, w3, 0, 8);
  }

  /** A window of the third part of `p + (e + (ep + r))`, read in the whole at `at`. */
  lemma ThirdPart(p: seq<Byte>, e: seq<Byte>, ep: seq<Byte>, r: seq<Byte>, j: nat, n: nat, at: nat)
    requires j + n <= |ep| && at == |p| + |e| + j
    ensures (p + (e + (ep + r)))[at .. at + n] == ep[j .. j + n]
  {
    Behind(p, e + (ep + r), |e| + j, n);
    Behind(e, ep + r, j, n);
    InFront(ep, r, j, n);
  }

  /** A window inside `y` reads the same in `y + r`. */
  lemma InFront(y: seq<Byte>, r: seq<Byte>, k: nat, n: nat)
    requires k + n <= |y|
    ensures (y + r)[k .. k + n] == y[k .. k + n]
  {
  }

  /** A window inside `y` reads the same in `a + y`, shifted by `|a|`. */
  lemma Behind(a: seq<Byte>, y: seq<Byte>, k: nat, n: nat)
    requires k + n <= |y|
    ensures (a + y)[|a| + k .. |a| + k + n] == y[k .. k + n]
  {
  }

  /** The magic and the version read back from a serialized buffer. */
  lemma SerializedMagic(h: Header, byteVec: seq<Byte>)
    requires |h.magic| == 3 && |h.version| == 3
    ensures var b := Serialized(h, byteVec);
      |b| >= 14 && Reinterpret(b[..3]) == h.magic && b[3..6] == h.version
  {
    PrologueFields(h, MapEntries(h.freqMap) + (Epilogue(h) + byteVec));
    ReinterpretUnsigned(h.magic);
  }

  /** The entry count read back from a serialized buffer. */
  lemma SerializedCount(h: Header, byteVec: seq<Byte>)
    requires |h.magic| == 3 && |h.version| == 3
    ensures |Serialized(h, byteVec)| >= 14 && EntryCount(Serialized(h, byteVec)) == |h.freqMap|
  {
    MapSizeBound(h.freqMap);
    PrologueFields(h, MapEntries(h.freqMap) + (Epilogue(h) + byteVec));
    ReadWord(Serialized(h, byteVec), 6, |h.freqMap|);
  }

  /** The epilogue's words read back from a serialized buffer, and the payload after them. */
  lemma SerializedWords(h: Header, byteVec: seq<Byte>)
    requires |h.magic| == 3 && |h.version| == 3
    requires FitsWord(h.size) && FitsWord(h.bitLength)
    ensures var t := 14 + 5 * |h.freqMap|; var b := Serialized(h, byteVec);
      t + 32 <= |b| && WordAt(b, t) == h.bitLength && WordAt(b, t + 8) == h.size &&
      WordAt(b, t + 16) == h.sourceChecksum && WordAt(b, t + 24) == h.compressedChecksum &&
      b[t + 32 ..] == byteVec
  {
    EpilogueReads(h);
    ThirdWords(Prologue(h), MapEntries(h.freqMap), Epilogue(h), byteVec,
      14 + 5 * |h.freqMap|, Serialized(h, byteVec));
  }

  /** The epilogue's four words read back from the epilogue alone. */
  lemma EpilogueReads(h: Header)
    requires FitsWord(h.size) && FitsWord(h.bitLength)
    ensures var ep := Epilogue(h);
      WordAt(ep, 0) == h.bitLength && WordAt(ep, 8) == h.size &&
      WordAt(ep, 16) == h.sourceChecksum && WordAt(ep, 24) == h.compressedChecksum
  {
    var ep := Epilogue(h);
    EpilogueWindows(h);
    ReadWord(ep, 0, h.bitLength);
    ReadWord(ep, 8, h.size);
    ReadWord(ep, 16, h.sourceChecksum);
    ReadWord(ep, 24, h.compressedChecksum);
  }

  /** The four words of a 32-byte third part read the same in `p + (e + (ep + r))`, and `r` follows them. */
  lemma ThirdWords(p: seq<Byte>, e: seq<Byte>, ep: seq<Byte>, r: seq<Byte>, t: nat, b: seq<Byte>)
    requires |ep| == 32 && t == |p| + |e| && b == p + (e + (ep + r))
    ensures t + 32 <= |b|
    ensures WordAt(b, t) == WordAt(ep, 0) && WordAt(b, t + 8) == WordAt(ep, 8)
    ensures WordAt(b, t + 16) == WordAt(ep, 16) && WordAt(b, t + 24) == WordAt(ep, 24)
    ensures b[t + 32 ..] == r
  {
    ThirdPart(p, e, ep, r, 0, 8, t);
    SameWord(b, t, ep, 0);
    ThirdPart(p, e, ep, r, 8, 8, t + 8);
    SameWord(b, t + 8, ep, 8);
    ThirdPart(p, e, ep, r, 16, 8, t + 16);
    SameWord(b, t + 16, ep, 16);
    ThirdPart(p, e, ep, r, 24, 8, t + 24);
    SameWord(b, t + 24, ep, 24);
    Behind(p, e + (ep + r), |e| + 32, |r|);
    Behind(e, ep + r, 32, |r|);
  }

  /** Two buffers with the same 8 bytes at two offsets read the same word there. */
  lemma SameWord(b: seq<Byte>, at: nat, c: seq<Byte>, at2: nat)
    requires at + 8 <= |b| && at2 + 8 <= |c| && b[at .. at + 8] == c[at2 .. at2 + 8]
    ensures WordAt(b, at) == WordAt(c, at2)
  {
  }

  /** A word written with `Word64` reads back with `WordAt`. */
  lemma ReadWord(b: seq<Byte>, at: nat, n: nat)
    requires at + 8 <= |b| && FitsWord(n) && b[at .. at + 8] == Word64(n)
    ensures WordAt(b, at) == n
  {
    assert Pow256(8) == 0x1_0000_0000_0000_0000;
  }

  /** The entries read back from a serialized buffer are the map. */
  lemma SerializedEntries(h: Header, byteVec: seq<Byte>)
    requires |h.magic| == 3 && |h.version| == 3
    ensures var b := Serialized(h, byteVec);
      14 + 5 * |h.freqMap| <= |b| && DecodeEntries(b[14..], |h.freqMap|) == h.freqMap
  {
    var rest := Epilogue(h) + byteVec;
    PrologueFields(h, MapEntries(h.freqMap) + rest);
    MapRoundTrip(h.freqMap, rest);
  }

  /** Reading back the entries of a whole map, in map order, gives the map. */
  lemma MapRoundTrip(m: FreqMap, rest: seq<Byte>)
    ensures 5 * |m| <= |MapEntries(m) + rest|
    ensures DecodeEntries(MapEntries(m) + rest, |m|) == m
  {
    var keys := SortedKeys(m);
    EntriesRoundTrip(m, keys, rest);
    var parsed := DecodeEntries(EntryBytes(m, keys) + rest, |keys|);
    assert parsed.Keys == m.Keys;
  }

  /**
   * Round trip of the buffer layout: parsing what `SerializeToBuffer` wrote
   * gives back every header field and the payload, provided the size field
   * is the payload's length and the `size_t` fields fit 8 bytes.
   */
  lemma ParseSerialized(h: Header, byteVec: seq<Byte>)
    requires |h.magic| == 3 && |h.version| == 3
    requires h.size == |byteVec| && FitsWord(h.size) && FitsWord(h.bitLength)
    ensures WellSized(Serialized(h, byteVec))
    ensures ParsedHeader(Serialized(h, byteVec)) == h
    ensures ParsedPayload(Serialized(h, byteVec)) == byteVec
  {
    SerializedMagic(h, byteVec);
    SerializedCount(h, byteVec);
    SerializedEntries(h, byteVec);
    SerializedWords(h, byteVec);
  }
}

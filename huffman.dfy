/**
 * `Huffman::Compress` and `Huffman::Decompress`: count the text into the
 * caller's frequency map, build the tree, replace every char by its code and
 * pack the bits; and the way back, walking the tree bit by bit.
 */
module Huffman {
  import opened Types
  import opened HuffmanTree
  import opened BitPack

  // ---------------------------------------------------------------------------
  // Counting
  // ---------------------------------------------------------------------------

  /** How often `c` occurs in `text`. */
  function Occurrences(text: seq<Char>, c: Char): (n: nat)
    ensures n <= |text|
    ensures n > 0 <==> c in text
  {
    if text == [] then 0
    else
      var prefix := text[..|text| - 1];
      assert forall d :: d in text <==> d in prefix || d == text[|text| - 1];
      Occurrences(prefix, c) + (if text[|text| - 1] == c then 1 else 0)
  }

  /**
   * The map after `freqMap[ch]++` for every char of `text`, in order: a char
   * not yet in the map is inserted with 0 first. The counts are added to what
   * the map already held; nothing is reset.
   */
  function Tally(m: map<Char, int>, text: seq<Char>): map<Char, int> {
    if text == [] then m
    else
      var prev := Tally(m, text[..|text| - 1]);
      var ch := text[|text| - 1];
      prev[ch := (if ch in prev then prev[ch] else 0) + 1]
  }

  /**
   * Counting adds: the keys are the old keys and the text's chars, and each
   * count is the old count (0 for a new key) plus the char's occurrences.
   */
  lemma {:induction false} TallyAdds(m: map<Char, int>, text: seq<Char>)
    ensures forall c :: c in Tally(m, text) <==> c in m || c in text
    ensures forall c :: c in Tally(m, text) ==>
      Tally(m, text)[c] == (if c in m then m[c] else 0) + Occurrences(text, c)
  {
    if text != [] {
      var prefix := text[..|text| - 1];
      assert forall d :: d in text <==> d in prefix || d == text[|text| - 1];
      TallyAdds(m, prefix);
    }
  }

  /** Every count fits the map's `std::int32_t` values. */
  predicate FitsInt32(m: map<Char, int>) {
    forall c :: c in m ==> IsInt32(m[c])
  }

  /** The counted map as a `FreqMap`, for counts that fit. */
  function Counted(m: FreqMap, text: seq<Char>): FreqMap
    requires FitsInt32(Tally(m, text))
  {
    Tally(m, text)
  }

  /** A prefix of the text holds no more occurrences than the text. */
  lemma {:induction false} OccurrencesPrefix(text: seq<Char>, k: nat, c: Char)
    requires k <= |text|
    ensures Occurrences(text[..k], c) <= Occurrences(text, c)
    decreases |text|
  {
    if k < |text| {
      var prefix := text[..|text| - 1];
      assert text[..k] == prefix[..k];
      OccurrencesPrefix(prefix, k, c);
    } else {
      assert text[..k] == text;
    }
  }

  // ---------------------------------------------------------------------------
  // Encoding
  // ---------------------------------------------------------------------------

  /** `huffmanCode[ch]`: `operator[]` yields the empty string for a missing key. */
  function CodeOf(codes: map<Char, string>, c: Char): string {
    if c in codes then codes[c] else ""
  }

  /** The codes of the chars of `text`, concatenated in order. */
  function Encode(codes: map<Char, string>, text: seq<Char>): string {
    if text == [] then [] else CodeOf(codes, text[0]) + Encode(codes, text[1..])
  }

  /** Encoding is a homomorphism from concatenation to concatenation. */
  lemma {:induction false} EncodeAppend(codes: map<Char, string>, a: seq<Char>, b: seq<Char>)
    ensures Encode(codes, a + b) == Encode(codes, a) + Encode(codes, b)
  {
    if a != [] {
      assert (a + b)[0] == a[0];
      assert (a + b)[1..] == a[1..] + b;
      EncodeAppend(codes, a[1..], b);
    } else {
      assert a + b == b;
    }
  }

  /**
   * `huffmanCode[ch]` inserts "" for a char without a code, so such a char
   * adds no bits wherever it stands in the text.
   */
  lemma EncodeSkipsUncoded(codes: map<Char, string>, a: seq<Char>, c: Char, b: seq<Char>)
    requires c !in codes
    ensures Encode(codes, a + [c] + b) == Encode(codes, a + b)
  {
    EncodeAppend(codes, a + [c], b);
    EncodeAppend(codes, a, [c]);
    EncodeAppend(codes, a, b);
    assert Encode(codes, [c]) == [];
  }

  /** When every char of the text has a non-empty code, each adds at least one bit. */
  lemma {:induction false} EncodeAtLeastOneBit(codes: map<Char, string>, text: seq<Char>)
    requires forall i :: 0 <= i < |text| ==> CodeOf(codes, text[i]) != ""
    ensures |text| <= |Encode(codes, text)|
  {
    if text != [] {
      assert forall i :: 0 <= i < |text| - 1 ==> text[1..][i] == text[i + 1];
      EncodeAtLeastOneBit(codes, text[1..]);
    }
  }

  /** The encoding of a text whose chars all have codes of '0'/'1' is itself '0'/'1'. */
  lemma {:induction false} EncodeIsBits(codes: map<Char, string>, text: seq<Char>)
    requires forall i :: 0 <= i < |text| ==> IsBits(CodeOf(codes, text[i]))
    ensures IsBits(Encode(codes, text))
  {
    if text != [] {
      assert forall i :: 0 <= i < |text| - 1 ==> text[1..][i] == text[i + 1];
      EncodeIsBits(codes, text[1..]);
      var head := CodeOf(codes, text[0]);
      var tail := Encode(codes, text[1..]);
      assert IsBits(head);
      assert forall i :: 0 <= i < |head + tail| ==>
        (head + tail)[i] == if i < |head| then head[i] else tail[i - |head|];
    }
  }

  /**
   * A count part-way through the text lies between the map's starting count
   * (0 for a new key) and the final count.
   */
  lemma TallyPrefixBound(m: map<Char, int>, text: seq<Char>, j: nat, c: Char)
    requires j <= |text| && c in Tally(m, text[..j])
    ensures c in Tally(m, text)
    ensures (if c in m then m[c] else 0) <= Tally(m, text[..j])[c] <= Tally(m, text)[c]
  {
    OccurrencesPrefix(text, j, c);
    TallyAdds(m, text);
    TallyAdds(m, text[..j]);
    assert c in m || c in text[..j];
    assert c in text[..j] ==> c in text;
  }

  /** One step of the counting loop of `Compress`; the new count stays within 32 bits. */
  lemma TallyStep(freqMap: FreqMap, text: seq<Char>, k: nat, counted: map<Char, int>)
    requires k < |text| && counted == Tally(freqMap, text[..k])
    requires FitsInt32(Tally(freqMap, text))
    ensures var ch := text[k];
      var n := (if ch in counted then counted[ch] else 0) + 1;
      IsInt32(n) && counted[ch := n] == Tally(freqMap, text[..k + 1])
  {
    var ch := text[k];
    assert text[..k + 1][..k] == text[..k];
    var next := Tally(freqMap, text[..k + 1]);
    assert ch in next;
    TallyPrefixBound(freqMap, text, k + 1, ch);
  }

  /** One step of the encoding loop of `Compress`. */
  lemma EncodeStep(codes: map<Char, string>, text: seq<Char>, k: nat, bits: string)
    requires k < |text| && bits == Encode(codes, text[..k])
    ensures bits + CodeOf(codes, text[k]) == Encode(codes, text[..k + 1])
  {
    assert text[..k + 1] == text[..k] + [text[k]];
    EncodeAppend(codes, text[..k], [text[k]]);
  }

  /**
   * `Compress(text, freqMap, bitLength)`. The caller's map comes back with the
   * text's counts added (`counted`); the payload is the packing of the codes of
   * the text's chars, in order, under the tree of that map.
   */
  method Compress(text: seq<Char>, freqMap: FreqMap) returns (compressed: seq<Byte>, counted: FreqMap, bitLength: nat)
    requires |freqMap| > 0 || |text| > 0
    requires FitsInt32(Tally(freqMap, text))
    ensures counted == Tally(freqMap, text)
    ensures |counted| > 0
    ensures bitLength == |Encode(Codes(counted), text)|
    ensures compressed == PackBits(Encode(Codes(counted), text))
  {
    counted := freqMap;
    for k := 0 to |text|
      invariant counted == Tally(freqMap, text[..k])
    {
      var ch := text[k];
      TallyStep(freqMap, text, k, counted);
      counted := counted[ch := (if ch in counted then counted[ch] else 0) + 1];
    }
    assert text[..|text|] == text;
    if |freqMap| == 0 {
      TallyAdds(freqMap, text);
      assert text[0] in counted;
    }

    var root := BuildHuffmanTree(counted);
    var huffmanCode := GenerateCodes(root, "", map[]);

    var bitString: string := "";
    for k := 0 to |text|
      invariant bitString == Encode(huffmanCode, text[..k])
    {
      EncodeStep(huffmanCode, text, k, bitString);
      bitString := bitString + CodeOf(huffmanCode, text[k]);
    }
    assert text[..|text|] == text;

    compressed, bitLength := PackBitsToBytes(bitString);
  }

  // ---------------------------------------------------------------------------
  // Decoding
  // ---------------------------------------------------------------------------

  /**
   * The chars `Decompress` emits for `bits` when its walk stands at `cur`:
   * each bit steps to a child ('0' left, anything else right); reaching a leaf
   * emits its char and returns to the root. Walking needs inner nodes.
   */
  function DecodeFrom(root: Tree, cur: Tree, bits: string): (r: seq<Char>)
    requires bits == [] || (root.Node? && cur.Node?)
    ensures |r| <= |bits|
    decreases |bits|
  {
    if bits == [] then []
    else
      var next := if bits[0] == '0' then cur.left else cur.right;
      if next.Leaf? then [next.sym] + DecodeFrom(root, root, bits[1..])
      else DecodeFrom(root, next, bits[1..])
  }

  /** What `Decompress` emits for `bits` under the tree of `m`, starting at the root. */
  function Decoded(m: FreqMap, bits: string): seq<Char>
    requires |m| >= 2 || (|m| == 1 && bits == [])
  {
    BuildTreeShape(m);
    DecodeFrom(BuildTree(m), BuildTree(m), bits)
  }

  /**
   * `Decompress(compressed, freqMap, bitLength)`: the tree of the map, walked
   * along the first `bitLength` unpacked bits. With a one-leaf tree there is
   * no child to step to, so the bits must be empty.
   */
  method Decompress(compressed: seq<Byte>, freqMap: FreqMap, bitLength: nat) returns (result: seq<Char>)
    requires |freqMap| > 0
    requires |freqMap| >= 2 || bitLength == 0 || |compressed| == 0
    ensures result == Decoded(freqMap, UnpackBits(compressed, bitLength))
  {
    var root := BuildHuffmanTree(freqMap);
    BuildTreeShape(freqMap);
    var bitString := UnpackBytesToBits(compressed, bitLength);
    var current := root;
    result := [];
    for k := 0 to |bitString|
      invariant |bitString| > 0 ==> root.Node? && current.Node?
      invariant result + DecodeFrom(root, current, bitString[k..]) == DecodeFrom(root, root, bitString)
    {
      DecodeStep(root, current, bitString, k, result);
      current := if bitString[k] == '0' then current.left else current.right;
      if current.Leaf? {
        result := result + [current.sym];
        current := root;
      }
    }
  }

  /** One step of the loop of `Decompress`: the walk moves on and the emitted chars keep up. */
  lemma DecodeStep(root: Tree, cur: Tree, bits: string, k: nat, result: seq<Char>)
    requires k < |bits| && root.Node? && cur.Node?
    ensures var next := if bits[k] == '0' then cur.left else cur.right;
      var after := if next.Leaf? then root else next;
      var emitted := if next.Leaf? then result + [next.sym] else result;
      after.Node? && emitted + DecodeFrom(root, after, bits[k + 1..]) == result + DecodeFrom(root, cur, bits[k..])
  {
    assert bits[k..][0] == bits[k] && bits[k..][1..] == bits[k + 1..];
  }

  /** Walking a path that reaches leaf `s` emits `s` and nothing else, then goes on from the root. */
  lemma {:induction false} DecodeAlongPath(root: Tree, cur: Tree, path: string, s: Char, rest: string)
    requires root.Node? && cur.Node? && Reaches(cur, path, s)
    ensures DecodeFrom(root, cur, path + rest) == [s] + DecodeFrom(root, root, rest)
    decreases |path|
  {
    var bits := path + rest;
    assert bits[0] == path[0] && bits[1..] == path[1..] + rest;
    var next := if path[0] == '0' then cur.left else cur.right;
    if next.Leaf? {
      assert path[1..] == [];
      assert bits[1..] == rest;
    } else {
      DecodeAlongPath(root, next, path[1..], s, rest);
    }
  }

  /** Decoding undoes encoding under any code table whose codes are the paths to their leaves. */
  lemma {:induction false} DecodeEncoded(root: Tree, codes: map<Char, string>, text: seq<Char>, rest: string)
    requires root.Node?
    requires forall i :: 0 <= i < |text| ==> text[i] in codes && Reaches(root, codes[text[i]], text[i])
    ensures DecodeFrom(root, root, Encode(codes, text) + rest) == text + DecodeFrom(root, root, rest)
  {
    if text == [] {
      assert Encode(codes, text) + rest == rest;
    } else {
      var c := text[0];
      var tail := text[1..];
      assert forall i :: 0 <= i < |tail| ==> tail[i] == text[i + 1];
      DecodeEncoded(root, codes, tail, rest);
      assert c in codes && Reaches(root, codes[c], c);
      DecodeHead(root, codes, c, tail, rest);
      assert [c] + tail == text;
    }
  }

  /** The first char of a text decodes from its code, and decoding goes on with the rest. */
  lemma DecodeHead(root: Tree, codes: map<Char, string>, c: Char, tail: seq<Char>, rest: string)
    requires root.Node? && c in codes && Reaches(root, codes[c], c)
    ensures DecodeFrom(root, root, Encode(codes, [c] + tail) + rest) ==
      [c] + DecodeFrom(root, root, Encode(codes, tail) + rest)
  {
    var bits := Encode(codes, tail) + rest;
    assert ([c] + tail)[1..] == tail;
    assert Encode(codes, [c] + tail) + rest == codes[c] + bits;
    DecodeAlongPath(root, root, codes[c], c, bits);
  }

  /**
   * Trailing bits that stop short of a leaf emit nothing: `Decompress` drops
   * them without complaint.
   */
  lemma {:induction false} DecodePartial(root: Tree, cur: Tree, p: string, q: string, s: Char)
    requires root.Node? && cur.Node? && Reaches(cur, p + q, s) && |q| > 0
    ensures DecodeFrom(root, cur, p) == []
    decreases |p|
  {
    if p != [] {
      var bits := p + q;
      assert bits[0] == p[0] && bits[1..] == p[1..] + q;
      var next := if p[0] == '0' then cur.left else cur.right;
      DecodePartial(root, next, p[1..], q, s);
    }
  }

  /**
   * Under the tree of a map with two or more keys, the encoding of a text
   * over those keys is made of '0'/'1' and decodes to the text.
   */
  lemma DecodeEncodedText(m: FreqMap, text: seq<Char>)
    requires |m| >= 2
    requires forall i :: 0 <= i < |text| ==> text[i] in m
    ensures IsBits(Encode(Codes(m), text))
    ensures Decoded(m, Encode(Codes(m), text)) == text
  {
    var codes := Codes(m);
    var root := BuildTree(m);
    CodesArePaths(m);
    BuildTreeShape(m);
    EncodeIsBits(codes, text);
    var bits := Encode(codes, text);
    DecodeEncoded(root, codes, text, []);
    assert bits + [] == bits;
  }

  /**
   * Round trip: when the map after counting has two or more entries,
   * decompressing what `Compress` produced gives the text back.
   */
  lemma RoundTrip(text: seq<Char>, freqMap: FreqMap)
    requires FitsInt32(Tally(freqMap, text)) && |Tally(freqMap, text)| >= 2
    ensures var bits := Encode(Codes(Counted(freqMap, text)), text);
      Decoded(Counted(freqMap, text), UnpackBits(PackBits(bits), |bits|)) == text
  {
    var counted := Counted(freqMap, text);
    TallyAdds(freqMap, text);
    assert forall i :: 0 <= i < |text| ==> text[i] in text;
    DecodeEncodedText(counted, text);
    UnpackPackRoundTrip(Encode(Codes(counted), text));
  }

  /**
   * A map with a single entry after counting: the root is a leaf whose code
   * is empty, so the text compresses to no bits and no bytes, and
   * decompresses to the empty text, whatever its length.
   */
  lemma OneSymbol(text: seq<Char>, freqMap: FreqMap)
    requires FitsInt32(Tally(freqMap, text)) && |Tally(freqMap, text)| == 1
    ensures var bits := Encode(Codes(Counted(freqMap, text)), text);
      bits == [] && PackBits(bits) == [] &&
      Decoded(Counted(freqMap, text), UnpackBits(PackBits(bits), |bits|)) == []
  {
    var counted := Counted(freqMap, text);
    CodesArePaths(counted);
    EncodeEmptyCodes(Codes(counted), text);
  }

  /** Codes that are all empty encode every text to no bits. */
  lemma {:induction false} EncodeEmptyCodes(codes: map<Char, string>, text: seq<Char>)
    requires forall c :: c in codes ==> codes[c] == ""
    ensures Encode(codes, text) == []
  {
    if text != [] {
      EncodeEmptyCodes(codes, text[1..]);
    }
  }

  /** `Compress` followed by `Decompress` with the map it filled gives the text back. */
  method CompressDecompress(text: seq<Char>, freqMap: FreqMap) returns (restored: seq<Char>)
    requires FitsInt32(Tally(freqMap, text)) && |Tally(freqMap, text)| >= 2
    ensures restored == text
  {
    var compressed, counted, bitLength := Compress(text, freqMap);
    restored := Decompress(compressed, counted, bitLength);
    RoundTrip(text, freqMap);
  }
}

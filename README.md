# huffpress in Dafny

A model of the core of huffpress, a small C++ library and command-line tool
that compresses text with a static Huffman code and stores it in a container
format with FNV-1a checksums. The model covers:

- **the Huffman codec** (`Huffman::Compress`, `Huffman::Decompress` and the
  helpers in `Huffman::Methods`). Counting adds into the caller's
  `std::map<char, int32_t>`. `BuildHuffmanTree` pops two nodes and pushes
  their parent until one node is left. `GenerateCodes` maps each leaf to its
  root-to-leaf path. `PackBitsToBytes` packs a `'0'`/`'1'` string most
  significant bit first. `UnpackBytesToBits` reverses it. `Decompress` walks
  the tree bit by bit.
- **the container** (`Huffpress::HuffpressFile`). It is a class with a
  `header` and a `byteVec` payload. `Init`, both `Modify` overloads and
  `ParseFromBuffer` update them in place. `SerializeToBuffer` writes the
  byte layout, and `ParseFromBuffer` reads it back with a moving `offset`.
- **the checksum** (`checksum`): 64-bit FNV-1a with `uint64_t` wrap-around.
- **the CLI string helpers** (`splitCommands`, `tokenize`,
  `getRemainingTokens`).

The Dafny modules follow the source:

| module | file | models |
|---|---|---|
| `Types` | types.dfy | `char`, `uint8_t`, `int32_t` and `uint64_t` values, and viewing chars as bytes |
| `Wire` | wire.dfy | the little-endian `size_t`, `uint64_t` and `int` fields the container copies with `memcpy` |
| `Checksum` | checksum.dfy | huffpress/checksum/checksum.c |
| `BitPack` | bits.dfy | `PackBitsToBytes` and `UnpackBytesToBits` |
| `HuffmanTree` | tree.dfy | `HuffmanNode`, `HuffmanCompare`, `BuildHuffmanTree` and `GenerateCodes` |
| `Huffman` | huffman.dfy | `Compress` and `Decompress` |
| `Huffpress` | huffpress.dfy | `HuffpressFile` and its buffer layout |
| `Cli` | cli.dfy | `splitCommands`, `tokenize` and `getRemainingTokens` |

Each loop of the source is a Dafny method proved against a specification
function. Examples: `BitPack.PackBitsToBytes` against `PackBits`,
`Huffman.Decompress` against `Decoded`, `Cli.SplitCommands` against
`NonEmpty(Pieces(CommandMarks(line)))`. The properties the source relies on
are lemmas about those functions:

- the pack/unpack round trip;
- the tree's leaves are exactly the map's entries;
- the codes are root-to-leaf paths and are prefix-free;
- `Decompress(Compress(t)) == t` once the counted map has two or more keys;
- the container layout round trip.

## Model

| member | source | states |
|---|---|---|
| Types.CharByteRoundTrip | huffpress/huffpress.cpp:136-137 | a char key copied out as one byte and read back is the same char |
| Types.CharToByte | huffpress/checksum/checksum.c:6 | `(uint8_t)buf[i]` is the char's two's-complement byte: the char itself when non-negative, the char plus 256 when negative |
| Types.Reinterpret | huffpress/huffpress.cpp:20 | viewing the payload bytes as chars (`reinterpret_cast<char*>`) keeps every byte value: reading them back as unsigned gives the bytes |
| Types.ReinterpretUnsigned | huffpress/huffpress.cpp:122 | magic chars stored as bytes and copied back into the `char` array are the same chars |
| Wire.LittleEndianRoundTrip | huffpress/huffpress.cpp:128-130 | a value below 256^width written as `width` little-endian bytes reads back as the same value |
| Wire.Word64 | huffpress/huffpress.cpp:62-63 | a `size_t` or `uint64_t` field takes 8 bytes and reads back as its value when the value is below 2^64 |
| Wire.Int32Bytes | huffpress/huffpress.cpp:67 | an `int` count takes 4 bytes (two's complement) and reads back as the same count |
| Wire.Int32FromBytes | huffpress/huffpress.cpp:139-140 | 4 bytes read as an `int` give a value in the 32-bit signed range |
| Checksum.Xor | huffpress/checksum/checksum.c:6 | bit j of the result is set exactly when bit j is set in one of the operands but not both, for every bit below the width |
| Checksum.XorByte | huffpress/checksum/checksum.c:6 | `hash ^= (uint8_t)buf[i]` changes only the low 8 bits of the hash, and those become the xor with the byte |
| Checksum.XorByteInjective | huffpress/checksum/checksum.c:6 | two hashes that the xor with one byte makes equal were already equal |
| Checksum.MultiplyPrimeInjective | huffpress/checksum/checksum.c:7 | `hash *= 0x00000100000001b3` wraps modulo 2^64 without losing anything: two hashes with equal products are equal, since the prime has an inverse modulo 2^64 |
| Checksum.StepInjective | huffpress/checksum/checksum.c:6-7 | one xor-then-multiply round with a given byte sends distinct running hashes to distinct ones |
| Checksum.FoldAppend | huffpress/checksum/checksum.c:5-8 | hashing `a + b` is hashing `b` starting from the hash of `a` |
| Checksum.Fnv1a | huffpress/checksum/checksum.c:3-10 | the digest of no bytes is the offset basis; otherwise it is one more xor-then-multiply round over the digest of all bytes but the last |
| Checksum.ChecksumAppend | huffpress/checksum/checksum.c:3-10 | the digest of `a + b` continues from the digest of `a` |
| Checksum.Checksum | huffpress/checksum/checksum.c:3-10 | the loop returns FNV-1a of exactly the first `len` chars, each taken as its unsigned byte |
| BitPack.ShiftIn | huffpress/huffman/huffman.cpp:66-69 | shifting in `n` characters leaves a value below 2^n, so at most 8 characters fit a byte |
| BitPack.ShiftLeftValue | huffpress/huffman/huffman.cpp:80 | `currentByte <<= k` on a `uint8_t` is the byte times 2^k modulo 256: bits shifted past the eighth are lost |
| BitPack.ShiftInBit | huffpress/huffman/huffman.cpp:66-69 | character j of the shifted-in string is bit `n - 1 - j` of the value, set exactly when the character is '1' |
| BitPack.ShiftInZeros | huffpress/huffman/huffman.cpp:79-80 | the final `currentByte <<= (8 - bitCount)` equals shifting in that many '0' characters |
| BitPack.PackBits | huffpress/huffman/huffman.cpp:58-85 | packing `n` characters gives `(n + 7) / 8` bytes |
| BitPack.PackBitsAt | huffpress/huffman/huffman.cpp:65-82 | bit i of the output (byte i/8, bit 7 - i%8) is set exactly when i < n and `bitString[i]` is '1'; padding bits are 0 |
| BitPack.AllBits | huffpress/huffman/huffman.cpp:90-94 | unpacking every byte gives 8 characters per byte, each '1' exactly when its packed bit is set |
| BitPack.ByteBits | huffpress/huffman/huffman.cpp:91-93 | the inner loop appends exactly eight characters per byte |
| BitPack.ByteBitsRoundTrip | huffpress/huffman/huffman.cpp:91-93 | the eight characters of a byte, most significant first, shift back in to that byte |
| BitPack.PackAllBits | huffpress/huffman/huffman.cpp:58-97 | packing every unpacked bit of a byte vector gives the vector back |
| BitPack.UnpackBits | huffpress/huffman/huffman.cpp:87-97 | the result has min(bitLength, 8·bytes) characters, all '0'/'1', each the packed bit at its position |
| BitPack.UnpackPackRoundTrip | huffpress/huffman/huffman.cpp:58-97 | unpacking `|s|` bits of the packing of a '0'/'1' string `s` gives `s` |
| BitPack.PackFinish | huffpress/huffman/huffman.cpp:79-84 | after the loop, the pending one to seven bits shifted left make the last byte of the packing |
| BitPack.PackBitsToBytes | huffpress/huffman/huffman.cpp:58-85 | the loop returns the packing of the bit string and sets `bitLength` to its length |
| BitPack.UnpackBytesToBits | huffpress/huffman/huffman.cpp:87-97 | the loops return `UnpackBits(compressedData, bitLength)` |
| HuffmanTree.AscendingSorted | huffpress/huffman/huffman.cpp:22 | the map's keys are visited in strictly increasing signed-char order |
| HuffmanTree.SortedKeys | huffpress/huffman/huffman.cpp:22 | the visiting order holds every key of the map once, and nothing else |
| HuffmanTree.CompareStrictWeakOrder | huffpress/huffman/huffman.cpp:14-16 | `HuffmanCompare` is irreflexive and transitive, and nodes of equal frequency are interchangeable: the strict weak ordering `std::priority_queue` needs |
| HuffmanTree.MinIndex | huffpress/huffman/huffman.cpp:27-28 | `pq.top()` on a non-empty queue is one of its nodes |
| HuffmanTree.Remove | huffpress/huffman/huffman.cpp:27-28 | `pq.pop()` leaves one node fewer |
| HuffmanTree.RemoveKeeps | huffpress/huffman/huffman.cpp:27-28 | `pq.pop()` takes out the top node once and keeps every other node |
| HuffmanTree.MinIndexIsTop | huffpress/huffman/huffman.cpp:14-16 | `pq.top()` is a node that `HuffmanCompare` puts no other node above; among equal frequencies it is the earliest pushed |
| HuffmanTree.Merge | huffpress/huffman/huffman.cpp:26-35 | each round of the merge loop leaves one node fewer in the queue |
| HuffmanTree.MergeRound | huffpress/huffman/huffman.cpp:27-34 | pop, pop, push the parent with the summed frequency is one `Merge` round |
| HuffmanTree.MergeKeeps | huffpress/huffman/huffman.cpp:27-34 | a round keeps every leaf of the queue: the two popped nodes become the children of the pushed one |
| HuffmanTree.MergeSummed | huffpress/huffman/huffman.cpp:30-34 | a round keeps every inner node's frequency equal to the sum of its children's |
| HuffmanTree.CombineKeeps | huffpress/huffman/huffman.cpp:26-37 | the root holds exactly the leaves the queue held |
| HuffmanTree.CombineShape | huffpress/huffman/huffman.cpp:26-37 | the root is summed all the way down, and it is an inner node exactly when the queue had two nodes or its one node was inner |
| HuffmanTree.LeavesOf | huffpress/huffman/huffman.cpp:22-24 | one leaf is pushed per visited key, holding that key and its count |
| HuffmanTree.LeavesOfEntries | huffpress/huffman/huffman.cpp:22-24 | the initial queue holds each (key, count) entry of the map exactly once and nothing else |
| HuffmanTree.BuildHuffmanTree | huffpress/huffman/huffman.cpp:19-38 | the two loops return the tree `BuildTree` of the map |
| HuffmanTree.MergeAll | huffpress/huffman/huffman.cpp:26-37 | the merge loop returns the root `Combine` reaches from the queue |
| HuffmanTree.BuildTreeLeaves | huffpress/huffman/huffman.cpp:19-38 | for a non-empty map, the tree's leaves are exactly the map's entries, each once |
| HuffmanTree.BuildTreeShape | huffpress/huffman/huffman.cpp:19-38 | for a non-empty map, the symbols are the map's keys, every inner node sums its children, and the root is inner exactly when the map has two or more keys |
| HuffmanTree.GenerateCodes | huffpress/huffman/huffman.cpp:40-49 | the code table gains exactly the subtree's symbols |
| HuffmanTree.GenerateCodesOthers | huffpress/huffman/huffman.cpp:40-49 | entries of symbols outside the subtree keep their codes |
| HuffmanTree.GenerateCodesPaths | huffpress/huffman/huffman.cpp:40-49 | each symbol of the subtree gets the given prefix followed by a '0'/'1' path that reaches its leaf |
| HuffmanTree.ReachesPrefix | huffpress/huffman/huffman.cpp:40-49 | if one root-to-leaf path is a prefix of another, they are the same path to the same leaf |
| HuffmanTree.CodesArePaths | huffpress/huffman/huffman.cpp:40-49 | the code table has one code per key, each a '0'/'1' path to that key's leaf; with two or more keys no code is empty; with one key the code is "" |
| HuffmanTree.CodesPrefixFree | huffpress/huffman/huffman.cpp:40-49 | no key's code is a prefix of another key's code |
| Huffman.Occurrences | huffpress/huffman/huffman.cpp:102-104 | a char occurs at most `|text|` times, and at least once exactly when it is in the text |
| Huffman.TallyAdds | huffpress/huffman/huffman.cpp:102-104 | counting keeps the old keys and adds the text's chars; each count is the old count (0 if new) plus the char's occurrences |
| Huffman.TallyStep | huffpress/huffman/huffman.cpp:102-104 | one `freqMap[ch]++` is one more counted char, and the count stays within `int32_t` |
| Huffman.EncodeAppend | huffpress/huffman/huffman.cpp:111-114 | encoding `a + b` is the encoding of `a` followed by that of `b` |
| Huffman.EncodeIsBits | huffpress/huffman/huffman.cpp:111-114 | with '0'/'1' codes the bit string is '0'/'1' |
| Huffman.EncodeSkipsUncoded | huffpress/huffman/huffman.cpp:113 | `huffmanCode[ch]` gives "" for a char without a code, so such a char adds no bits wherever it stands |
| Huffman.EncodeAtLeastOneBit | huffpress/huffman/huffman.cpp:111-114 | when every char has a non-empty code, the bit string is at least as long as the text |
| Huffman.Compress | huffpress/huffman/huffman.cpp:101-119 | the caller's map comes back with the text's counts added; the payload is the packing of the text's codes, in order; `bitLength` is the number of bits |
| Huffman.DecodeFrom | huffpress/huffman/huffman.cpp:127-134 | the walk emits at most one char per bit |
| Huffman.Decompress | huffpress/huffman/huffman.cpp:121-138 | the loop emits `Decoded(freqMap, UnpackBits(compressed, bitLength))` |
| Huffman.DecodeStep | huffpress/huffman/huffman.cpp:127-134 | one step of the loop keeps the emitted chars plus the rest of the walk equal to the whole walk |
| Huffman.DecodeAlongPath | huffpress/huffman/huffman.cpp:127-134 | walking a path to leaf `s` emits `s` alone and returns to the root |
| Huffman.DecodeEncoded | huffpress/huffman/huffman.cpp:121-138 | under codes that are paths to their leaves, walking the encoding of a text emits the text |
| Huffman.DecodePartial | huffpress/huffman/huffman.cpp:127-134 | trailing bits that stop short of a leaf emit nothing |
| Huffman.DecodeEncodedText | huffpress/huffman/huffman.cpp:101-138 | with two or more keys, the encoding of a text over the keys is '0'/'1' and decodes to the text |
| Huffman.RoundTrip | huffpress/huffman/huffman.cpp:101-138 | when the counted map has two or more keys, unpacking and decoding the compressed text gives it back |
| Huffman.OneSymbol | huffpress/huffman/huffman.cpp:43-45 | when the counted map has one key, the code is "", so the text compresses to no bits and no bytes and decodes to "" |
| Huffman.EncodeEmptyCodes | huffpress/huffman/huffman.cpp:111-114 | codes that are all "" encode every text to no bits |
| Huffman.CompressDecompress | tests/unit.cpp:28-33 | compress, then decompress with the filled map and the bit length, restores the text |
| Huffpress.EntryBytes | huffpress/huffpress.cpp:65-68 | each map entry takes 5 bytes: the key, then the count |
| Huffpress.Prologue | huffpress/huffpress.cpp:59-63 | magic, version and entry count take 3 + 3 + 8 bytes |
| Huffpress.Epilogue | huffpress/huffpress.cpp:70-74 | bit length, size and both checksums take 32 bytes |
| Huffpress.Serialized | huffpress/huffpress.cpp:55-80 | the layout takes 46 + 5·entries + payload bytes |
| Huffpress.HuffpressFile.constructor | huffpress/huffpress.h:43-78 | a default file has magic "HPF", version 0.1.2, an empty map, zero bit length, size and checksums, and no payload |
| Huffpress.HuffpressFile.FromData | huffpress/huffpress.cpp:12-14 | a file built from data holds the compressed data, its counts, bit length, size and both digests, and decompresses to the data when the map has two or more keys |
| Huffpress.HuffpressFile.Init | huffpress/huffpress.cpp:16-21 | the payload is the compressed data; the map gains the data's counts; bit length, size and both digests are set; magic and version are unchanged; decompression gives the data back with two or more keys; with one key the payload is empty |
| Huffpress.HuffpressFile.Modify | huffpress/huffpress.cpp:164-169 | the same effect as `Init`: the data's counts are added to the existing map, and the payload, bit length, size and both digests are replaced |
| Huffpress.HuffpressFile.ModifyCompressed | huffpress/huffpress.cpp:171-178 | payload and map are replaced; the size is the payload's; the source digest is that of the decompression with the given bit length; the stored bit length is unchanged |
| Huffpress.HuffpressFile.Decompress | huffpress/huffpress.cpp:180-182 | returns the payload decoded with the header's map and bit length |
| Huffpress.HuffpressFile.SerializeToBuffer | huffpress/huffpress.cpp:55-80 | the buffer holds the prologue, the entries in map order, the epilogue and the payload |
| Huffpress.HuffpressFile.ParseFromBuffer | huffpress/huffpress.cpp:118-162 | header and payload become what the layout at offset 0 holds, with the map rebuilt from the listed entries |
| Huffpress.HuffpressFile.ParseEntries | huffpress/huffpress.cpp:132-143 | the map is cleared and refilled from the entries in order; the offset ends after them; nothing else changes |
| Huffpress.EntryStep | huffpress/huffpress.cpp:65-68 | appending one key and its count extends the entries by that entry |
| Huffpress.ParseEntryStep | huffpress/huffpress.cpp:133-143 | reading entry i into the map gives the map of the first i + 1 entries |
| Huffpress.MapSizeBound | huffpress/huffpress.cpp:62 | a frequency map has at most 256 keys, so its size fits the 8-byte count |
| Huffpress.EntriesRoundTrip | huffpress/huffpress.cpp:133-143 | reading back the entries written for distinct keys gives each key its count, and no other key |
| Huffpress.LastEntry | huffpress/huffpress.cpp:136-142 | reading the last written entry adds its key with its count |
| Huffpress.DecodeEntriesLastWins | huffpress/huffpress.cpp:142 | among repeated keys the last entry's count is the one kept |
| Huffpress.MapRoundTrip | huffpress/huffpress.cpp:133-143 | reading back the entries of a whole map in map order gives the map |
| Huffpress.PrologueFields | huffpress/huffpress.cpp:122-130 | magic, version and count sit at bytes 0..3, 3..6 and 6..14 |
| Huffpress.EpilogueWindows | huffpress/huffpress.cpp:70-74 | the four words sit at bytes 0, 8, 16 and 24 of the epilogue |
| Huffpress.SerializedMagic | huffpress/huffpress.cpp:122-126 | magic and version read back from a serialized buffer are the header's |
| Huffpress.SerializedCount | huffpress/huffpress.cpp:128-130 | the entry count read back is the map's size |
| Huffpress.SerializedWords | huffpress/huffpress.cpp:145-158 | bit length, size and checksums read back are the header's, and the payload follows them |
| Huffpress.SerializedEntries | huffpress/huffpress.cpp:132-143 | the entries read back make the header's map |
| Huffpress.ParseSerialized | huffpress/huffpress.cpp:55-162 | parsing a serialized file gives back its header and payload, when size is the payload's length and the `size_t` fields fit 64 bits |
| Cli.NonEmpty | huffpress/cli/cli.cpp:101-111 | the kept strings are all non-empty and all come from the input |
| Cli.ScanCut | huffpress/cli/cli.cpp:100-105 | a cut emits the current run if it is not empty and starts a new one |
| Cli.ScanKeep | huffpress/cli/cli.cpp:107 | a kept character extends the current run |
| Cli.ScanDone | huffpress/cli/cli.cpp:109-111 | at the end the current run is emitted unless it is empty |
| Cli.ConcatNonEmpty | huffpress/cli/cli.cpp:101-111 | dropping empty runs does not change their concatenation |
| Cli.ConcatPieces | huffpress/cli/cli.cpp:96-111 | the runs put back together are exactly the kept characters |
| Cli.PieceChars | huffpress/cli/cli.cpp:119-121 | every character of every run is a kept character |
| Cli.CommandMarks | huffpress/cli/cli.cpp:100 | one mark per character of the line |
| Cli.CommandStep | huffpress/cli/cli.cpp:96-107 | a character is cut exactly when it is an unquoted separator; a `"` not right after a backslash toggles the quote mode |
| Cli.InQuotesParity | huffpress/cli/cli.cpp:94-99 | `insideQuotes` after a prefix is set exactly when an odd number of its `"` characters are not right after a backslash |
| Cli.SplitStep | huffpress/cli/cli.cpp:96-108 | one pass of the loop keeps the quote flag, the emitted commands and the open one in step with the line read so far |
| Cli.SplitDone | huffpress/cli/cli.cpp:109-112 | pushing the open command when it is not empty completes the list of non-empty runs |
| Cli.SplitCommands | huffpress/cli/cli.cpp:91-113 | the commands are the non-empty runs between unquoted `&`, `;` and newline; none is empty; together they are the line without its unquoted separators |
| Cli.NoQuotes | huffpress/cli/cli.cpp:97-100 | in a line without `"` nothing is quoted and every separator is a cut |
| Cli.SeparatorMarks | huffpress/cli/cli.cpp:100-107 | a separator inside quotes is kept verbatim; outside quotes it is cut |
| Cli.SpaceMarks | huffpress/cli/cli.cpp:119 | whitespace is never kept |
| Cli.Tokenize | huffpress/cli/cli.cpp:115-123 | the tokens are the maximal runs of non-whitespace: none empty, none holding whitespace, together the command without its whitespace |
| Cli.TokensProperties | huffpress/cli/cli.cpp:115-123 | the non-empty runs between whitespace hold no whitespace and together are the command without its whitespace |
| Cli.RemainingTokens | huffpress/cli/cli.cpp:199-202 | at most one token gives "" |
| Cli.JoinSnoc | huffpress/cli/cli.cpp:200-201 | joining one more string adds a space and the string |
| Cli.JoinStepEmpty | huffpress/cli/cli.cpp:201 | the lambda returns "" only when both strings are empty |
| Cli.AccumulateAppend | huffpress/cli/cli.cpp:200-201 | `std::accumulate` is a left fold: folding `ts + us` continues from the fold of `ts` |
| Cli.AccumulateJoin | huffpress/cli/cli.cpp:200-201 | folding non-empty strings with the lambda joins them with single spaces |
| Cli.RemainingTokensJoin | huffpress/cli/cli.cpp:199-202 | with non-empty tokens, as `tokenize` returns, the result is every token after the first joined by single spaces |
| Cli.AccumulateLeadingEmpty | huffpress/cli/cli.cpp:201 | the lambda skips a leading empty string together with its space |

## Left out

- File `Serialize` and `Parse` (huffpress/huffpress.cpp:23-116): stream I/O. Their field order is the one the buffer variants use.
- `BufferedSerialize` and `BufferedParse`: declared in huffpress/huffpress.h, but their definitions are not part of this model.
- `FreeTree` and the `new`/`delete` of tree nodes: trees are values here, so nothing is freed.
- `Stringize::*` (huffpress/huffman/huffman.cpp:140-160): debug formatting.
- The rest of huffpress/cli/cli.cpp: the command loops, stdin/stdout, `system()`, `exit()`, colours, the file helpers, and `calculateCompressionEfficiency` (floating point). main.cpp is not part of this model.
- The `try`/`catch` blocks and allocation failure: the model has no `std::bad_alloc` or `std::length_error`, since memory is unbounded here, and the modelled code throws nothing else. An out-of-range `memcpy` in `ParseFromBuffer` is undefined behaviour, not an exception, so `Huffpress.HuffpressFile.ParseFromBuffer` requires `WellSized(buffer)`: every read stays inside the buffer.
- `HuffmanTree.BuildHuffmanTree` requires a non-empty map. With an empty map the source pops an empty queue.
- `Huffman.Decompress` requires a non-empty map and, for a one-key map, no bits to walk. Otherwise the source pops an empty queue or dereferences a null child. `Huffpress.HuffpressFile.ModifyCompressed` and `Huffpress.HuffpressFile.Decompress` carry the same requirement.
- `Huffman.Compress`, `Huffpress.HuffpressFile.Init`, `Huffpress.HuffpressFile.Modify` and `Huffpress.HuffpressFile.FromData` require the counted map to be non-empty, for the same reason.
- `HuffmanTree.MinIndex`: the heap order of `std::priority_queue` among equal frequencies is not modelled. Ties go to the node pushed earliest. The tree, and so the codes, can differ from the real program's when frequencies tie. Compress and decompress share the one function, so the round trip is unaffected.
- `HuffmanTree.Combine`: inner-node frequencies are unbounded integers. The source adds two `int` frequencies with `int sum`, and that sum can overflow: `Huffman.Compress` only requires each count to fit `int32_t` (a map `{97: 2^31-1}` with the text "b" already gives a sum of 2^31, and three counts near 2^30 do too). `Huffman.Decompress`, `Huffpress.HuffpressFile.ModifyCompressed` and `Huffpress.HuffpressFile.ParseFromBuffer` take any parsed `int32_t` map, negative counts included. Signed overflow is undefined behaviour in the source; where it happens, the model's unbounded sums can build a different tree from the one the real program builds.
- `size_t` fields are naturals. `Huffpress.ParseSerialized` requires the bit length and size to be below 2^64, the only values the 8-byte fields can hold.
- `HuffmanTree.MergeAll` and `Huffpress.HuffpressFile.ParseEntries` are loops of `BuildHuffmanTree` and `ParseFromBuffer` given their own methods; the callers run them in place.
- `Huffpress.HuffpressFile.SerializeToBuffer` returns the buffer rather than clearing and refilling the caller's vector. The contents are the same.
- `Cli.Tokenize` scans character by character instead of extracting from a `std::stringstream`. Whitespace is the C locale's set: space, tab, newline, vertical tab, form feed and carriage return.
- CLI strings are Dafny strings. Codec and container text is a sequence of signed chars (-128..127), as `char` is on the reference platform.

Two behaviours of the code that a reader may not expect:

- A text whose counted map has one key compresses to no bits and decompresses to "": the data is lost. `Huffman.OneSymbol` and the one-key ensures of `Huffpress.HuffpressFile.Init` state this behaviour.
- `Modify` with the triple from compressing "X" records the digest of "", not of "X": the counted map has one key and the bit length is 0, so the decoded text is empty (`Huffpress.HuffpressFile.ModifyCompressed`).

# Huffman file compression, modelled in Dafny

This project models the compression core of `compression.cpp`, a
single-file Huffman coder. `compressFile` works in four steps:

1. It counts how often each byte occurs (`freqMap[ch]++`).
2. `buildHuffmanTree` seeds a min-priority queue with one leaf per counted
   byte, then merges the two lightest nodes until one is left.
3. `generateHuffmanCodes` records, for every leaf, its root-to-leaf path:
   '0' for left and '1' for right.
4. The codewords of the input bytes are concatenated, and the bit string is
   packed MSB-first into bytes through one `bitset<8>`.

The model is a set of pure functions over immutable data:

- `tree.dfy`, module `HuffmanTree`: the node type and tree measures.
- `frequency.dfy`, module `Frequency`: counting, and the walk over the
  frequency map.
- `builder.dfy`, module `TreeBuilder`: the priority queue and the merge
  loop.
- `codes.dfy`, module `CodeAssigner`: the code table and what its
  codewords mean.
- `packer.dfy`, module `BitPacker`: encoding and the packing loop.
- `decoder.dfy`, module `Decoder`: a decoder that the program does not
  have. It serves as the inverse that the round-trip properties are stated
  against.
- `pipeline.dfy`, module `Compression`: `compressFile` minus its streams.

Modelling choices:

- A symbol is a `Byte` (0..255).
- A codeword bit is a `bool`: `false` stands for the character '0', `true`
  for '1'.
- An output byte is a `bv8`, the value of `bits.to_ulong()` handed to
  `output.put`.
- The order in which the `unordered_map` is walked when seeding the queue
  is unspecified in C++. It is therefore a parameter `order`: any
  duplicate-free listing of the map's keys. `Compress` fixes ascending byte
  order.
- `std::priority_queue` leaves the order of equal-weight nodes to its
  heap. The model fixes one rule: extract-min takes the first of the
  lightest queued nodes, and a merged node joins at the back.

Where the code departs from what a Huffman coder is conventionally
expected to do, the model follows the code:

- A coder is expected to treat a byte without a codeword as an error.
  The code's `huffmanCodes[ch]` inserts and returns an empty string
  instead. `CodeOf` returns the empty codeword. In the pipeline every
  input byte has a codeword anyway (`Compression.CodesOfInput`).
- A coder is expected to zero-fill the last byte. The code never clears
  the bitset, so those low bits keep the previous byte's bits. See
  Findings.
- A lone symbol conventionally gets a one-bit codeword. The code gives
  the lone leaf the empty path, so nothing is written. See Findings.
- Empty input would reach `pq.top()` on an empty queue, which is
  undefined behaviour. Every pipeline function therefore requires a
  non-empty input.
- For "aaab" the code pops 'b' (count 1) first and makes it the left
  child. So 'b' is "0", 'a' is "1", and the single byte written is 0xE0
  (`Compression.AaabExample`).

## Model

| member | source | states |
|---|---|---|
| HuffmanTree.WeightIsLeafSum | compression.cpp:43-46 | in a tree where every internal node weighs the sum of its children, the root weighs the sum of its leaves' counts |
| HuffmanTree.LeafCount | compression.cpp:39-47 | a tree has exactly one more leaf than internal nodes |
| Frequency.Count | compression.cpp:76-78 | the frequency map holds exactly the bytes that occur in the input, each with its number of occurrences |
| Frequency.AscendingKeys | compression.cpp:34 | the keys listed in strictly ascending byte order, which is a valid walk of the map: every key exactly once and nothing else |
| Frequency.EnumerationSize | compression.cpp:34-36 | a walk of the map visits as many entries as the map has keys |
| Frequency.CountsSumToLength | compression.cpp:76-78 | the counts, summed over any walk of the map, add up to the input length |
| TreeBuilder.TopIndex | compression.cpp:23-27 | `pq.top()` under `CompareNodes`: no queued node is lighter than the chosen one, and every node queued before it is strictly heavier |
| TreeBuilder.PopMin | compression.cpp:40-41 | `top(); pop()` removes exactly one node, which weighs no more than any queued node, and keeps the rest |
| TreeBuilder.PopKeeps | compression.cpp:40-41 | popping moves exactly the popped node's leaves and weight out of the queue |
| TreeBuilder.Merge | compression.cpp:43-46 | the new node has the two popped nodes as left and right children, weighs the sum of their weights, its leaves are theirs in that order, and it obeys the sum rule whenever they do |
| TreeBuilder.StepMerges | compression.cpp:39-48 | one loop iteration: the two lightest nodes, left first, leave the queue and their merge joins it at the back; the rest is kept |
| TreeBuilder.StepBag | compression.cpp:39-48 | an iteration keeps the multiset of (byte, count) leaves in the queue |
| TreeBuilder.StepWeight | compression.cpp:39-48 | an iteration keeps the total weight of the queue |
| TreeBuilder.StepWellWeighted | compression.cpp:39-48 | an iteration keeps every queued node weighing the sum of its children |
| TreeBuilder.RoundsCount | compression.cpp:39 | with k queued nodes the loop runs exactly k - 1 times |
| TreeBuilder.CombineKeeps | compression.cpp:39-51 | the node left at the end holds exactly the leaves of the initial queue, weighs its total weight, and obeys the sum rule |
| TreeBuilder.Seed | compression.cpp:34-36 | the seeded queue has one node per listed byte, each obeying the sum rule |
| TreeBuilder.SeedBag | compression.cpp:34-36 | every seeded leaf carries a listed byte with its count, and each listed byte occurs exactly once |
| TreeBuilder.SeedWeight | compression.cpp:34-36 | the seeded queue weighs the sum of the counts |
| TreeBuilder.BuildTreeLeaves | compression.cpp:30-52 | the tree has one leaf per map entry, carrying that entry's byte and count, and no other leaves |
| TreeBuilder.BuildTreeShape | compression.cpp:30-52 | the tree's symbols are exactly the map's keys, and it has one internal node fewer than the map has entries |
| TreeBuilder.BuildTreeWeight | compression.cpp:30-52 | every internal node weighs the sum of its children, and the root weighs the sum of all counts |
| CodeAssigner.CodesDomain | compression.cpp:55-67 | exactly the leaf symbols receive a codeword |
| CodeAssigner.CodesExtend | compression.cpp:65-66 | every codeword extends the path the call started from, by at least one bit below an internal node |
| CodeAssigner.CodesArePaths | compression.cpp:55-67 | each codeword, after the starting path, leads from the node to the leaf that holds that very symbol |
| CodeAssigner.CodeTablePrefixFree | compression.cpp:55-67 | no codeword is a prefix of another symbol's codeword |
| CodeAssigner.FixedCodesNonEmpty | compression.cpp:60-62 | corrected table: the same symbols, still prefix-free, and no codeword is empty |
| BitPacker.EncodeAppend | compression.cpp:90-93 | encoding two pieces in turn gives the encoding of their concatenation |
| BitPacker.EncodeLength | compression.cpp:90-93 | the encoded length is the sum, over the distinct input bytes, of the byte's count times its codeword length |
| BitPacker.SetBit | compression.cpp:99 | `bits[pos] = v` sets bit `pos` to `v` and leaves the other seven bits unchanged |
| BitPacker.PackLayout | compression.cpp:97-103 | n bits give ceil(n/8) bytes; bit i sits at position 7 - i % 8 of byte i / 8; in a trailing partial byte the positions below the last bit repeat the previous byte, or are zero when there is none |
| BitPacker.PackSize | compression.cpp:100-101 | a byte is put after every eighth bit and after the last bit: ceil(n/8) bytes in all |
| BitPacker.PackUnpack | compression.cpp:97-103 | reading the written bytes back MSB-first gives the encoded bits followed by fewer than eight filler bits |
| BitPacker.StaleTrailingBits | compression.cpp:97-103 | the loop writes eight ones followed by a zero as 0xFF 0x7F |
| BitPacker.PackPaddedBits | compression.cpp:97-103 | corrected packing writes as many bytes as the loop, and reads back as exactly the bits followed by zero fill |
| BitPacker.PaddedTrailingBits | compression.cpp:97-103 | corrected packing writes eight ones followed by a zero as 0xFF 0x00 |
| Decoder.CodewordDecodes | compression.cpp:55-67 | a symbol's codeword read off the front of any bit string yields that symbol and leaves the rest unread; below an internal root it is non-empty |
| Decoder.DecodeEncode | compression.cpp:90-93 | decoding the encoded input with the producing tree gives the input back, whenever the root is internal and every input byte has a leaf |
| Decoder.FixedDecodeEncode | compression.cpp:60-62 | with the corrected table, decoding gives the input back for every covering tree, a lone leaf included |
| Compression.RootWeighsInput | compression.cpp:76-82 | the root weighs as much as the input is long |
| Compression.CodesOfInput | compression.cpp:82-84 | exactly the input's bytes get codewords; the codewords are prefix-free; each one is the path to the leaf with that byte and its count |
| Compression.RootCoversInput | compression.cpp:82 | the tree has a leaf for every input byte, and the root is internal once two distinct bytes occur |
| Compression.OutputShape | compression.cpp:90-103 | the bit count is the count-weighted sum of codeword lengths; the output has ceil(bits/8) bytes laid out MSB-first |
| Compression.RoundTrip | compression.cpp:70-103 | with two or more distinct bytes, unpacking the written bytes, cutting them to the bit count and decoding with the tree gives the input back |
| Compression.SingleSymbolRoot | compression.cpp:39-51 | with one distinct byte the loop never runs: the root is a lone leaf with that byte and the input length |
| Compression.SingleSymbolWritesNothing | compression.cpp:60-67 | with one distinct byte its codeword is empty, no bits are encoded and no byte is written |
| Compression.SingleSymbolLosesCount | compression.cpp:55-67 | "A" and "AA" both compress to zero bytes |
| Compression.IntendedRoundTrip | compression.cpp:55-103 | with both corrections, every non-empty input costs at least one bit per byte; it reads back as its bits plus zero fill; and it decodes back to the input |
| Compression.AaabExample | compression.cpp:70-103 | "aaab" compresses to the single byte 0xE0 whichever order the map is walked in (a then b, or b then a) |

## Left out

- File handling: `ifstream`/`ofstream`, the second read of the input, the
  success message and `main`. Input and output are byte sequences.
- Heap allocation, raw pointers and the nodes that are never freed. The
  tree is a value. The `nullptr` test at lines 56-57 only stops recursion
  below a leaf, and the `Tree` datatype has no null child.
- The walk order of `unordered_map` is implementation-defined. It is the
  parameter `order`, and every general property is proved for every valid walk. The "aaab" example is stated for both of its walks.
- TreeBuilder.TopIndex: fixes the tie-break as first of the lightest in
  queue order. The source leaves it to the heap of `std::priority_queue`,
  which is not modelled.
- Empty input is excluded by a precondition. The source calls `pq.top()`
  on an empty queue, which is undefined behaviour.
- The 32-bit `int` counts and combined weights are unbounded `nat`s.
  Overflow needs inputs of 2^31 bytes or more.
- `char` signedness is not modelled. Bytes are 0..255 and only their
  identity matters.
- The missing-key insertion done by `huffmanCodes[ch]` is not modelled,
  because the map is not read again afterwards. `CodeOf` returns the empty
  codeword the insertion yields.
- Optimality is not proved: the model does not show that the tree
  minimises the weighted path length among prefix codes.
- `encodedBits` is a `std::string` of '0' and '1' characters. It is
  modelled as a sequence of booleans.
- Compression.RoundTrip: stated only for inputs with at least two distinct
  bytes. With one, nothing is written and the input cannot be read back;
  that case is a finding.
- There is no decoder and no serialized code table in the source. The
  `Decoder` module exists to state the inverse properties. Its round trips
  take the tree and the bit count as given, because the output file does
  not record them.

## Findings

| source | as written | input that shows it | evidently intended | confidence | as-written member | corrected member |
|---|---|---|---|---|---|---|
| compression.cpp:97-103 | the `bitset<8>` is never cleared, so a trailing partial byte carries the previous byte's low bits | eight 1 bits then one 0 bit: bytes 0xFF 0x7F | the unused low bits of the last byte are zero (0xFF 0x00) | high; not executed | BitPacker.StaleTrailingBits | BitPacker.PackPaddedBits |
| compression.cpp:55-67 | a root that is a lone leaf gets the empty codeword, so an input with one distinct byte encodes to no bits at all | "A" and "AA" both compress to zero bytes | the lone byte gets a one-bit codeword, so each occurrence writes one bit | high; not executed | Compression.SingleSymbolLosesCount | Compression.IntendedRoundTrip |

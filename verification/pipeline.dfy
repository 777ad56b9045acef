/** `compressFile` without its streams: the input file's bytes go in, the
    bytes written to the output file come out. */
module Compression {
  import opened HuffmanTree
  import opened Frequency
  import opened TreeBuilder
  import opened CodeAssigner
  import opened BitPacker
  import opened Decoder

  lemma NonEmptyCount(input: seq<Byte>)
    requires |input| > 0
    ensures |Count(input)| > 0
  {
    assert input[0] in Count(input);
  }

  /** The root `buildHuffmanTree` returns for `input` when the frequency
      map is walked in `order`. */
  function RootOf(input: seq<Byte>, order: seq<Byte>): Tree
    requires |input| > 0
    requires Enumerates(order, Count(input))
  {
    NonEmptyCount(input);
    BuildTree(Count(input), order)
  }

  /** `encodedBits` for `input`. */
  function BitsOf(input: seq<Byte>, order: seq<Byte>): seq<bool>
    requires |input| > 0
    requires Enumerates(order, Count(input))
  {
    Encode(CodeTable(RootOf(input, order)), input)
  }

  /** The bytes `compressFile` writes, for a given walk of the frequency
      map. The input must be non-empty: on an empty file the source takes
      `pq.top()` of an empty queue. */
  function CompressWith(input: seq<Byte>, order: seq<Byte>): seq<bv8>
    requires |input| > 0
    requires Enumerates(order, Count(input))
  {
    Pack(BitsOf(input, order))
  }

  /** The pipeline with the walk fixed to ascending byte order. */
  function Compress(input: seq<Byte>): seq<bv8>
    requires |input| > 0
  {
    CompressWith(input, AscendingKeys(Count(input)))
  }

  /** The root weighs as much as the input is long. */
  lemma RootWeighsInput(input: seq<Byte>, order: seq<Byte>)
    requires |input| > 0
    requires Enumerates(order, Count(input))
    ensures RootOf(input, order).weight == |input|
  {
    NonEmptyCount(input);
    BuildTreeWeight(Count(input), order);
    CountsSumToLength(input, order);
  }

  /** Every byte of the input, and no other, gets a codeword; the codewords
      are prefix-free; and each one is the path from the root to the leaf
      that carries that byte and its count. */
  lemma CodesOfInput(input: seq<Byte>, order: seq<Byte>)
    requires |input| > 0
    requires Enumerates(order, Count(input))
    ensures var root, codes := RootOf(input, order), CodeTable(RootOf(input, order));
      && (forall b :: b in codes <==> b in input)
      && PrefixFree(codes)
      && (forall b :: b in codes ==> Walk(root, codes[b]) == Some(Leaf(b, Count(input)[b])))
  {
    var freq, root := Count(input), RootOf(input, order);
    NonEmptyCount(input);
    BuildTreeLeaves(freq, order);
    BuildTreeShape(freq, order);
    var codes := CodeTable(root);
    CodesDomain(root, []);
    CodeTablePrefixFree(root);
    CodesArePaths(root, []);
    forall b | b in codes
      ensures Walk(root, codes[b]) == Some(Leaf(b, freq[b]))
    {
      assert codes[b][0..] == codes[b];
      var leaf := Walk(root, codes[b]).value;
      WalkReachesLeaf(root, codes[b]);
      assert (leaf.sym, leaf.weight) in Leaves(root);
    }
  }

  /** The encoded bit string is as long as the count-weighted sum of the
      codeword lengths, and the output has ceil(n/8) bytes for n bits,
      laid out MSB first, with stale low bits in a trailing partial byte. */
  lemma OutputShape(input: seq<Byte>, order: seq<Byte>)
    requires |input| > 0
    requires Enumerates(order, Count(input))
    ensures |BitsOf(input, order)| == Cost(order, multiset(input), CodeTable(RootOf(input, order)))
    ensures |CompressWith(input, order)| == (|BitsOf(input, order)| + 7) / 8
    ensures Packed(BitsOf(input, order), CompressWith(input, order))
  {
    EncodeLength(CodeTable(RootOf(input, order)), input, order);
    PackLayout(BitsOf(input, order));
  }

  /** With a single distinct byte the root is a bare leaf that carries
      that byte and the length of the input. */
  lemma SingleSymbolRoot(input: seq<Byte>, order: seq<Byte>)
    requires |input| > 0
    requires Enumerates(order, Count(input))
    requires |Count(input)| == 1
    ensures RootOf(input, order) == Leaf(input[0], |input|)
    ensures forall b :: b in input ==> b == input[0]
  {
    SingleSymbolLeaf(input, order);
    RootWeighsInput(input, order);
    SingleSymbolOnly(input);
  }

  lemma SingleSymbolLeaf(input: seq<Byte>, order: seq<Byte>)
    requires |input| > 0
    requires Enumerates(order, Count(input))
    requires |Count(input)| == 1
    ensures RootOf(input, order).Leaf? && RootOf(input, order).sym == input[0]
  {
    var freq, root := Count(input), RootOf(input, order);
    NonEmptyCount(input);
    BuildTreeShape(freq, order);
    SingleKey(freq, input[0]);
    assert root.Leaf? by {
      assert InternalCount(root) == 0;
    }
    assert root.sym in Symbols(root);
  }

  lemma SingleSymbolOnly(input: seq<Byte>)
    requires |input| > 0
    requires |Count(input)| == 1
    ensures forall b :: b in input ==> b == input[0]
  {
    assert input[0] in Count(input);
    SingleKey(Count(input), input[0]);
    forall b | b in input
      ensures b == input[0]
    {
      assert b in Count(input);
    }
  }

  /** With a single distinct byte its codeword is empty, and nothing is
      written. */
  lemma SingleSymbolWritesNothing(input: seq<Byte>, order: seq<Byte>)
    requires |input| > 0
    requires Enumerates(order, Count(input))
    requires |Count(input)| == 1
    ensures RootOf(input, order).Leaf?
    ensures CodeTable(RootOf(input, order)) == map[input[0] := []]
    ensures BitsOf(input, order) == []
    ensures CompressWith(input, order) == []
  {
    SingleSymbolRoot(input, order);
    LeafRootCode(input[0], |input|);
    AllEmpty(map[input[0] := []], input);
  }

  lemma SingleKey(freq: map<Byte, nat>, x: Byte)
    requires |freq| == 1 && x in freq
    ensures freq.Keys == {x}
  {
    var rest := freq.Keys - {x};
    assert freq.Keys == rest + {x};
    assert |rest| == 0;
  }

  lemma {:induction false} AllEmpty(codes: map<Byte, seq<bool>>, input: seq<Byte>)
    requires forall b :: b in input ==> CodeOf(codes, b) == []
    ensures Encode(codes, input) == []
    decreases |input|
  {
    if |input| > 0 {
      assert forall b :: b in input[1..] ==> b in input;
      AllEmpty(codes, input[1..]);
    }
  }

  /** The root has a leaf for every input byte; with two or more distinct
      bytes it is an internal node. */
  lemma RootCoversInput(input: seq<Byte>, order: seq<Byte>)
    requires |input| > 0
    requires Enumerates(order, Count(input))
    ensures forall b :: b in input ==> b in Symbols(RootOf(input, order))
    ensures |Count(input)| >= 2 ==> RootOf(input, order).Node?
  {
    var root := RootOf(input, order);
    NonEmptyCount(input);
    BuildTreeShape(Count(input), order);
    assert Symbols(root) == Count(input).Keys;
    assert InternalCount(root) == |Count(input)| - 1;
  }

  lemma DecodePacked(root: Tree, bits: seq<bool>, input: seq<Byte>)
    requires root.Node?
    requires Decode(root, bits) == Some(input)
    ensures |bits| <= |Unpack(Pack(bits))|
    ensures Decode(root, Unpack(Pack(bits))[..|bits|]) == Some(input)
  {
    PackUnpack(bits);
  }

  /** With two or more distinct bytes, the tree, the bit count and the
      written bytes together determine the input: unpacking and decoding
      give it back. */
  lemma RoundTrip(input: seq<Byte>, order: seq<Byte>)
    requires |input| > 0
    requires Enumerates(order, Count(input))
    requires |Count(input)| >= 2
    ensures RootOf(input, order).Node?
    ensures |BitsOf(input, order)| <= |Unpack(CompressWith(input, order))|
    ensures Decode(RootOf(input, order), Unpack(CompressWith(input, order))[..|BitsOf(input, order)|]) == Some(input)
  {
    var root, bits := RootOf(input, order), BitsOf(input, order);
    RootCoversInput(input, order);
    DecodeEncode(root, input);
    DecodePacked(root, bits, input);
  }

  /** A one-byte file and a two-byte file of the same byte both compress to
      nothing at all: the lone leaf's empty codeword makes the encoded bit
      string empty whatever the count. */
  lemma SingleSymbolLosesCount(x: Byte)
    ensures Compress([x]) == [] && Compress([x, x]) == []
  {
    RepeatedWritesNothing([x], x);
    RepeatedWritesNothing([x, x], x);
  }

  lemma RepeatedWritesNothing(input: seq<Byte>, x: Byte)
    requires |input| > 0
    requires forall b :: b in input ==> b == x
    ensures Compress(input) == []
  {
    assert Count(input).Keys == {x} by {
      assert input[0] in input;
      assert forall b :: b in Count(input) <==> b == x;
    }
    SingleSymbolWritesNothing(input, AscendingKeys(Count(input)));
  }

  /** `encodedBits` under the intended code table. */
  function IntendedBits(input: seq<Byte>, order: seq<Byte>): seq<bool>
    requires |input| > 0
    requires Enumerates(order, Count(input))
  {
    Encode(CodeTableFixed(RootOf(input, order)), input)
  }

  /** The pipeline with both corrections: one-bit codes for a lone leaf and
      a zero-filled trailing byte. */
  function CompressIntended(input: seq<Byte>, order: seq<Byte>): seq<bv8>
    requires |input| > 0
    requires Enumerates(order, Count(input))
  {
    PackPadded(IntendedBits(input, order))
  }

  /** With both corrections every non-empty input, a single distinct byte
      included, costs at least one bit per byte, the output is exactly the
      bits followed by zero fill, and the tree and the bit count give the
      input back. */
  lemma IntendedRoundTrip(input: seq<Byte>, order: seq<Byte>)
    requires |input| > 0
    requires Enumerates(order, Count(input))
    ensures |IntendedBits(input, order)| >= |input|
    ensures Unpack(CompressIntended(input, order))
         == IntendedBits(input, order) + Padding(|IntendedBits(input, order)|)
    ensures DecodeWith(RootOf(input, order), IntendedBits(input, order)) == Some(input)
  {
    var root, bits := RootOf(input, order), IntendedBits(input, order);
    RootCoversInput(input, order);
    FixedCodesNonEmpty(root);
    EncodeAtLeastOne(CodeTableFixed(root), input);
    PackPaddedBits(bits);
    FixedDecodeEncode(root, input);
  }

  /** When every input byte has a non-empty codeword, the encoding has at
      least one bit per byte. */
  lemma {:induction false} EncodeAtLeastOne(codes: map<Byte, seq<bool>>, input: seq<Byte>)
    requires forall b :: b in input ==> b in codes && |codes[b]| > 0
    ensures |Encode(codes, input)| >= |input|
    decreases |input|
  {
    if |input| > 0 {
      assert input[0] in input;
      assert forall b :: b in input[1..] ==> b in input;
      EncodeAtLeastOne(codes, input[1..]);
    }
  }

  /** "aaab": the lone 'b' (weight 1) is taken first and becomes the left
      child, so 'b' is coded 0 and 'a' is coded 1; the bits 1110 fill the
      high half of one byte, and the low half stays zero. The weights never
      tie, so both walks of the map give the same byte. */
  lemma AaabExample()
    ensures Enumerates([97, 98], Count([97, 97, 97, 98]))
    ensures Enumerates([98, 97], Count([97, 97, 97, 98]))
    ensures CompressWith([97, 97, 97, 98], [97, 98]) == [0xE0]
    ensures CompressWith([97, 97, 97, 98], [98, 97]) == [0xE0]
  {
    AaabRoot();
    AaabCodes();
    AaabEncode();
    AaabPack();
  }

  lemma AaabRoot()
    ensures Enumerates([97, 98], Count([97, 97, 97, 98]))
    ensures Enumerates([98, 97], Count([97, 97, 97, 98]))
    ensures RootOf([97, 97, 97, 98], [97, 98]) == Node(Leaf(98, 1), Leaf(97, 3), 4)
    ensures RootOf([97, 97, 97, 98], [98, 97]) == Node(Leaf(98, 1), Leaf(97, 3), 4)
  {
    AaabCount();
    assert Distinct([97, 98]);
    assert Distinct([98, 97]);
    AaabTree();
    AaabTreeSwapped();
  }

  lemma AaabEncode()
    ensures Encode(map[98 := [false], 97 := [true]], [97, 97, 97, 98]) == [true, true, true, false]
  {
    var codes: map<Byte, seq<bool>> := map[98 := [false], 97 := [true]];
    var input: seq<Byte> := [97, 97, 97, 98];
    assert Encode(codes, input[3..]) == [false];
    assert Encode(codes, input[2..]) == [true, false];
    assert Encode(codes, input[1..]) == [true, true, false];
  }

  lemma AaabCount()
    ensures Count([97, 97, 97, 98]) == map[97 := 3, 98 := 1]
  {
    var input: seq<Byte> := [97, 97, 97, 98];
    var freq := Count(input);
    assert multiset(input)[97] == 3 && multiset(input)[98] == 1;
    assert forall b :: b in freq <==> b == 97 || b == 98;
  }

  lemma AaabTree()
    ensures BuildTree(map[97 := 3, 98 := 1], [97, 98]) == Node(Leaf(98, 1), Leaf(97, 3), 4)
  {
    var freq: map<Byte, nat> := map[97 := 3, 98 := 1];
    var q := Seed(freq, [97, 98]);
    assert q == [Leaf(97, 3), Leaf(98, 1)];
    assert TopIndex(q) == 1 by {
      assert TopIndex(q[..1]) == 0;
    }
    assert q[..1] + q[2..] == [Leaf(97, 3)];
    assert PopMin(q) == (Leaf(98, 1), [Leaf(97, 3)]);
    var r := [Leaf(97, 3)];
    assert r[..0] + r[1..] == [];
    assert PopMin(r) == (Leaf(97, 3), []);
    assert Step(q) == [Node(Leaf(98, 1), Leaf(97, 3), 4)];
  }

  lemma AaabTreeSwapped()
    ensures BuildTree(map[97 := 3, 98 := 1], [98, 97]) == Node(Leaf(98, 1), Leaf(97, 3), 4)
  {
    var freq: map<Byte, nat> := map[97 := 3, 98 := 1];
    var q := Seed(freq, [98, 97]);
    assert q == [Leaf(98, 1), Leaf(97, 3)];
    assert TopIndex(q) == 0 by {
      assert TopIndex(q[..1]) == 0;
    }
    assert q[..0] + q[1..] == [Leaf(97, 3)];
    assert PopMin(q) == (Leaf(98, 1), [Leaf(97, 3)]);
    var r := [Leaf(97, 3)];
    assert r[..0] + r[1..] == [];
    assert PopMin(r) == (Leaf(97, 3), []);
    assert Step(q) == [Node(Leaf(98, 1), Leaf(97, 3), 4)];
  }

  lemma AaabCodes()
    ensures CodeTable(Node(Leaf(98, 1), Leaf(97, 3), 4)) == map[98 := [false], 97 := [true]]
  {
    var z: seq<bool> := [];
    assert z + [false] == [false] && z + [true] == [true];
    assert Codes(Leaf(98, 1), [false]) == map[98 := [false]];
    assert Codes(Leaf(97, 3), [true]) == map[97 := [true]];
  }

  lemma AaabPack()
    ensures Pack([true, true, true, false]) == [0xE0]
  {
    var e := [true, true, true, false];
    var out := Pack(e);
    PackLayout(e);
    assert |out| == 1;
    forall p | 0 <= p < 8 ensures BitAt(out[0], p) == (p >= 5) {
      if p >= 4 {
        assert BitAt(out[(7 - p) / 8], 7 - (7 - p) % 8) == e[7 - p];
      }
    }
    SameBits(out[0], 0xE0);
  }
}

/** Step 3 of `compressFile`: the codewords of the input, concatenated in
    input order, and the loop that packs that bit string into bytes through
    one `bitset<8>`. Output bytes are `bv8` values: `bits.to_ulong()` of the
    bitset, handed to `output.put`. */
module BitPacker {
  import opened HuffmanTree
  import opened Frequency

  /** `huffmanCodes[ch]`: a missing key is inserted with the empty string
      and that empty string is returned. */
  function CodeOf(codes: map<Byte, seq<bool>>, b: Byte): seq<bool>
  {
    if b in codes then codes[b] else []
  }

  /** `encodedBits`: the codewords of the input bytes, in input order. */
  function Encode(codes: map<Byte, seq<bool>>, input: seq<Byte>): seq<bool>
  {
    if |input| == 0 then [] else CodeOf(codes, input[0]) + Encode(codes, input[1..])
  }

  /** Encoding two pieces one after the other encodes their concatenation. */
  lemma {:induction false} EncodeAppend(codes: map<Byte, seq<bool>>, a: seq<Byte>, b: seq<Byte>)
    ensures Encode(codes, a + b) == Encode(codes, a) + Encode(codes, b)
    decreases |a|
  {
    if |a| == 0 {
      assert a + b == b;
    } else {
      assert (a + b)[0] == a[0];
      assert (a + b)[1..] == a[1..] + b;
      EncodeAppend(codes, a[1..], b);
    }
  }

  /** Sum over the listed symbols of (occurrences times codeword length). */
  function Cost(order: seq<Byte>, counts: multiset<Byte>, codes: map<Byte, seq<bool>>): nat
  {
    if |order| == 0 then 0
    else counts[order[0]] * |CodeOf(codes, order[0])| + Cost(order[1..], counts, codes)
  }

  lemma {:induction false} CostAdd(order: seq<Byte>, counts: multiset<Byte>, codes: map<Byte, seq<bool>>, x: Byte)
    ensures Cost(order, counts + multiset{x}, codes)
         == Cost(order, counts, codes) + multiset(order)[x] * |CodeOf(codes, x)|
    decreases |order|
  {
    if |order| > 0 {
      var y, rest := order[0], order[1..];
      var counts' := counts + multiset{x};
      CostAdd(rest, counts, codes, x);
      assert order == [y] + rest;
      var m, n := multiset(rest)[x], |CodeOf(codes, x)|;
      var c, l := counts[y], |CodeOf(codes, y)|;
      assert Cost(order, counts', codes) == counts'[y] * l + Cost(rest, counts', codes);
      assert Cost(order, counts, codes) == c * l + Cost(rest, counts, codes);
      if x == y {
        assert multiset(order)[x] == m + 1;
        assert counts'[y] == c + 1;
        MulSucc(c, l);
        MulSucc(m, n);
        assert counts'[y] * l == c * l + n;
      } else {
        assert multiset(order)[x] == m;
        assert counts'[y] == c;
      }
    }
  }

  lemma MulSucc(c: nat, l: nat)
    ensures (c + 1) * l == c * l + l
  {
  }

  lemma {:induction false} CostEmpty(order: seq<Byte>, codes: map<Byte, seq<bool>>)
    ensures Cost(order, multiset{}, codes) == 0
    decreases |order|
  {
    if |order| > 0 {
      CostEmpty(order[1..], codes);
    }
  }

  /** The encoded length is the count-weighted sum of the codeword lengths,
      summed over a duplicate-free listing of the input's symbols. */
  lemma {:induction false} EncodeLength(codes: map<Byte, seq<bool>>, input: seq<Byte>, order: seq<Byte>)
    requires Distinct(order)
    requires forall b :: b in input ==> b in order
    ensures |Encode(codes, input)| == Cost(order, multiset(input), codes)
    decreases |input|
  {
    if |input| == 0 {
      CostEmpty(order, codes);
    } else {
      var x, rest := input[0], input[1..];
      assert input == [x] + rest;
      assert multiset(input) == multiset(rest) + multiset{x};
      assert forall b :: b in rest ==> b in input;
      EncodeLength(codes, rest, order);
      CostAdd(order, multiset(rest), codes, x);
      DistinctOnce(order, x);
    }
  }

  /** Mask of bit position `p` of a `bitset<8>` (position 0 is the least
      significant bit of `to_ulong()`). */
  function Mask(p: nat): bv8
    requires p < 8
  {
    if p == 0 then 0x01 else if p == 1 then 0x02 else if p == 2 then 0x04
    else if p == 3 then 0x08 else if p == 4 then 0x10 else if p == 5 then 0x20
    else if p == 6 then 0x40 else 0x80
  }

  /** Bit `p` of a byte. */
  function BitAt(b: bv8, p: nat): bool
    requires p < 8
  {
    b & Mask(p) != 0
  }

  /** `bits[pos] = v`: bit `pos` becomes `v`, the other seven are kept. */
  function SetBit(reg: bv8, pos: nat, v: bool): (r: bv8)
    requires pos < 8
    ensures forall p :: 0 <= p < 8 ==> BitAt(r, p) == (if p == pos then v else BitAt(reg, p))
  {
    var r := if v then reg | Mask(pos) else reg & !Mask(pos);
    assert forall p :: 0 <= p < 8 ==> BitAt(r, p) == (if p == pos then v else BitAt(reg, p)) by {
      forall p | 0 <= p < 8
        ensures BitAt(r, p) == (if p == pos then v else BitAt(reg, p))
      {
        MaskOverlap(pos, p);
      }
    }
    r
  }

  /** Two masks share a bit exactly when they are the same mask. */
  lemma MaskOverlap(pos: nat, p: nat)
    requires pos < 8 && p < 8
    ensures Mask(p) != 0
    ensures Mask(pos) & Mask(p) == (if p == pos then Mask(p) else 0)
  {
  }

  /** The packing loop from index `i` on, with `reg` the bitset and `out`
      the bytes put so far. Bit `i` goes to position `7 - i % 8`; a byte is
      put after every eighth bit and after the last bit. The bitset is
      never cleared. */
  function PackLoop(e: seq<bool>, i: nat, reg: bv8, out: seq<bv8>): seq<bv8>
    requires i <= |e|
    decreases |e| - i
  {
    if i == |e| then out
    else
      var reg' := SetBit(reg, 7 - i % 8, e[i]);
      var put := (i + 1) % 8 == 0 || i == |e| - 1;
      PackLoop(e, i + 1, reg', if put then out + [reg'] else out)
  }

  /** The whole loop: a fresh (all-zero) bitset and no output yet. */
  function Pack(e: seq<bool>): seq<bv8>
  {
    PackLoop(e, 0, 0, [])
  }

  /** What the packed bytes of `e` look like: ceil(n/8) bytes; bit i at
      position 7 - i % 8 of byte i / 8; and in a trailing partial byte, the
      positions below the last bit repeat the byte before (zero when there
      is none). */
  predicate Packed(e: seq<bool>, out: seq<bv8>)
  {
    && |out| == (|e| + 7) / 8
    && (forall j :: 0 <= j < |e| ==> BitAt(out[j / 8], 7 - j % 8) == e[j])
    && (|e| % 8 != 0 ==> forall p :: 0 <= p < 8 - |e| % 8 ==>
          BitAt(out[|e| / 8], p) == (|e| >= 8 && BitAt(out[|e| / 8 - 1], p)))
  }

  /** The state of the loop before it handles bit `i`. */
  predicate LoopState(e: seq<bool>, i: nat, reg: bv8, out: seq<bv8>)
  {
    && i <= |e|
    && (i == |e| ==> Packed(e, out))
    && (i < |e| ==>
         && |out| == i / 8
         && (forall j :: 0 <= j < i / 8 * 8 ==> BitAt(out[j / 8], 7 - j % 8) == e[j])
         && (forall j :: i / 8 * 8 <= j < i ==> BitAt(reg, 7 - j % 8) == e[j])
         && (forall p :: 0 <= p < 8 - i % 8 ==> BitAt(reg, p) == (i >= 8 && BitAt(out[i / 8 - 1], p))))
  }

  /** One pass of the loop body keeps the loop state. */
  lemma PackStep(e: seq<bool>, i: nat, reg: bv8, out: seq<bv8>)
    requires i < |e|
    requires LoopState(e, i, reg, out)
    ensures LoopState(e, i + 1, Next(e, i, reg, out).0, Next(e, i, reg, out).1)
  {
    if (i + 1) % 8 == 0 || i == |e| - 1 {
      PackStepPut(e, i, reg, out);
    } else {
      PackStepKeep(e, i, reg, out);
    }
  }

  /** The bits of the current byte, bit `i` included, sit in the bitset
      after bit `i` is stored. */
  lemma RegisterStep(e: seq<bool>, i: nat, reg: bv8, out: seq<bv8>)
    requires i < |e|
    requires LoopState(e, i, reg, out)
    ensures forall j :: i / 8 * 8 <= j <= i ==> BitAt(Next(e, i, reg, out).0, 7 - j % 8) == e[j]
  {
    var base := i / 8 * 8;
    assert base <= i < base + 8 && i % 8 == i - base;
    assert forall j :: base <= j < i ==> j / 8 == i / 8 && j % 8 == j - base;
  }

  /** A pass that puts a byte. */
  lemma PackStepPut(e: seq<bool>, i: nat, reg: bv8, out: seq<bv8>)
    requires i < |e|
    requires LoopState(e, i, reg, out)
    requires (i + 1) % 8 == 0 || i == |e| - 1
    ensures LoopState(e, i + 1, Next(e, i, reg, out).0, Next(e, i, reg, out).1)
  {
    var reg' := Next(e, i, reg, out).0;
    var base := i / 8 * 8;
    RegisterStep(e, i, reg, out);
    assert base <= i < base + 8 && i % 8 == i - base;
    var out' := out + [reg'];
    assert forall j :: 0 <= j < base ==> out'[j / 8] == out[j / 8];
    assert forall j :: base <= j <= i ==> j / 8 == i / 8 && out'[j / 8] == reg';
    if i + 1 < |e| {
      assert (i + 1) / 8 * 8 == i + 1;
      assert (i + 1) / 8 == i / 8 + 1;
    } else {
      assert (|e| + 7) / 8 == i / 8 + 1;
      if |e| % 8 != 0 {
        assert |e| / 8 == i / 8;
        assert |e| % 8 == i % 8 + 1;
        assert |e| >= 8 <==> i >= 8;
      }
    }
  }

  /** A pass that only stores the bit. */
  lemma PackStepKeep(e: seq<bool>, i: nat, reg: bv8, out: seq<bv8>)
    requires i < |e|
    requires LoopState(e, i, reg, out)
    requires !((i + 1) % 8 == 0 || i == |e| - 1)
    ensures LoopState(e, i + 1, Next(e, i, reg, out).0, Next(e, i, reg, out).1)
  {
    RegisterStep(e, i, reg, out);
    assert (i + 1) / 8 == i / 8;
    assert (i + 1) % 8 == i % 8 + 1;
    assert i + 1 >= 8 <==> i >= 8;
  }

  /** The loop state after one pass of the loop body over bit `i`. */
  function Next(e: seq<bool>, i: nat, reg: bv8, out: seq<bv8>): (bv8, seq<bv8>)
    requires i < |e|
  {
    var reg' := SetBit(reg, 7 - i % 8, e[i]);
    (reg', if (i + 1) % 8 == 0 || i == |e| - 1 then out + [reg'] else out)
  }

  lemma {:induction false} PackLoopPacked(e: seq<bool>, i: nat, reg: bv8, out: seq<bv8>)
    requires LoopState(e, i, reg, out)
    ensures Packed(e, PackLoop(e, i, reg, out))
    decreases |e| - i
  {
    if i < |e| {
      var n := Next(e, i, reg, out);
      PackStep(e, i, reg, out);
      assert PackLoop(e, i, reg, out) == PackLoop(e, i + 1, n.0, n.1);
      PackLoopPacked(e, i + 1, n.0, n.1);
    }
  }

  /** The packing loop lays the bits out MSB first in ceil(n/8) bytes, and
      a trailing partial byte keeps the previous byte's low bits. */
  lemma PackLayout(e: seq<bool>)
    ensures Packed(e, Pack(e))
  {
    PackLoopPacked(e, 0, 0, []);
  }

  /** The loop writes ceil(n/8) bytes for n bits. */
  lemma PackSize(e: seq<bool>)
    ensures |Pack(e)| == (|e| + 7) / 8
  {
    PackLayout(e);
  }

  /** The eight bits of a byte, most significant first. */
  function ByteBits(b: bv8): seq<bool>
  {
    seq(8, k requires 0 <= k < 8 => BitAt(b, 7 - k))
  }

  /** Reading packed bytes back as bits, MSB first. */
  function Unpack(out: seq<bv8>): seq<bool>
  {
    if |out| == 0 then [] else ByteBits(out[0]) + Unpack(out[1..])
  }

  lemma {:induction false} UnpackLength(out: seq<bv8>)
    ensures |Unpack(out)| == 8 * |out|
    decreases |out|
  {
    if |out| > 0 {
      UnpackLength(out[1..]);
    }
  }

  /** Bit `j` of the unpacked bits is bit `j % 8`, MSB first, of byte `j / 8`. */
  lemma {:induction false} UnpackIndex(out: seq<bv8>, j: nat)
    requires j < 8 * |out|
    ensures |Unpack(out)| == 8 * |out|
    ensures Unpack(out)[j] == ByteBits(out[j / 8])[j % 8]
    decreases |out|
  {
    UnpackLength(out);
    if j < 8 {
      UnpackHead(out, j);
      DivModSmall(j);
    } else {
      UnpackIndex(out[1..], j - 8);
      UnpackTail(out, j);
    }
  }

  lemma UnpackHead(out: seq<bv8>, j: nat)
    requires j < 8 && |out| > 0
    ensures Unpack(out)[j] == ByteBits(out[0])[j]
  {
  }

  lemma UnpackTail(out: seq<bv8>, j: nat)
    requires 8 <= j < 8 * |out|
    requires |Unpack(out[1..])| == 8 * (|out| - 1)
    ensures Unpack(out)[j] == Unpack(out[1..])[j - 8]
    ensures out[j / 8] == out[1..][(j - 8) / 8] && j % 8 == (j - 8) % 8
  {
    var head, tail := ByteBits(out[0]), Unpack(out[1..]);
    assert Unpack(out) == head + tail;
    DivModShift(j);
  }

  lemma DivBelow(j: nat, n: nat)
    requires j < 8 * n
    ensures j / 8 < n
  {
  }

  lemma DivModSmall(j: nat)
    requires j < 8
    ensures j / 8 == 0 && j % 8 == j
  {
  }

  lemma DivModShift(j: nat)
    requires j >= 8
    ensures (j - 8) / 8 == j / 8 - 1 && (j - 8) % 8 == j % 8
  {
  }

  lemma UnpackBit(out: seq<bv8>, j: nat)
    requires j < 8 * |out|
    ensures j / 8 < |out| && j < |Unpack(out)|
    ensures Unpack(out)[j] == BitAt(out[j / 8], 7 - j % 8)
  {
    UnpackIndex(out, j);
    DivBelow(j, |out|);
    var b, k := out[j / 8], j % 8;
    assert ByteBits(b)[k] == BitAt(b, 7 - k);
  }

  lemma UnpackAt(out: seq<bv8>)
    ensures |Unpack(out)| == 8 * |out|
    ensures forall j :: 0 <= j < 8 * |out| ==> Unpack(out)[j] == BitAt(out[j / 8], 7 - j % 8)
  {
    UnpackLength(out);
    forall j | 0 <= j < 8 * |out|
      ensures Unpack(out)[j] == BitAt(out[j / 8], 7 - j % 8)
    {
      UnpackBit(out, j);
    }
  }

  /** Unpacking the packed bytes gives back the encoded bits, followed by
      fewer than eight filler bits. */
  lemma PackUnpack(e: seq<bool>)
    ensures |e| <= |Unpack(Pack(e))| < |e| + 8
    ensures Unpack(Pack(e))[..|e|] == e
  {
    PackLayout(e);
    UnpackAt(Pack(e));
  }

  /** Zero bits that fill `n` bits up to a whole number of bytes. */
  function Padding(n: nat): (pad: seq<bool>)
    ensures |pad| < 8 && (n + |pad|) % 8 == 0
    ensures forall k :: 0 <= k < |pad| ==> !pad[k]
  {
    seq((8 - n % 8) % 8, _ => false)
  }

  /** The packing loop as evidently intended: a trailing partial byte is
      filled with zero bits instead of whatever the bitset still holds. */
  function PackPadded(e: seq<bool>): seq<bv8>
  {
    Pack(e + Padding(|e|))
  }

  /** The intended packing writes as many bytes as the loop does, and
      unpacking gives back exactly the bits followed by zero bits. */
  lemma PackPaddedBits(e: seq<bool>)
    ensures |PackPadded(e)| == (|e| + 7) / 8
    ensures Unpack(PackPadded(e)) == e + Padding(|e|)
  {
    var f := e + Padding(|e|);
    PackSize(f);
    UnpackLength(Pack(f));
    PackUnpack(f);
    assert |Unpack(Pack(f))| == |f|;
    assert Unpack(Pack(f)) == Unpack(Pack(f))[..|f|];
  }

  /** Nine bits, eight ones and then a zero: the loop writes 0xFF and then
      0x7F, because the seven low bits of the bitset still hold the ones of
      the first byte. */
  lemma StaleTrailingBits()
    ensures Pack(seq(8, _ => true) + [false]) == [0xFF, 0x7F]
  {
    var e := seq(8, _ => true) + [false];
    var out := Pack(e);
    PackLayout(e);
    FirstByteOnes(e);
    assert |out| == 2;
    forall p | 0 <= p < 8 ensures BitAt(out[1], p) == (p < 7) {
      if p == 7 {
        assert BitAt(out[8 / 8], 7 - 8 % 8) == e[8];
      }
    }
    SameBits(out[1], 0x7F);
  }

  /** The same nine bits packed with zero fill: 0xFF and then 0x00. */
  lemma PaddedTrailingBits()
    ensures PackPadded(seq(8, _ => true) + [false]) == [0xFF, 0x00]
  {
    var e := seq(8, _ => true) + [false];
    var f := e + Padding(|e|);
    var out := Pack(f);
    PackLayout(f);
    FirstByteOnes(f);
    assert |f| == 16 && |out| == 2;
    forall p | 0 <= p < 8 ensures !BitAt(out[1], p) {
      assert BitAt(out[(15 - p) / 8], 7 - (15 - p) % 8) == f[15 - p];
    }
    SameBits(out[1], 0x00);
  }

  /** Eight leading ones pack into a first byte of 0xFF. */
  lemma FirstByteOnes(e: seq<bool>)
    requires |e| >= 8 && forall j :: 0 <= j < 8 ==> e[j]
    ensures |Pack(e)| >= 1 && Pack(e)[0] == 0xFF
  {
    var out := Pack(e);
    PackLayout(e);
    forall p | 0 <= p < 8 ensures BitAt(out[0], p) {
      assert BitAt(out[(7 - p) / 8], 7 - (7 - p) % 8) == e[7 - p];
    }
    SameBits(out[0], 0xFF);
  }

  /** Two bytes with the same eight bits are the same byte. */
  lemma SameBits(a: bv8, b: bv8)
    requires forall p :: 0 <= p < 8 ==> BitAt(a, p) == BitAt(b, p)
    ensures a == b
  {
    assert BitAt(a, 0) == BitAt(b, 0) && BitAt(a, 1) == BitAt(b, 1);
    assert BitAt(a, 2) == BitAt(b, 2) && BitAt(a, 3) == BitAt(b, 3);
    assert BitAt(a, 4) == BitAt(b, 4) && BitAt(a, 5) == BitAt(b, 5);
    assert BitAt(a, 6) == BitAt(b, 6) && BitAt(a, 7) == BitAt(b, 7);
  }
}

/** The inverse of encoding. The program never decodes; this reader exists
    to state what prefix-freeness buys: given the tree, the encoded bit
    string determines the input. */
module Decoder {
  import opened HuffmanTree
  import opened CodeAssigner
  import opened BitPacker

  /** Reads one codeword off the front of `bits` by walking from `t` down to
      a leaf; yields the leaf's symbol and the unread bits. */
  function DecodeOne(t: Tree, bits: seq<bool>): (r: Option<(Byte, seq<bool>)>)
    ensures r.Some? ==> |r.value.1| <= |bits|
    ensures r.Some? && t.Node? ==> |r.value.1| < |bits|
  {
    match t
    case Leaf(s, _) => Some((s, bits))
    case Node(l, r, _) =>
      if |bits| == 0 then None else DecodeOne(if bits[0] then r else l, bits[1..])
  }

  /** Reads codewords until the bits run out. The root must be an internal
      node: a lone leaf has the empty codeword, which consumes nothing. */
  function Decode(t: Tree, bits: seq<bool>): Option<seq<Byte>>
    requires t.Node?
    decreases |bits|
  {
    if |bits| == 0 then Some([])
    else match DecodeOne(t, bits)
      case None => None
      case Some((s, rest)) =>
        match Decode(t, rest)
        case None => None
        case Some(tail) => Some([s] + tail)
  }

  /** A path that leads to a leaf reads as that leaf's symbol, whatever
      follows it. */
  lemma {:induction false} WalkDecodeOne(t: Tree, path: seq<bool>, rest: seq<bool>)
    requires Walk(t, path).Some? && Walk(t, path).value.Leaf?
    ensures DecodeOne(t, path + rest) == Some((Walk(t, path).value.sym, rest))
    decreases |path|
  {
    if |path| == 0 {
      assert path + rest == rest;
    } else {
      assert (path + rest)[0] == path[0];
      assert (path + rest)[1..] == path[1..] + rest;
      WalkDecodeOne(if path[0] then t.right else t.left, path[1..], rest);
    }
  }

  /** A symbol's codeword, read off the front of any bit string, yields that
      symbol and leaves the rest unread. */
  lemma CodewordDecodes(t: Tree, s: Byte, rest: seq<bool>)
    requires s in Symbols(t)
    ensures s in CodeTable(t)
    ensures DecodeOne(t, CodeTable(t)[s] + rest) == Some((s, rest))
    ensures t.Node? ==> |CodeTable(t)[s]| > 0
  {
    CodesDomain(t, []);
    CodesArePaths(t, []);
    var c := CodeTable(t)[s];
    assert c[0..] == c;
    WalkDecodeOne(t, c, rest);
  }

  /** Decoding the encoded input with the tree that produced the codes
      gives the input back, whenever the root is an internal node and the
      tree has a leaf for every input byte. */
  lemma {:induction false} DecodeEncode(t: Tree, input: seq<Byte>)
    requires t.Node?
    requires forall b :: b in input ==> b in Symbols(t)
    ensures Decode(t, Encode(CodeTable(t), input)) == Some(input)
    decreases |input|
  {
    if |input| > 0 {
      var x, rest := input[0], input[1..];
      var tail := Encode(CodeTable(t), rest);
      assert forall b :: b in rest ==> b in input;
      CodewordDecodes(t, x, tail);
      assert Encode(CodeTable(t), input) == CodeTable(t)[x] + tail;
      DecodeEncode(t, rest);
      assert input == [x] + rest;
    }
  }

  /** Decoding against the intended code table: over a lone leaf every bit
      must be '0' and each one stands for the leaf's symbol; otherwise as
      `Decode`. */
  function DecodeWith(t: Tree, bits: seq<bool>): Option<seq<Byte>>
  {
    match t
    case Leaf(s, _) =>
      if forall k :: 0 <= k < |bits| ==> !bits[k] then Some(seq(|bits|, _ => s)) else None
    case Node(_, _, _) => Decode(t, bits)
  }

  /** Over a lone leaf the intended codes turn each input byte into one
      '0' bit. */
  lemma {:induction false} EncodeFixedLeaf(s: Byte, w: nat, input: seq<Byte>)
    requires forall b :: b in input ==> b == s
    ensures Encode(CodeTableFixed(Leaf(s, w)), input) == seq(|input|, _ => false)
    decreases |input|
  {
    if |input| > 0 {
      assert forall b :: b in input[1..] ==> b in input;
      EncodeFixedLeaf(s, w, input[1..]);
      assert input[0] in input;
    }
  }

  /** With the intended codes the encoded input decodes back for every
      tree that has a leaf for each input byte, a lone leaf included. */
  lemma FixedDecodeEncode(t: Tree, input: seq<Byte>)
    requires forall b :: b in input ==> b in Symbols(t)
    ensures DecodeWith(t, Encode(CodeTableFixed(t), input)) == Some(input)
  {
    match t
    case Leaf(s, w) =>
      EncodeFixedLeaf(s, w, input);
      assert forall k :: 0 <= k < |input| ==> input[k] in input;
      assert seq(|input|, _ => s) == input;
    case Node(_, _, _) =>
      DecodeEncode(t, input);
  }
}

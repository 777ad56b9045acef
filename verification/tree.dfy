/** Shared vocabulary of the Huffman engine: symbols, the optional-value
    wrapper and the code tree built from `HuffmanNode` records. */
module HuffmanTree {

  /** One input symbol: a byte value 0..255 (the source's `char`, read
      as unsigned). */
  newtype Byte = x: int | 0 <= x < 256

  datatype Option<T> = None | Some(value: T)

  /** A node of the code tree. A leaf holds one symbol and its count; an
      internal node holds exactly two children and a weight. The source
      gives internal nodes the symbol '\0', which is never read, so the
      model does not carry it. */
  datatype Tree =
    | Leaf(sym: Byte, weight: nat)
    | Node(left: Tree, right: Tree, weight: nat)

  /** Every internal node weighs the sum of its children's weights. */
  predicate WellWeighted(t: Tree)
  {
    match t
    case Leaf(_, _) => true
    case Node(l, r, w) => w == l.weight + r.weight && WellWeighted(l) && WellWeighted(r)
  }

  /** The (symbol, weight) pairs at the leaves, left to right. */
  function Leaves(t: Tree): seq<(Byte, nat)>
  {
    match t
    case Leaf(s, w) => [(s, w)]
    case Node(l, r, _) => Leaves(l) + Leaves(r)
  }

  /** The symbols that occur at some leaf. */
  function Symbols(t: Tree): set<Byte>
  {
    match t
    case Leaf(s, _) => {s}
    case Node(l, r, _) => Symbols(l) + Symbols(r)
  }

  /** Number of internal nodes, one per merge that built the tree. */
  function InternalCount(t: Tree): nat
  {
    match t
    case Leaf(_, _) => 0
    case Node(l, r, _) => 1 + InternalCount(l) + InternalCount(r)
  }

  /** Sum of the weights of a list of pairs. */
  function SumWeights(ps: seq<(Byte, nat)>): nat
  {
    if |ps| == 0 then 0 else SumWeights(ps[..|ps| - 1]) + ps[|ps| - 1].1
  }

  lemma {:induction false} SumWeightsAppend(a: seq<(Byte, nat)>, b: seq<(Byte, nat)>)
    ensures SumWeights(a + b) == SumWeights(a) + SumWeights(b)
    decreases |b|
  {
    if |b| == 0 {
      assert a + b == a;
    } else {
      assert (a + b)[..|a + b| - 1] == a + b[..|b| - 1];
      SumWeightsAppend(a, b[..|b| - 1]);
    }
  }

  /** A well-weighted tree weighs exactly what its leaves weigh together. */
  lemma {:induction false} WeightIsLeafSum(t: Tree)
    requires WellWeighted(t)
    ensures t.weight == SumWeights(Leaves(t))
  {
    match t
    case Leaf(s, w) =>
      assert Leaves(t) == [] + [(s, w)];
    case Node(l, r, _) =>
      WeightIsLeafSum(l);
      WeightIsLeafSum(r);
      SumWeightsAppend(Leaves(l), Leaves(r));
  }

  /** A binary tree in which every internal node has two children has one
      leaf more than it has internal nodes. */
  lemma {:induction false} LeafCount(t: Tree)
    ensures |Leaves(t)| == InternalCount(t) + 1
  {
    match t
    case Leaf(_, _) =>
    case Node(l, r, _) =>
      LeafCount(l);
      LeafCount(r);
  }

  /** The symbol set is the set of first components of the leaf list. */
  lemma {:induction false} SymbolsOfLeaves(t: Tree)
    ensures Symbols(t) == set p | p in Leaves(t) :: p.0
  {
    match t
    case Leaf(s, w) =>
      assert Leaves(t)[0] == (s, w);
    case Node(l, r, _) =>
      SymbolsOfLeaves(l);
      SymbolsOfLeaves(r);
      assert forall p :: p in Leaves(t) <==> p in Leaves(l) || p in Leaves(r);
  }
}

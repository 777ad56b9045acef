/** Step 2b: `generateHuffmanCodes`, and what its codewords mean: each one
    is the path from the root to a leaf, read '0' for left and '1' for
    right. A bit is a `bool`: `false` for the character '0', `true` for '1'. */
module CodeAssigner {
  import opened HuffmanTree

  /** `generateHuffmanCodes(t, code, huffmanCodes)`: a leaf records the path
      so far; an internal node descends left with '0' appended, then right
      with '1'. The right subtree is visited last, so on a symbol that
      occurs twice its code wins, as the later map store does in the
      source. */
  function Codes(t: Tree, code: seq<bool>): map<Byte, seq<bool>>
  {
    match t
    case Leaf(s, _) => map[s := code]
    case Node(l, r, _) => Codes(l, code + [false]) + Codes(r, code + [true])
  }

  /** The table built by the top-level call with the empty path. */
  function CodeTable(root: Tree): map<Byte, seq<bool>>
  {
    Codes(root, [])
  }

  /** The node reached from `t` by following `path`, if the path stays
      inside the tree. */
  function Walk(t: Tree, path: seq<bool>): Option<Tree>
    decreases |path|
  {
    if |path| == 0 then Some(t)
    else match t
      case Leaf(_, _) => None
      case Node(l, r, _) => Walk(if path[0] then r else l, path[1..])
  }

  predicate IsPrefix(a: seq<bool>, b: seq<bool>)
  {
    |a| <= |b| && b[..|a|] == a
  }

  /** No codeword of one symbol begins another symbol's codeword. */
  predicate PrefixFree(codes: map<Byte, seq<bool>>)
  {
    forall s1, s2 :: s1 in codes && s2 in codes && s1 != s2 ==> !IsPrefix(codes[s1], codes[s2])
  }

  /** Every leaf symbol receives a codeword, and nothing else does. */
  lemma {:induction false} CodesDomain(t: Tree, code: seq<bool>)
    ensures Codes(t, code).Keys == Symbols(t)
  {
    match t
    case Leaf(_, _) =>
    case Node(l, r, _) =>
      CodesDomain(l, code + [false]);
      CodesDomain(r, code + [true]);
  }

  /** Each codeword extends the path it was called with; below an internal
      node it extends it by at least one bit. */
  lemma {:induction false} CodesExtend(t: Tree, code: seq<bool>)
    ensures forall s :: s in Codes(t, code) ==>
      && IsPrefix(code, Codes(t, code)[s])
      && (t.Node? ==> |code| < |Codes(t, code)[s]|)
  {
    match t
    case Leaf(_, _) =>
    case Node(l, r, _) =>
      var cl, cr := code + [false], code + [true];
      CodesExtend(l, cl);
      CodesExtend(r, cr);
      forall s | s in Codes(t, code)
        ensures IsPrefix(code, Codes(t, code)[s]) && |code| < |Codes(t, code)[s]|
      {
        var c := Codes(t, code)[s];
        var sub, cs := if s in Codes(r, cr) then r else l, if s in Codes(r, cr) then cr else cl;
        assert c == Codes(sub, cs)[s];
        assert c[..|cs|] == cs;
        assert c[..|code|] == cs[..|code|];
      }
  }

  /** Each codeword is the path it was called with, followed by a path
      that leads from `t` to a leaf holding that very symbol. Below an
      internal node the added path is never empty. */
  lemma {:induction false} CodesArePaths(t: Tree, code: seq<bool>)
    ensures forall s :: s in Codes(t, code) ==>
      && IsPrefix(code, Codes(t, code)[s])
      && (t.Node? ==> |code| < |Codes(t, code)[s]|)
      && Walk(t, Codes(t, code)[s][|code|..]).Some?
      && Walk(t, Codes(t, code)[s][|code|..]).value.Leaf?
      && Walk(t, Codes(t, code)[s][|code|..]).value.sym == s
  {
    CodesExtend(t, code);
    match t
    case Leaf(_, _) =>
    case Node(l, r, _) =>
      var cl, cr := code + [false], code + [true];
      CodesArePaths(l, cl);
      CodesArePaths(r, cr);
      forall s | s in Codes(t, code)
        ensures Walk(t, Codes(t, code)[s][|code|..]).Some?
        ensures Walk(t, Codes(t, code)[s][|code|..]).value.Leaf?
        ensures Walk(t, Codes(t, code)[s][|code|..]).value.sym == s
      {
        var c := Codes(t, code)[s];
        var sub, cs := if s in Codes(r, cr) then r else l, if s in Codes(r, cr) then cr else cl;
        assert c == Codes(sub, cs)[s];
        assert c[|code|..][0] == cs[|code|];
        assert c[|code|..][1..] == c[|cs|..];
      }
  }

  /** Walking a joined path walks its two parts in turn. */
  lemma {:induction false} WalkAppend(t: Tree, a: seq<bool>, b: seq<bool>)
    requires Walk(t, a).Some?
    ensures Walk(t, a + b) == Walk(Walk(t, a).value, b)
    decreases |a|
  {
    if |a| > 0 {
      assert (a + b)[0] == a[0];
      assert (a + b)[1..] == a[1..] + b;
      WalkAppend(if a[0] then t.right else t.left, a[1..], b);
    } else {
      assert a + b == b;
    }
  }

  /** The code table of any tree is prefix-free. */
  lemma CodeTablePrefixFree(t: Tree)
    ensures PrefixFree(CodeTable(t))
  {
    var codes := CodeTable(t);
    CodesArePaths(t, []);
    forall s1, s2 | s1 in codes && s2 in codes && s1 != s2
      ensures !IsPrefix(codes[s1], codes[s2])
    {
      var c1, c2 := codes[s1], codes[s2];
      assert c1[0..] == c1 && c2[0..] == c2;
      if IsPrefix(c1, c2) {
        assert c2 == c1 + c2[|c1|..];
        WalkAppend(t, c1, c2[|c1|..]);
      }
    }
  }

  /** A lone leaf is coded by the empty path. */
  lemma LeafRootCode(s: Byte, w: nat)
    ensures CodeTable(Leaf(s, w)) == map[s := []]
  {
  }

  /** Every leaf a walk can reach is one of the tree's leaves. */
  lemma {:induction false} WalkReachesLeaf(t: Tree, path: seq<bool>)
    requires Walk(t, path).Some? && Walk(t, path).value.Leaf?
    ensures (Walk(t, path).value.sym, Walk(t, path).value.weight) in Leaves(t)
    decreases |path|
  {
    if |path| > 0 {
      var sub := if path[0] then t.right else t.left;
      WalkReachesLeaf(sub, path[1..]);
    }
  }

  /** The code table as evidently intended: a root that is a lone leaf gets
      the one-bit codeword '0' instead of the empty path, so every input
      byte costs at least one bit. */
  function CodeTableFixed(root: Tree): map<Byte, seq<bool>>
  {
    if root.Leaf? then map[root.sym := [false]] else CodeTable(root)
  }

  /** The intended table codes exactly the tree's symbols, stays
      prefix-free, and no codeword is empty. */
  lemma FixedCodesNonEmpty(root: Tree)
    ensures CodeTableFixed(root).Keys == Symbols(root)
    ensures PrefixFree(CodeTableFixed(root))
    ensures forall s :: s in CodeTableFixed(root) ==> |CodeTableFixed(root)[s]| > 0
  {
    if root.Node? {
      CodesDomain(root, []);
      CodeTablePrefixFree(root);
      CodesArePaths(root, []);
    }
  }
}

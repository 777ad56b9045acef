/** Step 2a: `buildHuffmanTree`. The priority queue is modelled as a
    sequence of candidate trees; extract-min takes the first candidate of
    least weight, and a merged node joins at the back. Equal weights are
    therefore served in queue order, which is the tie-break this model fixes
    (the source leaves it to the heap). */
module TreeBuilder {
  import opened HuffmanTree
  import opened Frequency

  /** `CompareNodes`: true when `lhs` is heavier than `rhs`, which makes the
      `priority_queue` serve the lightest node first. */
  predicate CompareNodes(lhs: Tree, rhs: Tree)
  {
    lhs.weight > rhs.weight
  }

  /** Position of the node `pq.top()` yields: no queued node is lighter, and
      every node before it is strictly heavier (first of the lightest). */
  function TopIndex(q: seq<Tree>): (i: nat)
    requires |q| > 0
    ensures i < |q|
    ensures forall j :: 0 <= j < |q| ==> !CompareNodes(q[i], q[j])
    ensures forall j :: 0 <= j < i ==> CompareNodes(q[j], q[i])
    decreases |q|
  {
    if |q| == 1 then 0
    else
      var k := TopIndex(q[..|q| - 1]);
      if q[|q| - 1].weight < q[k].weight then |q| - 1 else k
  }

  /** All leaves of all queued trees, as (symbol, weight) pairs. */
  function QueueBag(q: seq<Tree>): multiset<(Byte, nat)>
  {
    if |q| == 0 then multiset{} else multiset(Leaves(q[0])) + QueueBag(q[1..])
  }

  /** Sum of the weights of the queued trees. */
  function QueueWeight(q: seq<Tree>): nat
  {
    if |q| == 0 then 0 else q[0].weight + QueueWeight(q[1..])
  }

  predicate AllWellWeighted(q: seq<Tree>)
  {
    forall t :: t in q ==> WellWeighted(t)
  }

  lemma {:induction false} QueueAppend(a: seq<Tree>, b: seq<Tree>)
    ensures QueueBag(a + b) == QueueBag(a) + QueueBag(b)
    ensures QueueWeight(a + b) == QueueWeight(a) + QueueWeight(b)
    decreases |a|
  {
    if |a| == 0 {
      assert a + b == b;
    } else {
      assert (a + b)[1..] == a[1..] + b;
      QueueAppend(a[1..], b);
    }
  }

  lemma QueueSingle(t: Tree)
    ensures QueueBag([t]) == multiset(Leaves(t))
    ensures QueueWeight([t]) == t.weight
  {
    var none: seq<Tree> := [];
    assert [t][1..] == none;
    assert QueueBag(none) == multiset{};
    assert QueueBag([t]) == multiset(Leaves(t)) + QueueBag(none);
  }

  /** Taking out the node at position `i` takes out its leaves... */
  lemma RemoveBag(q: seq<Tree>, i: nat)
    requires i < |q|
    ensures QueueBag(q) == QueueBag(q[..i] + q[i + 1..]) + multiset(Leaves(q[i]))
  {
    var a, t, b := q[..i], q[i], q[i + 1..];
    SplitAt(q, i);
    ConcatBag(a, t, b);
  }

  /** ... and its weight. */
  lemma RemoveWeight(q: seq<Tree>, i: nat)
    requires i < |q|
    ensures QueueWeight(q) == QueueWeight(q[..i] + q[i + 1..]) + q[i].weight
  {
    var a, t, b := q[..i], q[i], q[i + 1..];
    SplitAt(q, i);
    ConcatWeight(a, t, b);
  }

  lemma SplitAt(q: seq<Tree>, i: nat)
    requires i < |q|
    ensures q == (q[..i] + [q[i]]) + q[i + 1..]
  {
  }

  lemma RemoveMultiset(q: seq<Tree>, i: nat)
    requires i < |q|
    ensures multiset(q) == multiset(q[..i] + q[i + 1..]) + multiset{q[i]}
  {
    assert q == q[..i] + [q[i]] + q[i + 1..];
  }

  lemma ConcatBag(a: seq<Tree>, t: Tree, b: seq<Tree>)
    ensures QueueBag((a + [t]) + b) == QueueBag(a + b) + multiset(Leaves(t))
  {
    QueueAppend(a + [t], b);
    QueueAppend(a, b);
    QueueSingle(t);
    QueueAppend(a, [t]);
    BagShuffle(QueueBag(a), multiset(Leaves(t)), QueueBag(b));
  }

  lemma ConcatWeight(a: seq<Tree>, t: Tree, b: seq<Tree>)
    ensures QueueWeight((a + [t]) + b) == QueueWeight(a + b) + t.weight
  {
    QueueAppend(a + [t], b);
    QueueAppend(a, b);
    QueueSingle(t);
    QueueAppend(a, [t]);
  }

  lemma BagShuffle(x: multiset<(Byte, nat)>, y: multiset<(Byte, nat)>, z: multiset<(Byte, nat)>)
    ensures (x + y) + z == (x + z) + y
  {
  }

  /** `pq.top(); pq.pop()`: the lightest node and the queue without it. */
  function PopMin(q: seq<Tree>): (r: (Tree, seq<Tree>))
    requires |q| > 0
    ensures |r.1| == |q| - 1
    ensures multiset(q) == multiset(r.1) + multiset{r.0}
    ensures forall t :: t in q ==> r.0.weight <= t.weight
  {
    var i := TopIndex(q);
    RemoveMultiset(q, i);
    (q[i], q[..i] + q[i + 1..])
  }

  /** Popping moves the popped node's leaves and weight out of the queue. */
  lemma PopKeeps(q: seq<Tree>)
    requires |q| > 0
    ensures QueueBag(q) == QueueBag(PopMin(q).1) + multiset(Leaves(PopMin(q).0))
    ensures QueueWeight(q) == QueueWeight(PopMin(q).1) + PopMin(q).0.weight
  {
    var i := TopIndex(q);
    RemoveBag(q, i);
    RemoveWeight(q, i);
  }

  /** The node built from the two popped nodes (lines 43-46). */
  function Merge(left: Tree, right: Tree): (n: Tree)
    ensures n.Node? && n.left == left && n.right == right
    ensures n.weight == left.weight + right.weight
    ensures WellWeighted(left) && WellWeighted(right) ==> WellWeighted(n)
    ensures Leaves(n) == Leaves(left) + Leaves(right)
  {
    Node(left, right, left.weight + right.weight)
  }

  /** One iteration of the `while (pq.size() > 1)` loop: the two lightest
      nodes leave the queue and their merge joins it. */
  function Step(q: seq<Tree>): (q': seq<Tree>)
    requires |q| >= 2
    ensures |q'| == |q| - 1
  {
    var p1 := PopMin(q);
    var p2 := PopMin(p1.1);
    p2.1 + [Merge(p1.0, p2.0)]
  }

  /** The node an iteration pushes is the merge of two queued nodes, the
      left one no heavier than any queued node and the right one no heavier
      than any node that stays; the rest of the queue is kept. */
  lemma StepMerges(q: seq<Tree>)
    requires |q| >= 2
    ensures var q' := Step(q);
      && q'[|q'| - 1].Node?
      && multiset(q'[..|q'| - 1]) + multiset{q'[|q'| - 1].left, q'[|q'| - 1].right} == multiset(q)
      && (forall t :: t in q ==> q'[|q'| - 1].left.weight <= t.weight)
      && (forall t :: t in q'[..|q'| - 1] ==> q'[|q'| - 1].right.weight <= t.weight)
  {
    var p1 := PopMin(q);
    var p2 := PopMin(p1.1);
    var m := Merge(p1.0, p2.0);
    assert Step(q) == p2.1 + [m];
    assert (p2.1 + [m])[..|p2.1|] == p2.1;
  }

  /** A round keeps the leaves of the queue... */
  lemma StepBag(q: seq<Tree>)
    requires |q| >= 2
    ensures QueueBag(Step(q)) == QueueBag(q)
  {
    var left, q1 := PopMin(q).0, PopMin(q).1;
    var right, q2 := PopMin(q1).0, PopMin(q1).1;
    var m := Merge(left, right);
    assert Step(q) == q2 + [m];
    PopKeeps(q);
    PopKeeps(q1);
    QueueAppend(q2, [m]);
    QueueSingle(m);
  }

  /** ... and their total weight... */
  lemma StepWeight(q: seq<Tree>)
    requires |q| >= 2
    ensures QueueWeight(Step(q)) == QueueWeight(q)
  {
    var left, q1 := PopMin(q).0, PopMin(q).1;
    var right, q2 := PopMin(q1).0, PopMin(q1).1;
    var m := Merge(left, right);
    assert Step(q) == q2 + [m];
    PopKeeps(q);
    PopKeeps(q1);
    QueueAppend(q2, [m]);
    QueueSingle(m);
  }

  /** ... and keeps every candidate well weighted. */
  lemma StepWellWeighted(q: seq<Tree>)
    requires |q| >= 2
    requires AllWellWeighted(q)
    ensures AllWellWeighted(Step(q))
  {
    var q1 := PopMin(q).1;
    PopMembers(q);
    PopMembers(q1);
  }

  /** The popped node and the nodes left behind all come from the queue. */
  lemma PopMembers(q: seq<Tree>)
    requires |q| > 0
    ensures PopMin(q).0 in q
    ensures forall t :: t in PopMin(q).1 ==> t in q
  {
    var r := PopMin(q);
    assert r.0 in multiset(q);
    assert forall t :: t in r.1 ==> t in multiset(q);
  }

  /** The loop run to completion: the one node left is the root (`pq.top()`
      at line 51). */
  function Combine(q: seq<Tree>): Tree
    requires |q| >= 1
    decreases |q|
  {
    if |q| == 1 then q[0] else Combine(Step(q))
  }

  /** Number of iterations the loop performs on queue `q`. */
  function Rounds(q: seq<Tree>): nat
    decreases |q|
  {
    if |q| <= 1 then 0 else 1 + Rounds(Step(q))
  }

  /** With k queued nodes the loop runs k - 1 times. */
  lemma {:induction false} RoundsCount(q: seq<Tree>)
    requires |q| >= 1
    ensures Rounds(q) == |q| - 1
    decreases |q|
  {
    if |q| > 1 {
      RoundsCount(Step(q));
    }
  }

  /** What the loop keeps: the leaves of the queue, and, for well-weighted
      candidates, the total weight and the sum rule at internal nodes. Each
      round adds exactly one internal node. */
  lemma {:induction false} CombineKeeps(q: seq<Tree>)
    requires |q| >= 1
    ensures multiset(Leaves(Combine(q))) == QueueBag(q)
    ensures AllWellWeighted(q) ==> WellWeighted(Combine(q)) && Combine(q).weight == QueueWeight(q)
    decreases |q|
  {
    if |q| == 1 {
      assert q == [] + [q[0]];
      assert QueueBag(q) == multiset(Leaves(q[0]));
      assert QueueWeight(q) == q[0].weight;
      assert q[0] in q;
    } else {
      StepBag(q);
      StepWeight(q);
      if AllWellWeighted(q) {
        StepWellWeighted(q);
      }
      CombineKeeps(Step(q));
    }
  }

  /** The initial queue: one leaf per listed symbol, carrying its count
      (lines 34-36). */
  function Seed(freq: map<Byte, nat>, order: seq<Byte>): (q: seq<Tree>)
    requires forall b :: b in order ==> b in freq
    ensures |q| == |order|
    ensures AllWellWeighted(q)
    decreases |order|
  {
    if |order| == 0 then []
    else
      assert order[0] in order;
      [Leaf(order[0], freq[order[0]])] + Seed(freq, order[1..])
  }

  /** The seeded queue holds exactly one leaf per listed symbol, with that
      symbol's count. */
  lemma {:induction false} SeedBag(freq: map<Byte, nat>, order: seq<Byte>)
    requires Distinct(order)
    requires forall b :: b in order ==> b in freq
    ensures forall p :: p in QueueBag(Seed(freq, order)) ==> p.0 in order && p.1 == freq[p.0]
    ensures forall s :: s in order ==> QueueBag(Seed(freq, order))[(s, freq[s])] == 1
    ensures |QueueBag(Seed(freq, order))| == |order|
    decreases |order|
  {
    if |order| > 0 {
      var x, rest := order[0], order[1..];
      var q := Seed(freq, order);
      assert q[1..] == Seed(freq, rest);
      assert Distinct(rest);
      assert forall b :: b in rest ==> b in order;
      SeedBag(freq, rest);
      assert x !in rest by {
        forall k | 0 <= k < |rest| ensures rest[k] != x {
          assert rest[k] == order[k + 1];
        }
      }
      assert QueueBag(q) == multiset{(x, freq[x])} + QueueBag(Seed(freq, rest));
      forall s | s in order ensures QueueBag(q)[(s, freq[s])] == 1 {
        if s == x {
          assert (s, freq[s]) !in QueueBag(Seed(freq, rest));
        } else {
          assert s in rest;
        }
      }
    }
  }

  /** The seeded queue weighs the sum of the listed counts. */
  lemma {:induction false} SeedWeight(freq: map<Byte, nat>, order: seq<Byte>)
    requires forall b :: b in order ==> b in freq
    ensures QueueWeight(Seed(freq, order)) == CountSum(order, freq)
    decreases |order|
  {
    if |order| > 0 {
      assert Seed(freq, order)[1..] == Seed(freq, order[1..]);
      SeedWeight(freq, order[1..]);
    }
  }

  /** `buildHuffmanTree`: seed the queue in the order the frequency map is
      walked, then merge until one node is left. The frequency map must be
      non-empty: the source calls `pq.top()` on an empty queue otherwise. */
  function BuildTree(freq: map<Byte, nat>, order: seq<Byte>): Tree
    requires |freq| > 0
    requires Enumerates(order, freq)
  {
    EnumerationSize(order, freq);
    Combine(Seed(freq, order))
  }

  /** The tree has one leaf per map entry, carrying that entry's byte and
      count. */
  lemma BuildTreeLeaves(freq: map<Byte, nat>, order: seq<Byte>)
    requires |freq| > 0
    requires Enumerates(order, freq)
    ensures forall p :: p in Leaves(BuildTree(freq, order)) ==> p.0 in freq && p.1 == freq[p.0]
    ensures forall s :: s in freq ==> multiset(Leaves(BuildTree(freq, order)))[(s, freq[s])] == 1
    ensures |Leaves(BuildTree(freq, order))| == |freq|
  {
    EnumerationSize(order, freq);
    var q := Seed(freq, order);
    SeedBag(freq, order);
    CombineKeeps(q);
    var root := Combine(q);
    assert root == BuildTree(freq, order);
    assert forall p :: p in Leaves(root) ==> p in QueueBag(q);
    assert |multiset(Leaves(root))| == |Leaves(root)|;
  }

  /** The tree's symbols are the map's keys, and it has one internal node
      fewer than leaves. */
  lemma BuildTreeShape(freq: map<Byte, nat>, order: seq<Byte>)
    requires |freq| > 0
    requires Enumerates(order, freq)
    ensures Symbols(BuildTree(freq, order)) == freq.Keys
    ensures InternalCount(BuildTree(freq, order)) == |freq| - 1
  {
    var root := BuildTree(freq, order);
    BuildTreeLeaves(freq, order);
    LeafCount(root);
    SymbolsOfLeaves(root);
    assert forall s :: s in freq ==> (s, freq[s]) in Leaves(root) by {
      forall s | s in freq ensures (s, freq[s]) in Leaves(root) {
        assert (s, freq[s]) in multiset(Leaves(root));
      }
    }
  }

  /** Every internal node of the tree weighs the sum of its children, and
      the root weighs the sum of all counts. */
  lemma BuildTreeWeight(freq: map<Byte, nat>, order: seq<Byte>)
    requires |freq| > 0
    requires Enumerates(order, freq)
    ensures WellWeighted(BuildTree(freq, order))
    ensures BuildTree(freq, order).weight == CountSum(order, freq)
  {
    EnumerationSize(order, freq);
    var q := Seed(freq, order);
    SeedWeight(freq, order);
    CombineKeeps(q);
  }
}

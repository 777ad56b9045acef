/** Step 1 of `compressFile`: counting how often each byte occurs, and the
    order in which the counted symbols are handed to the tree builder. */
module Frequency {
  import opened HuffmanTree

  /** The frequency map left by the counting loop: bytes are read one at a
      time and `freqMap[ch]++` default-inserts a zero count before adding
      one. */
  function Count(input: seq<Byte>): (freq: map<Byte, nat>)
    ensures forall b :: b in freq <==> b in input
    ensures forall b :: b in freq ==> freq[b] == multiset(input)[b]
    decreases |input|
  {
    if |input| == 0 then map[]
    else
      var prior := Count(input[..|input| - 1]);
      var ch := input[|input| - 1];
      assert input == input[..|input| - 1] + [ch];
      assert multiset(input) == multiset(input[..|input| - 1]) + multiset{ch};
      assert ch !in prior ==> multiset(input[..|input| - 1])[ch] == 0;
      prior[ch := (if ch in prior then prior[ch] else 0) + 1]
  }

  /** No symbol is listed twice. */
  predicate Distinct(s: seq<Byte>)
  {
    forall i, j :: 0 <= i < j < |s| ==> s[i] != s[j]
  }

  /** `order` lists every key of `freq` exactly once: the shape of one
      pass of a range-for over the frequency map. The order in which an
      `unordered_map` is walked is not fixed, so every such listing is
      admitted. */
  predicate Enumerates(order: seq<Byte>, freq: map<Byte, nat>)
  {
    && Distinct(order)
    && (forall b :: b in freq ==> b in order)
    && (forall b :: b in order ==> b in freq)
  }

  /** The keys of `freq` at or above `lo`, in ascending byte order. */
  function KeysFrom(freq: map<Byte, nat>, lo: nat): (ks: seq<Byte>)
    requires lo <= 256
    ensures forall b :: b in ks <==> b in freq && b as int >= lo
    ensures forall i, j :: 0 <= i < j < |ks| ==> ks[i] < ks[j]
    decreases 256 - lo
  {
    if lo == 256 then []
    else
      var rest := KeysFrom(freq, lo + 1);
      assert forall k :: 0 <= k < |rest| ==> rest[k] as int > lo by {
        forall k | 0 <= k < |rest| ensures rest[k] as int > lo {
          assert rest[k] in rest;
        }
      }
      if lo as Byte in freq then [lo as Byte] + rest else rest
  }

  /** The deterministic walk the model fixes: ascending byte value. */
  function AscendingKeys(freq: map<Byte, nat>): (order: seq<Byte>)
    ensures Enumerates(order, freq)
    ensures forall i, j :: 0 <= i < j < |order| ==> order[i] < order[j]
  {
    KeysFrom(freq, 0)
  }

  /** Total of `counts[b]` over the listed symbols. */
  function MultisetSum(order: seq<Byte>, counts: multiset<Byte>): nat
  {
    if |order| == 0 then 0 else counts[order[0]] + MultisetSum(order[1..], counts)
  }

  lemma {:induction false} MultisetSumAdd(order: seq<Byte>, counts: multiset<Byte>, x: Byte)
    ensures MultisetSum(order, counts + multiset{x}) == MultisetSum(order, counts) + multiset(order)[x]
    decreases |order|
  {
    if |order| > 0 {
      MultisetSumAdd(order[1..], counts, x);
      assert order == [order[0]] + order[1..];
      assert multiset(order) == multiset{order[0]} + multiset(order[1..]);
    }
  }

  lemma {:induction false} DistinctOnce(order: seq<Byte>, x: Byte)
    requires Distinct(order)
    ensures multiset(order)[x] == if x in order then 1 else 0
    decreases |order|
  {
    if |order| > 0 {
      var init, last := order[..|order| - 1], order[|order| - 1];
      assert order == init + [last];
      assert multiset(order) == multiset(init) + multiset{last};
      DistinctOnce(init, x);
      if x == last {
        assert x !in init by {
          forall k | 0 <= k < |init| ensures init[k] != x {
            assert init[k] == order[k];
          }
        }
      }
    }
  }

  /** Summing the occurrence counts over a duplicate-free listing that
      covers the input gives the input length. */
  lemma {:induction false} MultisetSumIsLength(order: seq<Byte>, input: seq<Byte>)
    requires Distinct(order)
    requires forall b :: b in input ==> b in order
    ensures MultisetSum(order, multiset(input)) == |input|
    decreases |input|
  {
    if |input| > 0 {
      var init, x := input[..|input| - 1], input[|input| - 1];
      assert input == init + [x];
      assert multiset(input) == multiset(init) + multiset{x};
      assert x in order;
      assert forall b :: b in init ==> b in input;
      MultisetSumIsLength(order, init);
      MultisetSumAdd(order, multiset(init), x);
      DistinctOnce(order, x);
    } else {
      MultisetSumEmpty(order);
    }
  }

  lemma {:induction false} MultisetSumEmpty(order: seq<Byte>)
    ensures MultisetSum(order, multiset{}) == 0
    decreases |order|
  {
    if |order| > 0 {
      MultisetSumEmpty(order[1..]);
    }
  }

  /** Total of the counts in `freq` over the listed symbols. */
  function CountSum(order: seq<Byte>, freq: map<Byte, nat>): nat
    requires forall b :: b in order ==> b in freq
  {
    if |order| == 0 then 0
    else
      assert order[0] in order;
      freq[order[0]] + CountSum(order[1..], freq)
  }

  /** The counts of all distinct symbols add up to the number of bytes
      read. */
  lemma {:induction false} CountsSumToLength(input: seq<Byte>, order: seq<Byte>)
    requires Enumerates(order, Count(input))
    ensures CountSum(order, Count(input)) == |input|
  {
    SumsAgree(order, input);
    MultisetSumIsLength(order, input);
  }

  lemma {:induction false} SumsAgree(order: seq<Byte>, input: seq<Byte>)
    requires forall b :: b in order ==> b in Count(input)
    ensures CountSum(order, Count(input)) == MultisetSum(order, multiset(input))
    decreases |order|
  {
    if |order| > 0 {
      SumsAgree(order[1..], input);
    }
  }

  /** A duplicate-free listing has as many entries as it has distinct
      members, so a listing of the frequency map has one entry per key. */
  lemma {:induction false} DistinctCard(s: seq<Byte>)
    requires Distinct(s)
    ensures |set b | b in s| == |s|
    decreases |s|
  {
    if |s| > 0 {
      var init, x := s[..|s| - 1], s[|s| - 1];
      DistinctCard(init);
      assert (set b | b in s) == (set b | b in init) + {x};
      assert x !in (set b | b in init);
    }
  }

  lemma EnumerationSize(order: seq<Byte>, freq: map<Byte, nat>)
    requires Enumerates(order, freq)
    ensures |order| == |freq|
  {
    DistinctCard(order);
    assert (set b | b in order) == freq.Keys;
  }
}

/**
 * The frequency constructor of HuffmanCode.java: the greedy Huffman construction over a
 * min-priority queue. The queue is a sequence whose order carries no meaning; removing a
 * minimum may pick any of the lightest nodes, so nothing proved here depends on how ties
 * are broken.
 */
module TreeBuilder {
  import opened HuffmanNodes

  /** The queue as seeded: one leaf per index below `n` whose frequency is at least 1, in index order. */
  function Seeds(freqs: seq<int>, n: nat): seq<Tree>
    requires n <= |freqs|
  {
    if n == 0 then []
    else Seeds(freqs, n - 1) + (if freqs[n - 1] >= 1 then [Leaf(n - 1, freqs[n - 1])] else [])
  }

  /** The symbols of every tree in the queue, one tree after another. */
  function AllSymbols(pq: seq<Tree>): seq<int>
  {
    if pq == [] then [] else AllSymbols(pq[..|pq| - 1]) + Symbols(pq[|pq| - 1])
  }

  /** The total weight of the queue. */
  function SumWeights(pq: seq<Tree>): int
  {
    if pq == [] then 0 else SumWeights(pq[..|pq| - 1]) + Weight(pq[|pq| - 1])
  }

  /** The sum of the frequencies below `n` that are at least 1. */
  function PositiveTotal(freqs: seq<int>, n: nat): int
    requires n <= |freqs|
  {
    if n == 0 then 0
    else PositiveTotal(freqs, n - 1) + (if freqs[n - 1] >= 1 then freqs[n - 1] else 0)
  }

  /** The number of leaves holding symbol `s` that the builder must produce. */
  function Expected(freqs: seq<int>, s: int): nat
  {
    if 0 <= s < |freqs| && freqs[s] >= 1 then 1 else 0
  }

  function RemoveAt(pq: seq<Tree>, i: nat): seq<Tree>
    requires i < |pq|
  {
    pq[..i] + pq[i + 1..]
  }

  lemma {:induction false} ConcatQueues(a: seq<Tree>, b: seq<Tree>)
    ensures AllSymbols(a + b) == AllSymbols(a) + AllSymbols(b)
    ensures SumWeights(a + b) == SumWeights(a) + SumWeights(b)
  {
    if b == [] {
      assert a + b == a;
    } else {
      var ab, init, last := a + b, b[..|b| - 1], b[|b| - 1];
      assert ab[..|ab| - 1] == a + init && ab[|ab| - 1] == last;
      ConcatQueues(a, init);
      assert AllSymbols(ab) == AllSymbols(a + init) + Symbols(last);
      assert SumWeights(ab) == SumWeights(a + init) + Weight(last);
    }
  }

  /** Taking node `i` out of the queue takes exactly its symbols and its weight out. */
  lemma {:induction false} RemoveAtQueue(pq: seq<Tree>, i: nat)
    requires i < |pq|
    ensures multiset(AllSymbols(pq)) == multiset(AllSymbols(RemoveAt(pq, i))) + multiset(Symbols(pq[i]))
    ensures SumWeights(pq) == SumWeights(RemoveAt(pq, i)) + Weight(pq[i])
  {
    assert pq == pq[..i] + ([pq[i]] + pq[i + 1..]);
    ConcatQueues(pq[..i], [pq[i]] + pq[i + 1..]);
    ConcatQueues([pq[i]], pq[i + 1..]);
    ConcatQueues(pq[..i], pq[i + 1..]);
    assert AllSymbols([pq[i]]) == Symbols(pq[i]) by {
      assert [pq[i]][1..] == [];
    }
    assert SumWeights([pq[i]]) == Weight(pq[i]) by {
      assert [pq[i]][1..] == [];
    }
  }

  /** The indices below `n` whose frequency is at least 1, in increasing order. */
  function Positives(freqs: seq<int>, n: nat): seq<int>
    requires n <= |freqs|
  {
    if n == 0 then []
    else Positives(freqs, n - 1) + (if freqs[n - 1] >= 1 then [n - 1] else [])
  }

  /** The seeded queue holds exactly the leaves of the positive indices. */
  lemma {:induction false} SeedsSymbols(freqs: seq<int>, n: nat)
    requires n <= |freqs|
    ensures AllSymbols(Seeds(freqs, n)) == Positives(freqs, n)
  {
    if n > 0 {
      SeedsSymbols(freqs, n - 1);
      if freqs[n - 1] >= 1 {
        var leaf := Leaf(n - 1, freqs[n - 1]);
        assert Seeds(freqs, n) == Seeds(freqs, n - 1) + [leaf];
        assert Seeds(freqs, n)[..|Seeds(freqs, n)| - 1] == Seeds(freqs, n - 1);
        assert AllSymbols(Seeds(freqs, n)) == AllSymbols(Seeds(freqs, n - 1)) + Symbols(leaf);
      } else {
        assert Seeds(freqs, n) == Seeds(freqs, n - 1);
        assert Positives(freqs, n) == Positives(freqs, n - 1);
      }
    }
  }

  /** Every index with frequency at least 1 occurs exactly once among the positive indices, and no other value does. */
  lemma PositivesCount(freqs: seq<int>, n: nat, s: int)
    requires n <= |freqs|
    ensures multiset(Positives(freqs, n))[s] == if 0 <= s < n && freqs[s] >= 1 then 1 else 0
  {
    PositivesOccurrences(freqs, n, s);
    MultisetOccurrences(Positives(freqs, n), s);
  }

  /** How many times `s` occurs in `xs`. */
  function Occurrences(xs: seq<int>, s: int): nat
  {
    if xs == [] then 0 else Occurrences(xs[..|xs| - 1], s) + if xs[|xs| - 1] == s then 1 else 0
  }

  lemma {:induction false} PositivesOccurrences(freqs: seq<int>, n: nat, s: int)
    requires n <= |freqs|
    ensures Occurrences(Positives(freqs, n), s) == if 0 <= s < n && freqs[s] >= 1 then 1 else 0
  {
    if n > 0 {
      PositivesOccurrences(freqs, n - 1, s);
      var rest := Positives(freqs, n - 1);
      if freqs[n - 1] >= 1 {
        assert Positives(freqs, n) == rest + [n - 1];
        assert (rest + [n - 1])[..|rest|] == rest;
      } else {
        assert Positives(freqs, n) == rest;
      }
    }
  }

  lemma {:induction false} MultisetOccurrences(xs: seq<int>, s: int)
    ensures multiset(xs)[s] == Occurrences(xs, s)
  {
    if xs != [] {
      var init := xs[..|xs| - 1];
      MultisetOccurrences(init, s);
      assert xs == init + [xs[|xs| - 1]];
      CountAppend(init, xs[|xs| - 1], s);
    }
  }

  lemma CountAppend(rest: seq<int>, x: int, s: int)
    ensures multiset(rest + [x])[s] == multiset(rest)[s] + if x == s then 1 else 0
  {
    assert multiset(rest + [x]) == multiset(rest) + multiset{x};
  }

  /** Every node in the queue is a full tree whose frequencies the builder accounts for. */
  predicate QueueOk(pq: seq<Tree>, freqs: seq<int>)
  {
    forall t :: t in pq ==> Full(t) && WeightsOk(t, freqs)
  }

  /** The seeded queue weighs the sum of the positive frequencies. */
  lemma {:induction false} SeedsWeight(freqs: seq<int>, n: nat)
    requires n <= |freqs|
    ensures SumWeights(Seeds(freqs, n)) == PositiveTotal(freqs, n)
  {
    if n > 0 {
      SeedsWeight(freqs, n - 1);
      if freqs[n - 1] >= 1 {
        var leaf := Leaf(n - 1, freqs[n - 1]);
        assert Seeds(freqs, n)[..|Seeds(freqs, n)| - 1] == Seeds(freqs, n - 1);
      } else {
        assert Seeds(freqs, n) == Seeds(freqs, n - 1);
      }
    }
  }

  /** The seeded queue is empty exactly when no frequency is at least 1. */
  lemma {:induction false} SeedsEmpty(freqs: seq<int>, n: nat)
    requires n <= |freqs|
    ensures Seeds(freqs, n) == [] <==> forall k :: 0 <= k < n ==> freqs[k] < 1
  {
    if n > 0 {
      SeedsEmpty(freqs, n - 1);
    }
  }

  /** Every seeded leaf is a full tree holding its own frequency. */
  lemma {:induction false} SeedsOk(freqs: seq<int>, n: nat)
    requires n <= |freqs|
    ensures QueueOk(Seeds(freqs, n), freqs)
  {
    if n > 0 {
      SeedsOk(freqs, n - 1);
    }
  }

  lemma {:induction false} RemoveAtOk(pq: seq<Tree>, i: nat, freqs: seq<int>)
    requires i < |pq| && QueueOk(pq, freqs)
    ensures QueueOk(RemoveAt(pq, i), freqs)
  {
    forall t | t in RemoveAt(pq, i) ensures t in pq {
      assert t in pq[..i] || t in pq[i + 1..];
    }
  }

  /** The position of a lightest node: a witness that `MinIndex` always has a choice. */
  ghost function ArgMin(pq: seq<Tree>): (k: nat)
    requires |pq| > 0
    ensures k < |pq|
    ensures forall j :: 0 <= j < |pq| ==> Weight(pq[k]) <= Weight(pq[j])
  {
    if |pq| == 1 then 0
    else
      var m := ArgMin(pq[1..]) + 1;
      assert forall j :: 1 <= j < |pq| ==> pq[j] == pq[1..][j - 1];
      if Weight(pq[0]) <= Weight(pq[m]) then 0 else m
  }

  /**
   * `pq.remove()`: the position of a lightest node. Any lightest node may be chosen;
   * the order among equal weights is deliberately left open.
   */
  method MinIndex(pq: seq<Tree>) returns (i: nat)
    requires |pq| > 0
    ensures i < |pq|
    ensures forall j :: 0 <= j < |pq| ==> CompareTo(pq[i], pq[j]) <= 0
  {
    ghost var k := ArgMin(pq);
    i :| i < |pq| && forall j :: 0 <= j < |pq| ==> Weight(pq[i]) <= Weight(pq[j]);
  }

  /** The seeding loop: one leaf per index whose frequency is at least 1, added in index order. */
  method Seed(frequencies: seq<int>) returns (pq: seq<Tree>)
    ensures pq == Seeds(frequencies, |frequencies|)
    ensures QueueOk(pq, frequencies)
    ensures AllSymbols(pq) == Positives(frequencies, |frequencies|)
    ensures SumWeights(pq) == PositiveTotal(frequencies, |frequencies|)
    ensures pq == [] <==> forall k :: 0 <= k < |frequencies| ==> frequencies[k] < 1
  {
    pq := [];
    for i := 0 to |frequencies|
      invariant pq == Seeds(frequencies, i)
    {
      if frequencies[i] >= 1 {
        pq := pq + [Leaf(i, frequencies[i])];
      }
    }
    SeedsOk(frequencies, |frequencies|);
    SeedsSymbols(frequencies, |frequencies|);
    SeedsWeight(frequencies, |frequencies|);
    SeedsEmpty(frequencies, |frequencies|);
  }

  /**
   * `HuffmanCode(int[] frequencies)`: seed the queue with one leaf per index whose
   * frequency is at least 1, then repeatedly merge the two lightest nodes (the first
   * removed on the left) until at most one node is left; that node, or `Nil`, is the root.
   */
  method Build(frequencies: seq<int>) returns (root: Tree, ghost merged: seq<int>)
    ensures root == Nil <==> forall k :: 0 <= k < |frequencies| ==> frequencies[k] < 1
    ensures root != Nil ==> Full(root) && WeightsOk(root, frequencies)
    ensures root != Nil ==> root.frequency == PositiveTotal(frequencies, |frequencies|)
    ensures forall s :: multiset(Symbols(root))[s] == Expected(frequencies, s)
    ensures root != Nil ==> InternalCount(root) + 1 == |Symbols(root)| == |Positives(frequencies, |frequencies|)|
    ensures root != Nil ==> |merged| + 1 == |Positives(frequencies, |frequencies|)|
    ensures NonDecreasing(merged)
    ensures merged != [] ==> root != Nil && merged[|merged| - 1] == root.frequency
  {
    var pq := Seed(frequencies);
    ghost var seeds := pq;
    ghost var floor := 0;
    merged := [];
    SeedsPositive(frequencies, |frequencies|);
    assert Greedy(pq, merged, floor);

    while |pq| > 1
      invariant |pq| + |merged| == |seeds|
      invariant Greedy(pq, merged, floor)
      invariant QueueOk(pq, frequencies)
      invariant multiset(AllSymbols(pq)) == multiset(AllSymbols(seeds))
      invariant SumWeights(pq) == SumWeights(seeds)
      invariant pq == [] <==> seeds == []
      decreases |pq|
    {
      var i, j; ghost var weight;
      pq, i, j, weight, floor := MergeLightest(pq, frequencies, merged, floor);
      merged := merged + [weight];
    }

    root := if |pq| == 1 then pq[0] else Nil;
    BuiltRoot(frequencies, pq, root);
    BuiltMerges(frequencies, pq, merged, floor, root);
  }

  /** A sequence of weights that never decreases. */
  ghost predicate NonDecreasing(s: seq<int>)
  {
    forall a, b :: 0 <= a < b < |s| ==> s[a] <= s[b]
  }

  /** Every node in the queue weighs at least `floor`. */
  ghost predicate AtLeast(pq: seq<Tree>, floor: int)
  {
    forall t :: t in pq ==> Weight(t) >= floor
  }

  /** One seeded leaf per positive index. */
  lemma {:induction false} SeedsLength(freqs: seq<int>, n: nat)
    requires n <= |freqs|
    ensures |Seeds(freqs, n)| == |Positives(freqs, n)|
  {
    if n > 0 {
      SeedsLength(freqs, n - 1);
    }
  }

  /**
   * What the greedy loop keeps: every queued node weighs at least `floor` (the weight of
   * the heavier node of the last merge), the merged weights so far never decrease, the
   * last of them is at most twice `floor`, and it is the weight of the node last queued.
   */
  ghost predicate Greedy(pq: seq<Tree>, merged: seq<int>, floor: int)
  {
    && 0 <= floor && AtLeast(pq, floor) && NonDecreasing(merged)
    && (merged != [] ==> merged[|merged| - 1] <= 2 * floor && pq != [] && Weight(pq[|pq| - 1]) == merged[|merged| - 1])
  }

  /** Every seeded leaf weighs at least 1. */
  lemma {:induction false} SeedsPositive(freqs: seq<int>, n: nat)
    requires n <= |freqs|
    ensures AtLeast(Seeds(freqs, n), 1)
  {
    if n > 0 {
      SeedsPositive(freqs, n - 1);
    }
  }

  lemma RemoveAtSubset(pq: seq<Tree>, i: nat)
    requires i < |pq|
    ensures forall t :: t in RemoveAt(pq, i) ==> t in pq
  {
    forall t | t in RemoveAt(pq, i) ensures t in pq {
      assert t in pq[..i] || t in pq[i + 1..];
    }
  }

  /**
   * The greedy choice: when the two lightest nodes are merged, every node left weighs at
   * least the second one, and the merged weight is no less than any merged before. So
   * the merged weights come out in non-decreasing order, which merging any other pair
   * need not give.
   */
  lemma GreedyRound(pq: seq<Tree>, i: nat, j: nat, merge: Tree, floor: int, merged: seq<int>)
    requires i < |pq| && j < |pq| - 1
    requires forall k :: 0 <= k < |pq| ==> CompareTo(pq[i], pq[k]) <= 0
    requires forall k :: 0 <= k < |pq| - 1 ==> CompareTo(RemoveAt(pq, i)[j], RemoveAt(pq, i)[k]) <= 0
    requires Weight(merge) == Weight(pq[i]) + Weight(RemoveAt(pq, i)[j])
    requires Greedy(pq, merged, floor)
    ensures Greedy(RemoveAt(RemoveAt(pq, i), j) + [merge], merged + [Weight(merge)], Weight(RemoveAt(pq, i)[j]))
  {
    var first, pq1 := pq[i], RemoveAt(pq, i);
    var second := pq1[j];
    RemoveAtSubset(pq, i);
    RemoveAtSubset(pq1, j);
    assert first in pq && second in pq;
    assert forall t :: t in pq ==> Weight(first) <= Weight(t) by {
      forall t | t in pq ensures Weight(first) <= Weight(t) {
        var k :| 0 <= k < |pq| && pq[k] == t;
        assert CompareTo(first, pq[k]) <= 0;
      }
    }
    assert forall t :: t in pq1 ==> Weight(second) <= Weight(t) by {
      forall t | t in pq1 ensures Weight(second) <= Weight(t) {
        var k :| 0 <= k < |pq1| && pq1[k] == t;
        assert CompareTo(second, pq1[k]) <= 0;
      }
    }
    var rest := RemoveAt(pq1, j);
    forall t | t in rest + [merge] ensures Weight(t) >= Weight(second) {
      if t != merge {
        assert t in rest;
      }
    }
    assert (rest + [merge])[|rest + [merge]| - 1] == merge;
  }

  /**
   * One turn of the loop: remove a lightest node, then a lightest of the rest, and put
   * back their merge, the first removed on the left. The queue loses one node and keeps
   * its shape, symbols and weight; the merged weight extends the non-decreasing record.
   */
  method MergeLightest(pq: seq<Tree>, ghost freqs: seq<int>, ghost merged: seq<int>, ghost floor: int)
    returns (next: seq<Tree>, i: nat, j: nat, ghost weight: int, ghost floor': int)
    requires |pq| > 1 && QueueOk(pq, freqs) && Greedy(pq, merged, floor)
    ensures i < |pq| && j < |pq| - 1
    ensures forall k :: 0 <= k < |pq| ==> CompareTo(pq[i], pq[k]) <= 0
    ensures forall k :: 0 <= k < |pq| - 1 ==> CompareTo(RemoveAt(pq, i)[j], RemoveAt(pq, i)[k]) <= 0
    ensures pq[i].Node? && RemoveAt(pq, i)[j].Node?
    ensures next == RemoveAt(RemoveAt(pq, i), j) + [Merge(pq[i], RemoveAt(pq, i)[j])]
    ensures weight == Weight(pq[i]) + Weight(RemoveAt(pq, i)[j]) && floor' == Weight(RemoveAt(pq, i)[j])
    ensures |next| == |pq| - 1
    ensures QueueOk(next, freqs)
    ensures multiset(AllSymbols(next)) == multiset(AllSymbols(pq))
    ensures SumWeights(next) == SumWeights(pq)
    ensures Greedy(next, merged + [weight], floor')
  {
    i := MinIndex(pq);
    var first := pq[i];
    next := RemoveAt(pq, i);
    j := MinIndex(next);
    var second := next[j];
    next := RemoveAt(next, j);
    MergeKeeps(pq, i, j, freqs);
    var merge := Merge(first, second);
    GreedyRound(pq, i, j, merge, floor, merged);
    next := next + [merge];
    weight, floor' := Weight(merge), Weight(second);
  }

  /** The merges the drained queue records: one fewer than the leaves, in non-decreasing order, the last one the root. */
  lemma BuiltMerges(freqs: seq<int>, pq: seq<Tree>, merged: seq<int>, floor: int, root: Tree)
    requires |pq| <= 1 && |pq| + |merged| == |Seeds(freqs, |freqs|)| && Greedy(pq, merged, floor)
    requires root == if |pq| == 1 then pq[0] else Nil
    requires root != Nil ==> Full(root)
    requires |Symbols(root)| == |Positives(freqs, |freqs|)|
    ensures root != Nil ==> InternalCount(root) + 1 == |Symbols(root)| == |Positives(freqs, |freqs|)|
    ensures root != Nil ==> |merged| + 1 == |Positives(freqs, |freqs|)|
    ensures NonDecreasing(merged)
    ensures merged != [] ==> root != Nil && merged[|merged| - 1] == root.frequency
  {
    SeedsLength(freqs, |freqs|);
    if root != Nil {
      FullTreeCounts(root);
    }
  }

  /** One round of the loop (take out two nodes, put back their merge) keeps the queue's shape, symbols and weight. */
  lemma {:induction false} MergeKeeps(pq: seq<Tree>, i: nat, j: nat, freqs: seq<int>)
    requires QueueOk(pq, freqs) && i < |pq| && j < |pq| - 1
    ensures pq[i].Node? && RemoveAt(pq, i)[j].Node?
    ensures var rest := RemoveAt(RemoveAt(pq, i), j);
            var merged := rest + [Merge(pq[i], RemoveAt(pq, i)[j])];
            && QueueOk(merged, freqs)
            && multiset(AllSymbols(merged)) == multiset(AllSymbols(pq))
            && SumWeights(merged) == SumWeights(pq)
  {
    var first := pq[i];
    assert first in pq;
    RemoveAtQueue(pq, i);
    RemoveAtOk(pq, i, freqs);
    var pq1 := RemoveAt(pq, i);
    var second := pq1[j];
    assert second in pq1;
    RemoveAtQueue(pq1, j);
    RemoveAtOk(pq1, j, freqs);
    var rest := RemoveAt(pq1, j);
    AppendOk(rest, Merge(first, second), freqs);
  }

  /** Adding a merged node back keeps the queue's symbols, weight and shape. */
  lemma {:induction false} AppendOk(pq: seq<Tree>, merge: Tree, freqs: seq<int>)
    requires QueueOk(pq, freqs) && Full(merge) && WeightsOk(merge, freqs)
    ensures QueueOk(pq + [merge], freqs)
    ensures AllSymbols(pq + [merge]) == AllSymbols(pq) + Symbols(merge)
    ensures SumWeights(pq + [merge]) == SumWeights(pq) + Weight(merge)
  {
    assert (pq + [merge])[..|pq|] == pq;
  }

  /** What is left in the drained queue is the whole tree the builder promises. */
  lemma {:induction false} BuiltRoot(freqs: seq<int>, pq: seq<Tree>, root: Tree)
    requires |pq| <= 1 && QueueOk(pq, freqs)
    requires multiset(AllSymbols(pq)) == multiset(AllSymbols(Seeds(freqs, |freqs|)))
    requires SumWeights(pq) == SumWeights(Seeds(freqs, |freqs|))
    requires pq == [] <==> Seeds(freqs, |freqs|) == []
    requires root == if |pq| == 1 then pq[0] else Nil
    ensures root == Nil <==> forall k :: 0 <= k < |freqs| ==> freqs[k] < 1
    ensures root != Nil ==> Full(root) && WeightsOk(root, freqs)
    ensures root != Nil ==> root.frequency == PositiveTotal(freqs, |freqs|)
    ensures forall s :: multiset(Symbols(root))[s] == Expected(freqs, s)
    ensures |Symbols(root)| == |Positives(freqs, |freqs|)|
  {
    SeedsEmpty(freqs, |freqs|);
    SeedsWeight(freqs, |freqs|);
    SeedsSymbols(freqs, |freqs|);
    if |pq| == 1 {
      assert pq[0] in pq;
      assert pq[1..] == [];
      assert AllSymbols(pq) == Symbols(root);
      assert SumWeights(pq) == Weight(root);
    }
    assert |Symbols(root)| == |Positives(freqs, |freqs|)| by {
      assert |multiset(Symbols(root))| == |multiset(AllSymbols(pq))|;
    }
    forall s ensures multiset(Symbols(root))[s] == Expected(freqs, s) {
      PositivesCount(freqs, |freqs|, s);
    }
  }
}

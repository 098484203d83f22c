/**
 * `reduce_huffman_tree`: the greedy merge. While the queue holds more than
 * one tree, the two trees it pops first (the lightest, because the ordering
 * is reversed) become the left and right children of a new tree, which is
 * pushed back.
 */
module Reduce {
  import opened HuffmanTree
  import opened Wrappers
  import opened BinaryHeapModel

  /**
   * One pass of the loop, on the contents of the queue: `a` is a lightest
   * tree of `q`, `b` a lightest of the rest, and both are replaced by their
   * merge with `a` on the left.
   */
  ghost predicate GreedyStep(q: multiset<HuffTree>, a: HuffTree, b: HuffTree, q': multiset<HuffTree>)
  {
    && IsLightest(q, a)
    && IsLightest(q - multiset{a}, b)
    && q' == q - multiset{a} - multiset{b} + multiset{Merge(a, b)}
  }

  /**
   * A run of the loop: `trace` holds the contents of the queue before each
   * pass and after the last, and `merged` the pairs each pass popped.
   */
  ghost predicate GreedyRun(trace: seq<multiset<HuffTree>>, merged: seq<(HuffTree, HuffTree)>)
    decreases |merged|
  {
    && |trace| == |merged| + 1
    && (merged != [] ==>
          var k := |merged| - 1;
          && GreedyRun(trace[..k + 1], merged[..k])
          && GreedyStep(trace[k], merged[k].0, merged[k].1, trace[k + 1]))
  }

  /**
   * A pass takes one tree off the queue, and the two trees it merges weigh
   * no more than any tree left behind in the queue.
   */
  lemma {:induction false} GreedyStepShrinks(q: multiset<HuffTree>, a: HuffTree, b: HuffTree, q': multiset<HuffTree>)
    requires GreedyStep(q, a, b, q')
    ensures |q'| == |q| - 1
    ensures a.weight <= b.weight
    ensures forall x :: x in q - multiset{a} - multiset{b} ==> a.weight <= x.weight && b.weight <= x.weight
  {
    RebalanceSize(q, a, b, Merge(a, b), q');
  }

  /**
   * A whole reduction: a run of greedy passes that starts from the queue
   * `start` and ends with `tree` alone in the queue.
   */
  ghost predicate GreedyReduction(start: multiset<HuffTree>, tree: HuffTree,
                                  trace: seq<multiset<HuffTree>>, merged: seq<(HuffTree, HuffTree)>)
  {
    && GreedyRun(trace, merged)
    && trace[0] == start
    && trace[|trace| - 1] == multiset{tree}
  }

  /** After `k` passes the queue holds `k` trees fewer than at the start. */
  lemma {:induction false} GreedyRunLength(trace: seq<multiset<HuffTree>>, merged: seq<(HuffTree, HuffTree)>)
    requires GreedyRun(trace, merged)
    ensures |trace[|trace| - 1]| == |trace[0]| - |merged|
  {
    if merged != [] {
      var k := |merged| - 1;
      GreedyRunLength(trace[..k + 1], merged[..k]);
      GreedyStepShrinks(trace[k], merged[k].0, merged[k].1, trace[k + 1]);
    }
  }

  /** A run followed by one more pass is a run. */
  lemma GreedyRunExtend(trace: seq<multiset<HuffTree>>, merged: seq<(HuffTree, HuffTree)>,
                        a: HuffTree, b: HuffTree, q: multiset<HuffTree>)
    requires GreedyRun(trace, merged)
    requires GreedyStep(trace[|trace| - 1], a, b, q)
    ensures GreedyRun(trace + [q], merged + [(a, b)])
  {
    var trace', merged' := trace + [q], merged + [(a, b)];
    assert trace'[..|merged| + 1] == trace && merged'[..|merged|] == merged;
  }

  /** The queue after a pass, with the two popped trees put back, is the queue before it with the merge added. */
  lemma {:induction false} MergeRebalances(before: seq<HuffTree>, a: HuffTree, b: HuffTree, after: seq<HuffTree>)
    requires GreedyStep(multiset(before), a, b, multiset(after))
    ensures multiset(after + [a, b]) == multiset(before + [Merge(a, b)])
  {
    Rebalance(multiset(before), a, b, Merge(a, b), multiset(after));
    assert multiset(after + [a, b]) == multiset(after) + multiset{a, b};
    assert multiset(before + [Merge(a, b)]) == multiset(before) + multiset{Merge(a, b)};
  }

  lemma Rebalance<T>(q: multiset<T>, a: T, b: T, m: T, q': multiset<T>)
    requires a in q && b in q - multiset{a}
    requires q' == q - multiset{a} - multiset{b} + multiset{m}
    ensures q' + multiset{a, b} == q + multiset{m}
  {
    forall x ensures (q' + multiset{a, b})[x] == (q + multiset{m})[x] {
      RebalanceAt(q, a, b, m, q', x);
    }
  }

  /** Rebalance, for the multiplicity of one element. */
  lemma RebalanceAt<T>(q: multiset<T>, a: T, b: T, m: T, q': multiset<T>, x: T)
    requires a in q && b in q - multiset{a}
    requires q' == q - multiset{a} - multiset{b} + multiset{m}
    ensures (q' + multiset{a, b})[x] == (q + multiset{m})[x]
  {
    var r := q - multiset{a};
    assert r[x] == q[x] - multiset{a}[x];
    assert (r - multiset{b})[x] == r[x] - multiset{b}[x];
  }

  lemma RebalanceSize<T>(q: multiset<T>, a: T, b: T, m: T, q': multiset<T>)
    requires a in q && b in q - multiset{a}
    requires q' == q - multiset{a} - multiset{b} + multiset{m}
    ensures |q'| == |q| - 1
  {
    Rebalance(q, a, b, m, q');
    assert |q' + multiset{a, b}| == |q'| + 2;
  }

  /**
   * A pass conserves the total weight, the leaves and the well-formedness of
   * the trees in the queue, and the queue shrinks by one.
   */
  lemma {:induction false} MergeConserves(before: seq<HuffTree>, a: HuffTree, b: HuffTree, after: seq<HuffTree>)
    requires GreedyStep(multiset(before), a, b, multiset(after))
    ensures |after| == |before| - 1
    ensures TotalWeight(after) == TotalWeight(before)
    ensures ForestLeaves(after) == ForestLeaves(before)
    ensures ForestLeafBytes(after) == ForestLeafBytes(before)
    ensures (forall t :: t in before ==> WellFormed(t)) ==> forall t :: t in after ==> WellFormed(t)
  {
    GreedyStepShrinks(multiset(before), a, b, multiset(after));
    MergeRebalances(before, a, b, after);
    ReplacedMeasures(before, a, b, after);
    ReplacedWellFormed(before, a, b, after);
  }

  lemma {:induction false} ReplacedMeasures(before: seq<HuffTree>, a: HuffTree, b: HuffTree, after: seq<HuffTree>)
    requires multiset(after + [a, b]) == multiset(before + [Merge(a, b)])
    ensures TotalWeight(after) == TotalWeight(before)
    ensures ForestLeaves(after) == ForestLeaves(before)
    ensures ForestLeafBytes(after) == ForestLeafBytes(before)
  {
    var m := Merge(a, b);
    ForestPermutation(after + [a, b], before + [m]);
    ForestAppend(after, [a, b]);
    ForestAppend(before, [m]);
    PairMeasures(a, b);
    Cancel(ForestLeaves(after), ForestLeaves(before), ForestLeaves([m]));
    Cancel(ForestLeafBytes(after), ForestLeafBytes(before), ForestLeafBytes([m]));
  }

  /** The two popped trees measure, as a forest, what their merge measures. */
  lemma PairMeasures(a: HuffTree, b: HuffTree)
    ensures TotalWeight([a, b]) == TotalWeight([Merge(a, b)])
    ensures ForestLeaves([a, b]) == ForestLeaves([Merge(a, b)])
    ensures ForestLeafBytes([a, b]) == ForestLeafBytes([Merge(a, b)])
  {
    var m := Merge(a, b);
    assert [a, b] == [a] + [b];
    ForestAppend([a], [b]);
    SingletonForest(a);
    SingletonForest(b);
    SingletonForest(m);
    MergeKeepsLeaves(a, b);
  }

  lemma {:induction false} ReplacedWellFormed(before: seq<HuffTree>, a: HuffTree, b: HuffTree, after: seq<HuffTree>)
    requires multiset(after + [a, b]) == multiset(before + [Merge(a, b)])
    requires a in before && b in before
    ensures (forall t :: t in before ==> WellFormed(t)) ==> forall t :: t in after ==> WellFormed(t)
  {
    MergeKeepsLeaves(a, b);
    forall t | t in after ensures t == Merge(a, b) || t in before {
      assert t in multiset(after + [a, b]);
    }
  }

  lemma Cancel<T>(x: multiset<T>, y: multiset<T>, z: multiset<T>)
    requires x + z == y + z
    ensures x == y
  {
    assert x == x + z - z;
    assert y == y + z - z;
  }

  lemma PopShrinks(before: seq<HuffTree>, a: HuffTree, rest: seq<HuffTree>)
    requires a in before
    requires multiset(rest) == multiset(before) - multiset{a}
    ensures |rest| == |before| - 1
  {
    assert a in multiset(before);
    assert multiset(before) == multiset(rest) + multiset{a};
    assert |multiset(before)| == |multiset(rest)| + 1;
  }

  /** Two pops and a push of the merge, as the loop body does them, make a greedy step. */
  lemma PassIsGreedyStep(before: seq<HuffTree>, a: HuffTree, rest: seq<HuffTree>, b: HuffTree, after: seq<HuffTree>)
    requires IsGreatest(before, a)
    requires multiset(rest) == multiset(before) - multiset{a}
    requires IsGreatest(rest, b)
    requires multiset(after) == multiset(rest) - multiset{b} + multiset{Merge(a, b)}
    ensures GreedyStep(multiset(before), a, b, multiset(after))
  {
    GreatestIsLightest(before, a);
    GreatestIsLightest(rest, b);
  }

  /**
   * What the loop keeps: `trace`/`merged` record a greedy run from the input
   * forest to the queue's contents `elems`, and the queue weighs, and holds
   * the leaves, that the input forest did.
   */
  ghost predicate ReductionInvariant(trees: seq<HuffTree>, elems: seq<HuffTree>,
                                     trace: seq<multiset<HuffTree>>, merged: seq<(HuffTree, HuffTree)>)
  {
    && elems != []
    && GreedyRun(trace, merged)
    && trace[0] == multiset(trees)
    && trace[|trace| - 1] == multiset(elems)
    && |merged| + |elems| == |trees|
    && TotalWeight(elems) == TotalWeight(trees)
    && ForestLeaves(elems) == ForestLeaves(trees)
    && ForestLeafBytes(elems) == ForestLeafBytes(trees)
    && ((forall t :: t in trees ==> WellFormed(t)) ==> forall t :: t in elems ==> WellFormed(t))
  }

  /**
   * One pass of the loop: pop two trees, push their merge. The queue's new
   * contents are one greedy step from the old ones, and the run is extended
   * by that step.
   */
  method MergeLightestTwo(queue: BinaryHeap, ghost trees: seq<HuffTree>,
                          ghost trace: seq<multiset<HuffTree>>, ghost merged: seq<(HuffTree, HuffTree)>)
    returns (ghost trace': seq<multiset<HuffTree>>, ghost merged': seq<(HuffTree, HuffTree)>)
    requires |queue.elems| > 1
    requires ReductionInvariant(trees, queue.elems, trace, merged)
    modifies queue
    ensures ReductionInvariant(trees, queue.elems, trace', merged')
    ensures |queue.elems| == |old(queue.elems)| - 1
    ensures trace' == trace + [multiset(queue.elems)] && |merged'| == |merged| + 1
  {
    ghost var before := queue.elems;
    var first := queue.Pop();
    ghost var rest := queue.elems;
    PopShrinks(before, first.value, rest);
    var second := queue.Pop();
    var treeA, treeB := first.value, second.value;
    queue.Push(Merge(treeA, treeB));
    PassIsGreedyStep(before, treeA, rest, treeB, queue.elems);
    MergeConserves(before, treeA, treeB, queue.elems);
    GreedyRunExtend(trace, merged, treeA, treeB, multiset(queue.elems));
    trace', merged' := trace + [multiset(queue.elems)], merged + [(treeA, treeB)];
  }

  /** Before the first pass the queue holds the input forest. */
  lemma ReductionStarts(trees: seq<HuffTree>)
    requires trees != []
    ensures ReductionInvariant(trees, trees, [multiset(trees)], [])
  {
  }

  /** When one tree is left, the invariant is the contract of the reduction. */
  lemma ReductionFinished(trees: seq<HuffTree>, elems: seq<HuffTree>, tree: HuffTree,
                          trace: seq<multiset<HuffTree>>, merged: seq<(HuffTree, HuffTree)>)
    requires ReductionInvariant(trees, elems, trace, merged)
    requires elems == [tree]
    ensures GreedyRun(trace, merged)
    ensures trace[0] == multiset(trees) && trace[|trace| - 1] == multiset{tree}
    ensures |merged| == |trees| - 1
    ensures tree.weight == TotalWeight(trees)
    ensures Leaves(tree) == ForestLeaves(trees)
    ensures LeafBytes(tree) == ForestLeafBytes(trees)
    ensures (forall t :: t in trees ==> WellFormed(t)) ==> WellFormed(tree)
  {
    SingletonForest(tree);
  }

  method ReduceHuffmanTree(trees: seq<HuffTree>)
    returns (tree: HuffTree, ghost trace: seq<multiset<HuffTree>>, ghost merged: seq<(HuffTree, HuffTree)>)
    requires trees != []
    ensures GreedyRun(trace, merged)
    ensures trace[0] == multiset(trees) && trace[|trace| - 1] == multiset{tree}
    ensures |merged| == |trees| - 1
    ensures tree.weight == TotalWeight(trees)
    ensures Leaves(tree) == ForestLeaves(trees)
    ensures LeafBytes(tree) == ForestLeafBytes(trees)
    ensures (forall t :: t in trees ==> WellFormed(t)) ==> WellFormed(tree)
  {
    var queue := new BinaryHeap.FromVec(trees);
    trace, merged := [multiset(trees)], [];
    ReductionStarts(trees);
    while queue.Len() > 1
      invariant ReductionInvariant(trees, queue.elems, trace, merged)
      decreases |queue.elems|
    {
      trace, merged := MergeLightestTwo(queue, trees, trace, merged);
    }
    ghost var final := queue.elems;
    assert final == [final[0]];
    var last := queue.Pop();
    tree := last.value;
    ReductionFinished(trees, final, tree, trace, merged);
  }
}

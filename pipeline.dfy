/**
 * `make_huffman_tree` (src/encoder.rs): count the bytes, make a leaf per
 * count, merge the leaves into one tree.
 */
module Pipeline {
  import opened HuffmanTree
  import opened Frequencies
  import opened Reduce
  import opened EncodingTable

  /**
   * The tree built from `bytes`. `order` is the order in which the count
   * table yields its entries. Because the table is seeded with the keys
   * 0 to 254 only, the tree has one leaf for each of those bytes (weighted by
   * its count, which may be 0) and none for byte 255, whose occurrences are
   * not counted. The ghost `trace` and `merged` record the reduction: 254
   * greedy passes, each merging two lightest trees, lead from those leaves
   * to the tree.
   */
  method MakeHuffmanTree(bytes: seq<Byte>, order: seq<Byte>)
    returns (tree: HuffTree, ghost trace: seq<multiset<HuffTree>>, ghost merged: seq<(HuffTree, HuffTree)>)
    requires IsEnumeration(order, SeededKeys())
    ensures GreedyReduction(SeededLeaves(bytes), tree, trace, merged)
    ensures |merged| == 254
    ensures WellFormed(tree)
    ensures tree.node.Tree?
    ensures tree.weight == |bytes| - multiset(bytes)[255]
    ensures forall b: Byte :: LeafBytes(tree)[b] == if IsSeeded(b) then 1 else 0
    ensures forall t :: t in Leaves(tree) <==>
      t.node.Leaf? && IsSeeded(t.node.byte) && t.weight == multiset(bytes)[t.node.byte]
  {
    var counts := ByteFrequencies(bytes);
    var trees := FrequenciesToTrees(counts, order);
    SeededKeyCount();
    tree, trace, merged := ReduceHuffmanTree(trees);
    SeededForestIsSeededLeaves(bytes, counts, trees);
    BuiltTree(bytes, order, counts, trees, tree);
  }

  /**
   * The forest the reduction starts from: one leaf per byte 0..254, weighted
   * by its occurrences. It names the forest without the table's iteration
   * order, which only permutes it.
   */
  ghost function SeededLeaves(bytes: seq<Byte>): multiset<HuffTree>
  {
    multiset(set b: Byte | IsSeeded(b) :: HuffTree(multiset(bytes)[b], Leaf(b)))
  }

  /** Whatever the iteration order, the forest made from the table holds the seeded leaves. */
  lemma SeededForestIsSeededLeaves(bytes: seq<Byte>, counts: map<Byte, nat>, trees: seq<HuffTree>)
    requires counts.Keys == SeededKeys()
    requires forall b :: b in counts ==> counts[b] == multiset(bytes)[b]
    requires forall t: HuffTree :: t in trees <==>
      t.node.Leaf? && t.node.byte in counts && t.weight == counts[t.node.byte]
    requires forall i, j :: 0 <= i < j < |trees| ==> trees[i] != trees[j]
    ensures multiset(trees) == SeededLeaves(bytes)
  {
    var leaves := set b: Byte | IsSeeded(b) :: HuffTree(multiset(bytes)[b], Leaf(b));
    DistinctOccurrences(trees);
    forall t ensures multiset(trees)[t] == multiset(leaves)[t] {
      if t in trees {
        assert IsSeeded(t.node.byte) by { assert t.node.byte in SeededKeys(); }
        assert t == HuffTree(multiset(bytes)[t.node.byte], Leaf(t.node.byte));
        assert t in leaves;
      }
    }
  }

  /** What the three stages together guarantee of the tree. */
  lemma BuiltTree(bytes: seq<Byte>, order: seq<Byte>, counts: map<Byte, nat>,
                  trees: seq<HuffTree>, tree: HuffTree)
    requires IsEnumeration(order, SeededKeys())
    requires counts.Keys == SeededKeys()
    requires forall b :: b in counts ==> counts[b] == multiset(bytes)[b]
    requires |trees| == |order|
    requires forall i :: 0 <= i < |order| ==> trees[i].node == Leaf(order[i]) && trees[i].weight == counts[order[i]]
    requires forall t: HuffTree :: t in trees <==>
      t.node.Leaf? && t.node.byte in counts && t.weight == counts[t.node.byte]
    requires tree.weight == TotalWeight(trees)
    requires Leaves(tree) == ForestLeaves(trees)
    requires LeafBytes(tree) == ForestLeafBytes(trees)
    requires (forall t :: t in trees ==> WellFormed(t)) ==> WellFormed(tree)
    ensures WellFormed(tree)
    ensures tree.node.Tree?
    ensures tree.weight == |bytes| - multiset(bytes)[255]
    ensures forall b: Byte :: LeafBytes(tree)[b] == if IsSeeded(b) then 1 else 0
    ensures forall t :: t in Leaves(tree) <==>
      t.node.Leaf? && IsSeeded(t.node.byte) && t.weight == multiset(bytes)[t.node.byte]
  {
    SeededForestWeight(bytes, order, trees);
    SeededForestBytes(order, trees);
    assert tree.node.Tree? by {
      assert LeafBytes(tree)[0] == 1 && LeafBytes(tree)[1] == 1;
    }
    SeededForestLeaves(bytes, counts, trees, Leaves(tree));
  }

  /** The leaves made from the seeded table are one per seeded byte, weighted by its count. */
  lemma SeededForestLeaves(bytes: seq<Byte>, counts: map<Byte, nat>, trees: seq<HuffTree>,
                           leaves: multiset<HuffTree>)
    requires counts.Keys == SeededKeys()
    requires forall b :: b in counts ==> counts[b] == multiset(bytes)[b]
    requires forall i :: 0 <= i < |trees| ==> trees[i].node.Leaf?
    requires forall t: HuffTree :: t in trees <==>
      t.node.Leaf? && t.node.byte in counts && t.weight == counts[t.node.byte]
    requires leaves == ForestLeaves(trees)
    ensures forall t :: t in leaves <==>
      t.node.Leaf? && IsSeeded(t.node.byte) && t.weight == multiset(bytes)[t.node.byte]
  {
    LeafForestLeaves(trees);
    forall t ensures t in leaves <==>
      t.node.Leaf? && IsSeeded(t.node.byte) && t.weight == multiset(bytes)[t.node.byte]
    {
      assert t in leaves <==> t in trees;
      if t.node.Leaf? {
        assert t.node.byte in counts <==> IsSeeded(t.node.byte);
      }
    }
  }

  /** The leaves made from the seeded table weigh as much as the counted bytes. */
  lemma SeededForestWeight(bytes: seq<Byte>, order: seq<Byte>, trees: seq<HuffTree>)
    requires IsEnumeration(order, SeededKeys())
    requires |trees| == |order|
    requires forall i :: 0 <= i < |order| ==> trees[i].weight == multiset(bytes)[order[i]]
    ensures TotalWeight(trees) == |bytes| - multiset(bytes)[255]
  {
    LeafForestWeight(trees, bytes, order);
    CountOverSeeded(bytes, order);
  }

  /** The leaves made from the seeded table hold each seeded byte once. */
  lemma SeededForestBytes(order: seq<Byte>, trees: seq<HuffTree>)
    requires IsEnumeration(order, SeededKeys())
    requires |trees| == |order|
    requires forall i :: 0 <= i < |order| ==> trees[i].node == Leaf(order[i])
    ensures forall b: Byte :: ForestLeafBytes(trees)[b] == if IsSeeded(b) then 1 else 0
  {
    LeafForestBytes(trees, order);
    DistinctOccurrences(order);
    forall b: Byte ensures ForestLeafBytes(trees)[b] == if IsSeeded(b) then 1 else 0 {
      assert b in order <==> b in SeededKeys();
    }
  }

  /**
   * In a tree the pipeline builds, exactly the bytes other than 255 have a
   * code, and no code is a prefix of another.
   */
  lemma BuiltTreeCodes(tree: HuffTree)
    requires forall b: Byte :: LeafBytes(tree)[b] == if IsSeeded(b) then 1 else 0
    ensures Codes(tree).Keys == SeededKeys()
    ensures PrefixFree(Codes(tree))
  {
    forall b: Byte ensures b in Codes(tree) <==> b in SeededKeys() {
      assert b in SeededKeys() <==> IsSeeded(b);
    }
    CodesArePrefixFree(tree);
  }

  /**
   * In a tree the pipeline builds, a path from the root to a leaf is the
   * code of that leaf's byte, and that byte is not 255.
   */
  lemma BuiltTreePaths(tree: HuffTree, path: Code, b: Byte)
    requires forall b: Byte :: LeafBytes(tree)[b] == if IsSeeded(b) then 1 else 0
    requires Descend(tree, path).Some? && Descend(tree, path).value.node == Leaf(b)
    ensures IsSeeded(b)
    ensures b in Codes(tree) && Codes(tree)[b] == path
  {
    DescendFindsLeafByte(tree, path, b);
    CodeIsThePath(tree, path, b);
  }
}

/**
 * The tree that the encoder builds (src/encoder.rs, `HuffTree`, `HuffNode`
 * and `HuffTreeData`), the weight-only ordering the priority queue uses,
 * and the measures of a tree and of a forest that the proofs speak about.
 */
module HuffmanTree {

  /** A byte value, Rust's `u8`. */
  type Byte = x: int | 0 <= x < 256

  /**
   * A weighted tree. The weight of a leaf is the count of its byte; the
   * weight of an internal node is meant to be the sum of its children's
   * (see WellFormed). The source's `int` weight is unbounded here.
   */
  datatype HuffTree = HuffTree(weight: nat, node: HuffNode)

  /** `HuffNode`; the `Tree` variant carries the two fields of `HuffTreeData`. */
  datatype HuffNode =
    | Tree(left: HuffTree, right: HuffTree)
    | Leaf(byte: Byte)

  /** Rust's `std::cmp::Ordering`. */
  datatype Ordering = Less | Equal | Greater

  /** `cmp` on integers. */
  function CompareInt(x: int, y: int): Ordering
  {
    if x < y then Less else if x == y then Equal else Greater
  }

  /** `Ordering::reverse`. */
  function Reverse(o: Ordering): Ordering
  {
    match o
    case Less => Greater
    case Equal => Equal
    case Greater => Less
  }

  /**
   * `Ord for HuffTree`: the comparison of weights, reversed, so that a
   * lighter tree is "greater". Only the weight takes part: trees of equal
   * weight compare `Equal`, as `PartialEq` says, whatever their shape.
   */
  function Cmp(a: HuffTree, b: HuffTree): (o: Ordering)
    ensures o == Greater <==> a.weight < b.weight
    ensures o == Less <==> b.weight < a.weight
    ensures o == Equal <==> a.weight == b.weight
  {
    Reverse(CompareInt(a.weight, b.weight))
  }

  /** The tree the reduction loop pushes: `a` on the left, `b` on the right. */
  function Merge(a: HuffTree, b: HuffTree): HuffTree
  {
    HuffTree(a.weight + b.weight, Tree(a, b))
  }

  /** Every internal node weighs as much as its two children together. */
  ghost predicate WellFormed(t: HuffTree)
  {
    match t.node
    case Leaf(_) => true
    case Tree(l, r) => t.weight == l.weight + r.weight && WellFormed(l) && WellFormed(r)
  }

  /** The leaves of a tree, as whole leaf trees (byte and weight). */
  function Leaves(t: HuffTree): multiset<HuffTree>
  {
    match t.node
    case Leaf(_) => multiset{t}
    case Tree(l, r) => Leaves(l) + Leaves(r)
  }

  /** The bytes at the leaves of a tree, with their multiplicity. */
  function LeafBytes(t: HuffTree): multiset<Byte>
  {
    match t.node
    case Leaf(b) => multiset{b}
    case Tree(l, r) => LeafBytes(l) + LeafBytes(r)
  }

  /** The sum of the weights of a tree's leaves. */
  function LeafWeightSum(t: HuffTree): nat
  {
    match t.node
    case Leaf(_) => t.weight
    case Tree(l, r) => LeafWeightSum(l) + LeafWeightSum(r)
  }

  /** A well-formed tree weighs as much as all its leaves together. */
  lemma {:induction false} RootWeightIsLeafSum(t: HuffTree)
    requires WellFormed(t)
    ensures t.weight == LeafWeightSum(t)
  {
    match t.node
    case Leaf(_) =>
    case Tree(l, r) =>
      RootWeightIsLeafSum(l);
      RootWeightIsLeafSum(r);
  }

  /** A merge keeps well-formedness and joins the leaves of both trees. */
  lemma {:induction false} MergeKeepsLeaves(a: HuffTree, b: HuffTree)
    ensures WellFormed(a) && WellFormed(b) ==> WellFormed(Merge(a, b))
    ensures Leaves(Merge(a, b)) == Leaves(a) + Leaves(b)
    ensures LeafBytes(Merge(a, b)) == LeafBytes(a) + LeafBytes(b)
  {
  }

  // Measures of a forest, the contents of the priority queue.

  function TotalWeight(ts: seq<HuffTree>): nat
  {
    if ts == [] then 0 else ts[0].weight + TotalWeight(ts[1..])
  }

  function ForestLeaves(ts: seq<HuffTree>): multiset<HuffTree>
  {
    if ts == [] then multiset{} else Leaves(ts[0]) + ForestLeaves(ts[1..])
  }

  function ForestLeafBytes(ts: seq<HuffTree>): multiset<Byte>
  {
    if ts == [] then multiset{} else LeafBytes(ts[0]) + ForestLeafBytes(ts[1..])
  }

  /** A forest of one tree measures what the tree does. */
  lemma SingletonForest(t: HuffTree)
    ensures TotalWeight([t]) == t.weight
    ensures ForestLeaves([t]) == Leaves(t)
    ensures ForestLeafBytes([t]) == LeafBytes(t)
  {
    assert [t][1..] == [];
    assert ForestLeaves([t]) == Leaves(t) + ForestLeaves([]);
    assert ForestLeafBytes([t]) == LeafBytes(t) + ForestLeafBytes([]);
  }

  /** The measures of a concatenation are the sums of the parts' measures. */
  lemma {:induction false} ForestAppend(s: seq<HuffTree>, t: seq<HuffTree>)
    ensures TotalWeight(s + t) == TotalWeight(s) + TotalWeight(t)
    ensures ForestLeaves(s + t) == ForestLeaves(s) + ForestLeaves(t)
    ensures ForestLeafBytes(s + t) == ForestLeafBytes(s) + ForestLeafBytes(t)
  {
    if s != [] {
      assert (s + t)[1..] == s[1..] + t;
      ForestAppend(s[1..], t);
    } else {
      assert s + t == t;
    }
  }

  /** Taking the `i`-th tree out of a forest takes out its share of each measure. */
  lemma {:induction false} ForestRemoveAt(t: seq<HuffTree>, i: nat)
    requires i < |t|
    ensures multiset(t[..i] + t[i+1..]) == multiset(t) - multiset{t[i]}
    ensures TotalWeight(t) == t[i].weight + TotalWeight(t[..i] + t[i+1..])
    ensures ForestLeaves(t) == Leaves(t[i]) + ForestLeaves(t[..i] + t[i+1..])
    ensures ForestLeafBytes(t) == LeafBytes(t[i]) + ForestLeafBytes(t[..i] + t[i+1..])
  {
    var front, x, back := t[..i], t[i], t[i+1..];
    assert t == front + [x] + back;
    assert multiset(t) == multiset(front) + multiset{x} + multiset(back);
    SingletonForest(x);
    ForestAppend(front, [x]);
    ForestAppend(front + [x], back);
    ForestAppend(front, back);
    UnionSwap(ForestLeaves(front), Leaves(x), ForestLeaves(back));
    UnionSwap(ForestLeafBytes(front), LeafBytes(x), ForestLeafBytes(back));
    UnionSwap(multiset(front), multiset{x}, multiset(back));
  }

  /** Reordering a union of three multisets, and taking the middle one back out. */
  lemma UnionSwap<T>(p: multiset<T>, q: multiset<T>, r: multiset<T>)
    ensures p + q + r == q + (p + r)
    ensures p + q + r - q == p + r
  {
    forall y ensures (p + q + r)[y] == (q + (p + r))[y] {
    }
    forall y ensures (p + q + r - q)[y] == (p + r)[y] {
    }
  }

  /**
   * The measures of a forest depend only on which trees it holds, not on
   * their order: a priority queue may keep them in any order.
   */
  lemma {:induction false} ForestPermutation(s: seq<HuffTree>, t: seq<HuffTree>)
    requires multiset(s) == multiset(t)
    ensures TotalWeight(s) == TotalWeight(t)
    ensures ForestLeaves(s) == ForestLeaves(t)
    ensures ForestLeafBytes(s) == ForestLeafBytes(t)
    decreases |s|
  {
    if s == [] {
      assert |t| == |multiset(t)| == 0;
    } else {
      var x := s[0];
      assert x in t by { assert x in multiset(t); }
      var i :| 0 <= i < |t| && t[i] == x;
      var rest := t[..i] + t[i+1..];
      assert multiset(s[1..]) == multiset(s) - multiset{x} by {
        assert s == [x] + s[1..];
      }
      ForestRemoveAt(t, i);
      ForestPermutation(s[1..], rest);
      assert TotalWeight(s) == x.weight + TotalWeight(s[1..]);
      assert ForestLeaves(s) == Leaves(x) + ForestLeaves(s[1..]);
      assert ForestLeafBytes(s) == LeafBytes(x) + ForestLeafBytes(s[1..]);
    }
  }
}

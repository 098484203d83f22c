/**
 * The first two stages of the encoder: counting bytes (`byte_frequenies`)
 * and turning the count table into a forest of leaves
 * (`frequencies_to_trees`).
 */
module Frequencies {
  import opened HuffmanTree

  /**
   * The keys the count table is seeded with. The source writes
   * `range(0, 255u8)`, a half-open range, so byte 255 is never seeded; the
   * model keeps that off-by-one and the lemmas below show its effect.
   */
  ghost function SeededKeys(): set<Byte>
  {
    set b: Byte | IsSeeded(b)
  }

  /** Whether `range(0, 255u8)` yields `b`. */
  predicate IsSeeded(b: Byte)
  {
    b < 255
  }

  /**
   * `byte_frequenies`: seeds an entry of 0 for every key in SeededKeys,
   * then adds one to the entry of each input byte that has an entry; a byte
   * without one (only 255) is skipped.
   */
  method ByteFrequencies(bytes: seq<Byte>) returns (counts: map<Byte, nat>)
    ensures counts.Keys == SeededKeys()
    ensures 255 !in counts
    ensures forall b :: b in counts ==> counts[b] == multiset(bytes)[b]
  {
    counts := map[];
    var byte: Byte := 0;
    while byte < 255
      invariant byte <= 255
      invariant forall b: Byte :: b in counts <==> b < byte
      invariant forall b :: b in counts ==> counts[b] == 0
    {
      counts := counts[byte := 0];
      byte := byte + 1;
    }
    for i := 0 to |bytes|
      invariant counts.Keys == SeededKeys()
      invariant forall b :: b in counts ==> counts[b] == multiset(bytes[..i])[b]
    {
      assert bytes[..i + 1] == bytes[..i] + [bytes[i]];
      if bytes[i] in counts {
        counts := counts[bytes[i] := counts[bytes[i]] + 1];
      }
    }
    assert bytes[..|bytes|] == bytes;
  }

  /** `order` lists every key of `keys` exactly once: an iteration order of a map. */
  ghost predicate IsEnumeration(order: seq<Byte>, keys: set<Byte>)
  {
    && (forall b :: b in order <==> b in keys)
    && (forall i, j :: 0 <= i < j < |order| ==> order[i] != order[j])
  }

  /** A sequence without repetitions holds each of its elements once. */
  lemma {:induction false} DistinctOccurrences<T>(order: seq<T>)
    requires forall i, j :: 0 <= i < j < |order| ==> order[i] != order[j]
    ensures forall b :: multiset(order)[b] == if b in order then 1 else 0
  {
    if order != [] {
      var tail := order[1..];
      DistinctOccurrences(tail);
      assert order == [order[0]] + tail;
      assert order[0] !in tail;
    }
  }

  /** An enumeration of a set is as long as the set is large. */
  lemma {:induction false} EnumerationLength(order: seq<Byte>, keys: set<Byte>)
    requires IsEnumeration(order, keys)
    ensures |order| == |keys|
  {
    if order == [] {
      assert forall b :: b !in keys;
    } else {
      var tail := order[1..];
      assert order[0] !in tail by {
        forall j | 0 <= j < |tail| ensures tail[j] != order[0] { assert tail[j] == order[j + 1]; }
      }
      assert IsEnumeration(tail, keys - {order[0]}) by {
        forall b ensures b in tail <==> b in keys - {order[0]} {
          assert b in order <==> b == order[0] || b in tail by { assert order == [order[0]] + tail; }
        }
      }
      EnumerationLength(tail, keys - {order[0]});
    }
  }

  /**
   * `frequencies_to_trees`: one leaf per entry of the table, weighted by its
   * count. The order in which the source's `HashMap` yields its entries is
   * unspecified; it is the parameter `order`.
   */
  function FrequenciesToTrees(counts: map<Byte, nat>, order: seq<Byte>): (trees: seq<HuffTree>)
    requires IsEnumeration(order, counts.Keys)
    ensures |trees| == |counts| == |order|
    ensures forall i :: 0 <= i < |order| ==> trees[i].node == Leaf(order[i]) && trees[i].weight == counts[order[i]]
    ensures forall t: HuffTree :: t in trees <==>
      t.node.Leaf? && t.node.byte in counts && t.weight == counts[t.node.byte]
    ensures forall i, j :: 0 <= i < j < |trees| ==> trees[i] != trees[j]
  {
    EnumerationLength(order, counts.Keys);
    var trees := seq(|order|, i requires 0 <= i < |order| => HuffTree(counts[order[i]], Leaf(order[i])));
    assert forall t: HuffTree :: t.node.Leaf? && t.node.byte in counts && t.weight == counts[t.node.byte] ==> t in trees by {
      forall t: HuffTree | t.node.Leaf? && t.node.byte in counts && t.weight == counts[t.node.byte]
        ensures t in trees
      {
        var i :| 0 <= i < |order| && order[i] == t.node.byte;
        assert trees[i] == t;
      }
    }
    trees
  }

  /** The table is seeded with 255 keys, so the forest has 255 leaves. */
  lemma SeededKeyCount()
    ensures |SeededKeys()| == 255
  {
    var order: seq<Byte> := seq(255, (i: int) requires 0 <= i < 255 => i as Byte);
    assert forall b :: b in order <==> b in SeededKeys() by {
      forall b: Byte ensures b in order <==> b in SeededKeys() {
        if b < 255 { assert order[b] == b; }
      }
    }
    EnumerationLength(order, SeededKeys());
  }

  /** A forest of leaves is its own multiset of leaves. */
  lemma {:induction false} LeafForestLeaves(trees: seq<HuffTree>)
    requires forall i :: 0 <= i < |trees| ==> trees[i].node.Leaf?
    ensures ForestLeaves(trees) == multiset(trees)
  {
    if trees != [] {
      LeafForestLeaves(trees[1..]);
      assert trees == [trees[0]] + trees[1..];
    }
  }

  // The weight of the forest is the number of counted bytes.

  /** The occurrences in `bytes` of the keys listed in `ks`, added up. */
  ghost function CountOver(bytes: seq<Byte>, ks: seq<Byte>): nat
  {
    if ks == [] then 0 else multiset(bytes)[ks[0]] + CountOver(bytes, ks[1..])
  }

  /** A forest of leaves weighted by occurrence weighs what their keys count. */
  lemma {:induction false} LeafForestWeight(trees: seq<HuffTree>, bytes: seq<Byte>, ks: seq<Byte>)
    requires |trees| == |ks|
    requires forall i :: 0 <= i < |ks| ==> trees[i].weight == multiset(bytes)[ks[i]]
    ensures TotalWeight(trees) == CountOver(bytes, ks)
  {
    if ks != [] {
      LeafForestWeight(trees[1..], bytes, ks[1..]);
    }
  }

  /** The leaves of a forest of leaves carry the bytes they were made from. */
  lemma {:induction false} LeafForestBytes(trees: seq<HuffTree>, ks: seq<Byte>)
    requires |trees| == |ks|
    requires forall i :: 0 <= i < |ks| ==> trees[i].node == Leaf(ks[i])
    ensures ForestLeafBytes(trees) == multiset(ks)
  {
    if ks != [] {
      LeafForestBytes(trees[1..], ks[1..]);
      assert ks == [ks[0]] + ks[1..];
    }
  }

  lemma {:induction false} CountOverNothing(ks: seq<Byte>)
    ensures CountOver([], ks) == 0
  {
    if ks != [] {
      CountOverNothing(ks[1..]);
    }
  }

  /** One more input byte adds one to the count exactly when it is listed. */
  lemma {:induction false} CountOverSnoc(bytes: seq<Byte>, x: Byte, ks: seq<Byte>)
    requires forall i, j :: 0 <= i < j < |ks| ==> ks[i] != ks[j]
    ensures CountOver(bytes + [x], ks) == CountOver(bytes, ks) + if x in ks then 1 else 0
  {
    if ks != [] {
      CountOverSnoc(bytes, x, ks[1..]);
      assert multiset(bytes + [x]) == multiset(bytes) + multiset{x};
      assert x == ks[0] ==> x !in ks[1..] by {
        forall j | 0 <= j < |ks| - 1 ensures ks[1..][j] != ks[0] { assert ks[1..][j] == ks[j + 1]; }
      }
      assert ks == [ks[0]] + ks[1..];
    }
  }

  /**
   * Over the seeded keys, the counts add up to the number of input bytes
   * other than 255; a 255 is never counted.
   */
  lemma {:induction false} CountOverSeeded(bytes: seq<Byte>, ks: seq<Byte>)
    requires IsEnumeration(ks, SeededKeys())
    ensures CountOver(bytes, ks) == |bytes| - multiset(bytes)[255]
  {
    if bytes == [] {
      CountOverNothing(ks);
    } else {
      var init, x := bytes[..|bytes| - 1], bytes[|bytes| - 1];
      assert bytes == init + [x];
      CountOverSeeded(init, ks);
      CountOverSnoc(init, x, ks);
      assert x in ks <==> x != 255 by {
        assert x in ks <==> x in SeededKeys();
        assert x in SeededKeys() <==> IsSeeded(x);
      }
      assert multiset(bytes) == multiset(init) + multiset{x};
    }
  }
}

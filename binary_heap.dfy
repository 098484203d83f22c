/**
 * The `BinaryHeap<HuffTree>` that `reduce_huffman_tree` works on. Only what
 * the heap holds is modelled, not its array layout: `pop` yields a greatest
 * element under `Cmp`, and which one of several equally great elements it
 * yields is left open.
 */
module BinaryHeapModel {
  import opened HuffmanTree
  import opened Wrappers

  /** `m` is held in `s` and no element of `s` is greater under `Cmp`. */
  predicate IsGreatest(s: seq<HuffTree>, m: HuffTree)
  {
    m in s && forall x :: x in s ==> Cmp(m, x) != Less
  }

  /** `m` is held in `q` and weighs no more than any other tree in `q`. */
  ghost predicate IsLightest(q: multiset<HuffTree>, m: HuffTree)
  {
    m in q && forall x :: x in q ==> m.weight <= x.weight
  }

  /** Because `Cmp` is the reversed weight order, the greatest tree is a lightest one. */
  lemma GreatestIsLightest(s: seq<HuffTree>, m: HuffTree)
    ensures IsGreatest(s, m) <==> IsLightest(multiset(s), m)
  {
    if IsGreatest(s, m) {
      forall x | x in multiset(s) ensures m.weight <= x.weight {
        assert x in s;
      }
    }
    if IsLightest(multiset(s), m) {
      forall x | x in s ensures Cmp(m, x) != Less {
        assert x in multiset(s);
      }
    }
  }

  /** A non-empty heap has a greatest element. */
  lemma {:induction false} GreatestExists(s: seq<HuffTree>)
    requires s != []
    ensures exists i :: 0 <= i < |s| && IsGreatest(s, s[i])
  {
    if |s| > 1 {
      var tail := s[1..];
      GreatestExists(tail);
      var k :| 0 <= k < |tail| && IsGreatest(tail, tail[k]);
      assert s == [s[0]] + tail;
      if s[0].weight <= tail[k].weight {
        assert IsGreatest(s, s[0]);
      } else {
        assert IsGreatest(s, s[k + 1]);
      }
    } else {
      assert IsGreatest(s, s[0]);
    }
  }

  class BinaryHeap {
    var elems: seq<HuffTree>

    /** `BinaryHeap::from_vec`. */
    constructor FromVec(trees: seq<HuffTree>)
      ensures elems == trees
    {
      elems := trees;
    }

    /** `BinaryHeap::len`. */
    function Len(): nat
      reads this
    {
      |elems|
    }

    /** `BinaryHeap::push`. */
    method Push(t: HuffTree)
      modifies this
      ensures multiset(elems) == multiset(old(elems)) + multiset{t}
    {
      elems := elems + [t];
    }

    /** `BinaryHeap::pop`: `None` when empty, otherwise a greatest element, removed. */
    method Pop() returns (top: Option<HuffTree>)
      modifies this
      ensures old(elems) == [] ==> top == None && elems == []
      ensures old(elems) != [] ==>
        && top.Some?
        && IsGreatest(old(elems), top.value)
        && multiset(elems) == multiset(old(elems)) - multiset{top.value}
    {
      if elems == [] {
        top := None;
      } else {
        GreatestExists(elems);
        var i :| 0 <= i < |elems| && IsGreatest(elems, elems[i]);
        top := Some(elems[i]);
        assert elems == elems[..i] + [elems[i]] + elems[i+1..];
        elems := elems[..i] + elems[i+1..];
      }
    }
  }
}

/**
 * The code table (src/encoder.rs, `make_encoding_table`): a depth-first
 * walk that extends the path with `0` on the way left and `1` on the way
 * right, and at each leaf records the path as that leaf's code.
 */
module EncodingTable {
  import opened Wrappers
  import opened HuffmanTree

  /** A code word: the source builds it as a `String` of `0`s and `1`s. */
  type Code = seq<char>

  predicate IsBinary(c: Code)
  {
    forall i :: 0 <= i < |c| ==> c[i] == '0' || c[i] == '1'
  }

  /** `p` is a prefix of `q` (possibly `q` itself). */
  predicate IsPrefix(p: Code, q: Code)
  {
    |p| <= |q| && q[..|p|] == p
  }

  /** No code of one byte is a prefix of the code of another byte. */
  predicate PrefixFree(c: map<Byte, Code>)
  {
    forall b1, b2 :: b1 in c && b2 in c && b1 != b2 ==> !IsPrefix(c[b1], c[b2])
  }

  /** Every code of `c`, with `p` in front. */
  function WithPrefix(p: Code, c: map<Byte, Code>): (r: map<Byte, Code>)
    ensures r.Keys == c.Keys
    ensures forall b :: b in c ==> r[b] == p + c[b]
  {
    map b | b in c :: p + c[b]
  }

  /**
   * The code of every byte of `t`, relative to the root of `t`: the path of
   * its leaf. When a byte sits at two leaves, the later one in the walk
   * (the one further right) wins, as the later insertion does.
   */
  function Codes(t: HuffTree): (c: map<Byte, Code>)
    ensures forall b :: b in c <==> b in LeafBytes(t)
    ensures forall b :: b in c ==> IsBinary(c[b])
    ensures t.node.Leaf? ==> c[t.node.byte] == []
    ensures t.node.Tree? ==> forall b :: b in c ==> |c[b]| >= 1
    decreases t
  {
    match t.node
    case Leaf(b) => map[b := []]
    case Tree(l, r) =>
      var cl, cr := Codes(l), Codes(r);
      BinaryPrefixed('0', cl);
      BinaryPrefixed('1', cr);
      WithPrefix(['0'], cl) + WithPrefix(['1'], cr)
  }

  /** One binary symbol in front of binary codes leaves them binary. */
  lemma BinaryPrefixed(x: char, c: map<Byte, Code>)
    requires x == '0' || x == '1'
    requires forall b :: b in c ==> IsBinary(c[b])
    ensures forall b :: b in c ==> IsBinary(WithPrefix([x], c)[b])
  {
    forall b | b in c ensures IsBinary(WithPrefix([x], c)[b]) {
      var w := WithPrefix([x], c)[b];
      assert w == [x] + c[b];
      assert forall i :: 1 <= i < |w| ==> w[i] == c[b][i - 1];
    }
  }

  /**
   * Follow `path` down from the root of `t`: `0` goes left, `1` goes right.
   * A path that runs past a leaf or holds another symbol leads nowhere.
   */
  function Descend(t: HuffTree, path: Code): Option<HuffTree>
    decreases |path|
  {
    if path == [] then Some(t)
    else match t.node
      case Leaf(_) => None
      case Tree(l, r) =>
        if path[0] == '0' then Descend(l, path[1..])
        else if path[0] == '1' then Descend(r, path[1..])
        else None
  }

  /** The code of a byte leads from the root to a leaf holding that byte. */
  lemma {:induction false} CodeLeadsToLeaf(t: HuffTree, b: Byte)
    requires b in Codes(t)
    ensures Descend(t, Codes(t)[b]).Some?
    ensures Descend(t, Codes(t)[b]).value.node == Leaf(b)
    ensures Descend(t, Codes(t)[b]).value in Leaves(t)
    decreases t
  {
    match t.node
    case Leaf(_) =>
    case Tree(l, r) =>
      var code := Codes(t)[b];
      if b in Codes(r) {
        assert code == ['1'] + Codes(r)[b];
        assert code[1..] == Codes(r)[b];
        assert Descend(t, code) == Descend(r, code[1..]);
        CodeLeadsToLeaf(r, b);
      } else {
        assert code == ['0'] + Codes(l)[b];
        assert code[1..] == Codes(l)[b];
        assert Descend(t, code) == Descend(l, code[1..]);
        CodeLeadsToLeaf(l, b);
      }
  }

  /** A path that ends at a leaf holding `b` runs through a tree that holds `b`. */
  lemma {:induction false} DescendFindsLeafByte(t: HuffTree, path: Code, b: Byte)
    requires Descend(t, path).Some? && Descend(t, path).value.node == Leaf(b)
    ensures b in LeafBytes(t)
    decreases |path|
  {
    if path != [] {
      match t.node
      case Leaf(_) =>
      case Tree(l, r) =>
        if path[0] == '0' {
          DescendFindsLeafByte(l, path[1..], b);
        } else {
          DescendFindsLeafByte(r, path[1..], b);
        }
    }
  }

  /**
   * Conversely, when a byte sits at exactly one leaf, its code is the one
   * path to that leaf: codes are exactly the root-to-leaf paths.
   */
  lemma {:induction false} CodeIsThePath(t: HuffTree, path: Code, b: Byte)
    requires LeafBytes(t)[b] == 1
    requires Descend(t, path).Some? && Descend(t, path).value.node == Leaf(b)
    ensures b in Codes(t) && Codes(t)[b] == path
    decreases t
  {
    match t.node
    case Leaf(_) =>
    case Tree(l, r) =>
      assert path != [];
      var rest := path[1..];
      assert path == [path[0]] + rest;
      if path[0] == '0' {
        DescendFindsLeafByte(l, rest, b);
        assert LeafBytes(r)[b] == 0;
        CodeIsThePath(l, rest, b);
        assert Codes(t)[b] == ['0'] + Codes(l)[b];
      } else {
        assert path[0] == '1';
        DescendFindsLeafByte(r, rest, b);
        assert LeafBytes(l)[b] == 0;
        CodeIsThePath(r, rest, b);
        assert Codes(t)[b] == ['1'] + Codes(r)[b];
      }
  }

  /** Putting one symbol in front of both words adds nothing to the prefix relation. */
  lemma ConsPrefix(x: char, p: Code, y: char, q: Code)
    ensures IsPrefix([x] + p, [y] + q) <==> x == y && IsPrefix(p, q)
  {
    if |p| <= |q| {
      assert ([y] + q)[..|p| + 1] == [y] + q[..|p|];
      if IsPrefix([x] + p, [y] + q) {
        assert ([x] + p)[0] == ([y] + q)[0];
        assert p == ([x] + p)[1..] == ([y] + q[..|p|])[1..];
      }
    }
  }

  /** The codes of a tree form a prefix-free set: leaves have no descendants. */
  lemma {:induction false} CodesArePrefixFree(t: HuffTree)
    ensures PrefixFree(Codes(t))
    decreases t
  {
    match t.node
    case Leaf(_) =>
    case Tree(l, r) =>
      CodesArePrefixFree(l);
      CodesArePrefixFree(r);
      var c, cl, cr := Codes(t), Codes(l), Codes(r);
      forall b1, b2 | b1 in c && b2 in c && b1 != b2
        ensures !IsPrefix(c[b1], c[b2])
      {
        var x, p := if b1 in cr then '1' else '0', if b1 in cr then cr[b1] else cl[b1];
        var y, q := if b2 in cr then '1' else '0', if b2 in cr then cr[b2] else cl[b2];
        assert c[b1] == [x] + p;
        assert c[b2] == [y] + q;
        ConsPrefix(x, p, y, q);
      }
  }

  /** The walk of a whole tree is the walks of its two sides, in order. */
  lemma WalkSplits(m: map<Byte, Code>, prefix: Code, cl: map<Byte, Code>, cr: map<Byte, Code>)
    ensures m + WithPrefix(prefix + ['0'], cl) + WithPrefix(prefix + ['1'], cr)
         == m + WithPrefix(prefix, WithPrefix(['0'], cl) + WithPrefix(['1'], cr))
  {
    PrefixDistributes(prefix, WithPrefix(['0'], cl), WithPrefix(['1'], cr));
    PrefixesJoin(prefix, ['0'], cl);
    PrefixesJoin(prefix, ['1'], cr);
    UnionAssociates(m, WithPrefix(prefix + ['0'], cl), WithPrefix(prefix + ['1'], cr));
  }

  /** A prefix put in front of a union goes in front of both sides. */
  lemma PrefixDistributes(p: Code, a: map<Byte, Code>, b: map<Byte, Code>)
    ensures WithPrefix(p, a + b) == WithPrefix(p, a) + WithPrefix(p, b)
  {
    SameEntries(WithPrefix(p, a + b), WithPrefix(p, a) + WithPrefix(p, b));
  }

  /** Two prefixes in a row are their concatenation. */
  lemma PrefixesJoin(p: Code, q: Code, c: map<Byte, Code>)
    ensures WithPrefix(p, WithPrefix(q, c)) == WithPrefix(p + q, c)
  {
    forall b | b in c ensures WithPrefix(p, WithPrefix(q, c))[b] == WithPrefix(p + q, c)[b] {
      assert p + (q + c[b]) == (p + q) + c[b];
    }
    SameEntries(WithPrefix(p, WithPrefix(q, c)), WithPrefix(p + q, c));
  }

  /** Overlaying tables associates. */
  lemma UnionAssociates(m: map<Byte, Code>, a: map<Byte, Code>, b: map<Byte, Code>)
    ensures m + a + b == m + (a + b)
  {
    SameEntries(m + a + b, m + (a + b));
  }

  /** Two tables with the same keys and the same entry at each key are equal. */
  lemma SameEntries(a: map<Byte, Code>, b: map<Byte, Code>)
    requires a.Keys == b.Keys
    requires forall k :: k in b ==> a[k] == b[k]
    ensures a == b
  {
  }

  /** The `HashMap<u8, String>` the walk fills, updated in place. */
  class CodeTable {
    var entries: map<Byte, Code>

    /** `HashMap::new()`. */
    constructor ()
      ensures entries == map[]
    {
      entries := map[];
    }

    /** `table.insert(byte, code)`: a new entry, or a replaced one. */
    method Insert(b: Byte, code: Code)
      modifies this
      ensures entries == old(entries)[b := code]
    {
      entries := entries[b := code];
    }
  }

  /**
   * What a walk adds to a table `m`: every byte of `t` gets `prefix` followed
   * by its path in `t`, and entries for other bytes keep their value.
   */
  lemma WalkResult(m: map<Byte, Code>, prefix: Code, t: HuffTree)
    ensures forall b :: b in m + WithPrefix(prefix, Codes(t)) <==> b in m || b in LeafBytes(t)
    ensures forall b :: b in LeafBytes(t) ==> (m + WithPrefix(prefix, Codes(t)))[b] == prefix + Codes(t)[b]
    ensures forall b :: b in m && b !in LeafBytes(t) ==> (m + WithPrefix(prefix, Codes(t)))[b] == m[b]
  {
  }

  /** A walk that meets a single leaf records `prefix` itself for its byte. */
  lemma WalkLeaf(m: map<Byte, Code>, prefix: Code, t: HuffTree)
    requires t.node.Leaf?
    ensures m + WithPrefix(prefix, Codes(t)) == m[t.node.byte := prefix]
  {
    assert prefix + [] == prefix;
    SameEntries(m + WithPrefix(prefix, Codes(t)), m[t.node.byte := prefix]);
  }

  /**
   * A walk from the root (the empty prefix) into an empty table yields
   * exactly the codes of the tree.
   */
  lemma WalkFromRoot(c: map<Byte, Code>)
    ensures map[] + WithPrefix([], c) == c
  {
    forall b | b in c ensures WithPrefix([], c)[b] == c[b] {
      assert [] + c[b] == c[b];
    }
    SameEntries(map[] + WithPrefix([], c), c);
  }

  /**
   * `make_encoding_table`: the table afterwards is the table before, overlaid
   * with the codes of `tree` behind `prefix` (see WalkResult).
   */
  method MakeEncodingTable(tree: HuffTree, table: CodeTable, prefix: Code)
    modifies table
    ensures table.entries == old(table.entries) + WithPrefix(prefix, Codes(tree))
    decreases tree
  {
    match tree.node
    case Leaf(b) =>
      table.Insert(b, prefix);
      WalkLeaf(old(table.entries), prefix, tree);
    case Tree(l, r) =>
      ghost var start := table.entries;
      MakeEncodingTable(l, table, prefix + ['0']);
      MakeEncodingTable(r, table, prefix + ['1']);
      WalkSplits(start, prefix, Codes(l), Codes(r));
  }
}

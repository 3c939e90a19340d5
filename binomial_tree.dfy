/**
 * Value view of the lazy binomial heap (src/heap/binomial.rs).
 *
 * A node cell carries a key, a `degree`, a `child` cursor into the cyclic
 * doubly linked list of its children, and `next`/`prev` links inside the cyclic
 * list it sits in. A cyclic list is read as a sequence starting at its cursor
 * and following `next`; a node is read as a `BTree` whose `kids` are its child
 * list read from the `child` cursor. The degree of a node is its number of
 * children.
 */
module BinomialTree {

  datatype BTree = BT(key: int, kids: seq<BTree>)

  function Degree(t: BTree): nat
  {
    |t.kids|
  }

  /** The keys held by `t`. */
  function Elems(t: BTree): multiset<int>
    decreases t, 1
  {
    multiset{t.key} + ElemsF(t.kids)
  }

  /** The keys held by a list of trees. */
  function ElemsF(ts: seq<BTree>): multiset<int>
    decreases ts, 0
  {
    if ts == [] then multiset{} else ElemsF(ts[..|ts| - 1]) + Elems(ts[|ts| - 1])
  }

  /** The number of node cells of `t`. */
  function Size(t: BTree): nat
    decreases t, 1
  {
    1 + SizeF(t.kids)
  }

  function SizeF(ts: seq<BTree>): nat
    decreases ts, 0
  {
    if ts == [] then 0 else SizeF(ts[..|ts| - 1]) + Size(ts[|ts| - 1])
  }

  function Pow2(n: nat): (p: nat)
    ensures p >= 1
  {
    if n == 0 then 1 else 2 * Pow2(n - 1)
  }

  /** `usize::ilog2`: the floor of the base-2 logarithm; undefined on 0. */
  function ILog2(n: nat): (r: nat)
    requires n >= 1
    ensures Pow2(r) <= n < Pow2(r + 1)
  {
    if n == 1 then 0 else 1 + ILog2(n / 2)
  }

  /** Powers of two are strictly ordered as their exponents are. */
  lemma {:induction false} Pow2Below(d: nat, m: nat)
    requires Pow2(d) < Pow2(m)
    ensures d < m
  {
    if d > 0 && m > 0 {
      Pow2Below(d - 1, m - 1);
    }
  }

  /** A tree of `2^d` cells or more than that has degree at most `ilog2` of any bound on its size. */
  lemma {:induction false} DegreeFits(d: nat, n: nat)
    requires n >= 1 && Pow2(d) <= n
    ensures d <= ILog2(n)
  {
    Pow2Below(d, ILog2(n) + 1);
  }

  /**
   * A binomial tree kept by the heap: every key is at least its parent's key,
   * the child cursor sits on a least-keyed child, and a node of degree `d`
   * holds exactly `2^d` cells.
   */
  predicate IsBinomial(t: BTree)
    decreases t
  {
    && Size(t) == Pow2(Degree(t))
    && (forall i | 0 <= i < |t.kids| :: t.key <= t.kids[i].key && t.kids[0].key <= t.kids[i].key)
    && (forall i | 0 <= i < |t.kids| :: IsBinomial(t.kids[i]))
  }

  /** Every tree of the list is a binomial tree. */
  predicate AllBinomial(ts: seq<BTree>)
  {
    forall i | 0 <= i < |ts| :: IsBinomial(ts[i])
  }

  /** The root holds the least key of a binomial tree. */
  lemma {:induction false} RootIsMin(t: BTree)
    requires IsBinomial(t)
    ensures t.key in Elems(t)
    ensures forall x | x in Elems(t) :: t.key <= x
  {
    forall x | x in ElemsF(t.kids)
      ensures t.key <= x
    {
      var i := ElemsFWitness(t.kids, x);
      RootIsMin(t.kids[i]);
    }
  }

  /** A key of a list of trees lies in one of its trees. */
  lemma {:induction false} ElemsFWitness(ts: seq<BTree>, x: int) returns (i: nat)
    requires x in ElemsF(ts)
    ensures i < |ts| && x in Elems(ts[i])
    decreases |ts|
  {
    var k := |ts| - 1;
    if x in Elems(ts[k]) {
      i := k;
    } else {
      i := ElemsFWitness(ts[..k], x);
      assert ts[..k][i] == ts[i];
    }
  }

  lemma {:induction false} ElemsFAppend(a: seq<BTree>, b: seq<BTree>)
    ensures ElemsF(a + b) == ElemsF(a) + ElemsF(b)
    decreases |b|
  {
    if b == [] {
      assert a + b == a;
    } else {
      var k := |b| - 1;
      assert (a + b)[..|a + b| - 1] == a + b[..k];
      ElemsFAppend(a, b[..k]);
      assert b[..k] + [b[k]] == b;
    }
  }

  lemma {:induction false} SizeFAppend(a: seq<BTree>, b: seq<BTree>)
    ensures SizeF(a + b) == SizeF(a) + SizeF(b)
    decreases |b|
  {
    if b == [] {
      assert a + b == a;
    } else {
      var k := |b| - 1;
      assert (a + b)[..|a + b| - 1] == a + b[..k];
      SizeFAppend(a, b[..k]);
    }
  }

  lemma ElemsFOne(t: BTree)
    ensures ElemsF([t]) == Elems(t)
  {
    assert [t][..0] == [];
  }

  lemma SizeFOne(t: BTree)
    ensures SizeF([t]) == Size(t)
  {
    assert [t][..0] == [];
  }

  /** The number of keys is the number of cells. */
  lemma {:induction false} ElemsCount(t: BTree)
    ensures |Elems(t)| == Size(t)
    decreases t, 1
  {
    ElemsFCount(t.kids);
  }

  lemma {:induction false} ElemsFCount(ts: seq<BTree>)
    ensures |ElemsF(ts)| == SizeF(ts)
    decreases ts, 0
  {
    if ts != [] {
      ElemsFCount(ts[..|ts| - 1]);
      ElemsCount(ts[|ts| - 1]);
    }
  }

  // Cyclic lists read from their cursor.

  /**
   * `insert_node_next(ptr, x)` on a list read from `ptr`: `x` becomes the
   * successor of the cursor.
   */
  function AfterCursor<T>(ring: seq<T>, x: T): (r: seq<T>)
    requires |ring| > 0
    ensures |r| == |ring| + 1 && r[0] == ring[0] && r[1] == x
  {
    [ring[0], x] + ring[1..]
  }

  /**
   * `insert_node_prev(ptr, x)` on a list read from `ptr`: `x` becomes the
   * predecessor of the cursor, that is the last element read from it.
   */
  function BeforeCursor<T>(ring: seq<T>, x: T): (r: seq<T>)
    ensures |r| == |ring| + 1 && r[|ring|] == x && r[..|ring|] == ring
  {
    ring + [x]
  }

  /** The same cyclic list read from its second element. */
  function Rotate<T>(ring: seq<T>): (r: seq<T>)
    requires |ring| > 0
    ensures |r| == |ring| && r[|ring| - 1] == ring[0]
    ensures forall i | 0 <= i < |ring| - 1 :: r[i] == ring[i + 1]
  {
    ring[1..] + [ring[0]]
  }

  /**
   * `insert_node(min, x)` on a child list read from its cursor `min`: `x` is
   * spliced in after the cursor, and the cursor moves to `x` exactly when
   * `min`'s key is strictly greater.
   */
  function InsertNodeList(ring: seq<BTree>, x: BTree): (r: seq<BTree>)
    requires |ring| > 0
    ensures |r| == |ring| + 1 && x in r
    ensures r[0] == (if ring[0].key > x.key then x else ring[0])
  {
    var spliced := AfterCursor(ring, x);
    if ring[0].key > x.key then Rotate(spliced) else spliced
  }

  /**
   * `BinomialHeap::merge`: the root with the smaller key keeps its place (on
   * equal keys `root` does) and the other root joins its child list, as a
   * one-element list when there was none.
   */
  function Link(root: BTree, other: BTree): (r: BTree)
    ensures r.key == (if root.key > other.key then other.key else root.key)
    ensures root.key > other.key ==> multiset(r.kids) == multiset(other.kids) + multiset{root}
    ensures root.key <= other.key ==> multiset(r.kids) == multiset(root.kids) + multiset{other}
  {
    if root.key > other.key then Adopt(other, root) else Adopt(root, other)
  }

  /** The loser joins the winner's child list, whose cursor then sits on the lesser of the two heads. */
  function Adopt(winner: BTree, loser: BTree): (r: BTree)
    ensures r.key == winner.key && multiset(r.kids) == multiset(winner.kids) + multiset{loser}
    ensures r.kids[0] == (if winner.kids == [] || winner.kids[0].key > loser.key then loser else winner.kids[0])
  {
    if winner.kids == [] then BT(winner.key, [loser])
    else
      InsertNodeListSpec(winner.kids, loser);
      BT(winner.key, InsertNodeList(winner.kids, loser))
  }

  lemma {:induction false} ElemsFRotate(ring: seq<BTree>)
    requires |ring| > 0
    ensures ElemsF(Rotate(ring)) == ElemsF(ring)
  {
    assert ring == [ring[0]] + ring[1..];
    ElemsFAppend([ring[0]], ring[1..]);
    ElemsFAppend(ring[1..], [ring[0]]);
  }

  lemma {:induction false} SizeFRotate(ring: seq<BTree>)
    requires |ring| > 0
    ensures SizeF(Rotate(ring)) == SizeF(ring)
  {
    assert ring == [ring[0]] + ring[1..];
    SizeFAppend([ring[0]], ring[1..]);
    SizeFAppend(ring[1..], [ring[0]]);
  }

  /** Splicing after the cursor adds the keys and cells of `x`. */
  lemma {:induction false} AfterCursorSums(ring: seq<BTree>, x: BTree)
    requires |ring| > 0
    ensures ElemsF(AfterCursor(ring, x)) == ElemsF(ring) + Elems(x)
    ensures SizeF(AfterCursor(ring, x)) == SizeF(ring) + Size(x)
  {
    var rest := ring[1..];
    assert AfterCursor(ring, x) == [ring[0]] + ([x] + rest);
    assert ring == [ring[0]] + rest;
    ElemsFAppend([ring[0]], [x] + rest);
    ElemsFAppend([x], rest);
    ElemsFAppend([ring[0]], rest);
    ElemsFOne(x);
    SizeFAppend([ring[0]], [x] + rest);
    SizeFAppend([x], rest);
    SizeFAppend([ring[0]], rest);
    SizeFOne(x);
  }

  /** `insert_node` adds `x` to the list and puts the lesser of the cursor and `x` at the cursor. */
  lemma AfterCursorMultiset<T>(ring: seq<T>, x: T)
    requires |ring| > 0
    ensures multiset(AfterCursor(ring, x)) == multiset(ring) + multiset{x}
  {
    assert AfterCursor(ring, x) == [ring[0]] + [x] + ring[1..];
    assert ring == [ring[0]] + ring[1..];
  }

  lemma RotateMultiset<T>(ring: seq<T>)
    requires |ring| > 0
    ensures multiset(Rotate(ring)) == multiset(ring)
  {
    assert ring == [ring[0]] + ring[1..];
  }

  lemma {:induction false} InsertNodeListSpec(ring: seq<BTree>, x: BTree)
    requires |ring| > 0
    ensures |InsertNodeList(ring, x)| == |ring| + 1
    ensures ElemsF(InsertNodeList(ring, x)) == ElemsF(ring) + Elems(x)
    ensures SizeF(InsertNodeList(ring, x)) == SizeF(ring) + Size(x)
    ensures multiset(InsertNodeList(ring, x)) == multiset(ring) + multiset{x}
    ensures InsertNodeList(ring, x)[0] == (if ring[0].key > x.key then x else ring[0])
  {
    var spliced := AfterCursor(ring, x);
    AfterCursorSums(ring, x);
    AfterCursorMultiset(ring, x);
    if ring[0].key > x.key {
      ElemsFRotate(spliced);
      SizeFRotate(spliced);
      RotateMultiset(spliced);
    }
  }

  /** Adopting `loser` adds its keys and cells to `winner` and one to its degree. */
  lemma {:induction false} AdoptSums(winner: BTree, loser: BTree)
    ensures Elems(Adopt(winner, loser)) == Elems(winner) + Elems(loser)
    ensures Size(Adopt(winner, loser)) == Size(winner) + Size(loser)
    ensures Degree(Adopt(winner, loser)) == Degree(winner) + 1
  {
    if winner.kids == [] {
      ElemsFOne(loser);
      SizeFOne(loser);
    } else {
      InsertNodeListSpec(winner.kids, loser);
    }
  }

  /** `merge` keeps every key of both trees and the smaller root key, `root` winning ties. */
  lemma {:induction false} LinkElems(root: BTree, other: BTree)
    ensures Elems(Link(root, other)) == Elems(root) + Elems(other)
    ensures Size(Link(root, other)) == Size(root) + Size(other)
    ensures Link(root, other).key == (if root.key > other.key then other.key else root.key)
    ensures Degree(Link(root, other)) == (if root.key > other.key then Degree(other) else Degree(root)) + 1
  {
    if root.key > other.key {
      AdoptSums(other, root);
    } else {
      AdoptSums(root, other);
    }
  }

  /** Adopting a tree with a key no smaller than the winner's keeps the binomial-tree shape rules apart from size. */
  lemma {:induction false} AdoptOrdered(winner: BTree, loser: BTree)
    requires IsBinomial(winner) && IsBinomial(loser) && winner.key <= loser.key
    ensures var r := Adopt(winner, loser);
      forall i | 0 <= i < |r.kids| :: winner.key <= r.kids[i].key && r.kids[0].key <= r.kids[i].key && IsBinomial(r.kids[i])
  {
    var r := Adopt(winner, loser);
    if winner.kids != [] {
      InsertNodeListSpec(winner.kids, loser);
      forall i | 0 <= i < |r.kids|
        ensures winner.key <= r.kids[i].key && r.kids[0].key <= r.kids[i].key && IsBinomial(r.kids[i])
      {
        assert r.kids[i] in multiset(winner.kids) + multiset{loser} by {
          assert r.kids[i] in multiset(r.kids);
        }
        if r.kids[i] != loser {
          var j :| 0 <= j < |winner.kids| && winner.kids[j] == r.kids[i];
        }
      }
    }
  }

  /** Merging two binomial trees of equal degree gives a binomial tree one degree higher. */
  lemma {:induction false} LinkBinomial(root: BTree, other: BTree)
    requires IsBinomial(root) && IsBinomial(other) && Degree(root) == Degree(other)
    ensures IsBinomial(Link(root, other))
    ensures Degree(Link(root, other)) == Degree(root) + 1
  {
    LinkElems(root, other);
    if root.key > other.key {
      AdoptOrdered(other, root);
    } else {
      AdoptOrdered(root, other);
    }
  }
}

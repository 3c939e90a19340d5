/**
 * Root insertion of the Fibonacci heap of `src/heap/fibonacci.rs`.
 *
 * The roots are trees kept in a `CyclicList` (see `cyclic_list.dfy`), and a
 * cursor `min` marks a root of least key. A new root is spliced in right after
 * the cursor, and the cursor moves to it only when its key is strictly
 * smaller. `size` counts the keys held. The ghost `at` is the position of the
 * cursor in the root list.
 */
module FibonacciHeap {
  import opened CyclicList

  /** `Node`: a key and the list of child trees. */
  datatype Tree = Tree(children: seq<Tree>, key: int)

  /** The keys held by `t`. */
  function Elems(t: Tree): multiset<int>
    decreases t, 1
  {
    multiset{t.key} + ElemsF(t.children)
  }

  /** The keys held by a list of trees. */
  function ElemsF(ts: seq<Tree>): multiset<int>
    decreases ts, 0
  {
    if ts == [] then multiset{} else ElemsF(ts[..|ts| - 1]) + Elems(ts[|ts| - 1])
  }

  /** Every child holds a key no smaller than its parent's, all the way down. */
  predicate HeapOrdered(t: Tree)
    decreases t
  {
    forall i | 0 <= i < |t.children| :: t.key <= t.children[i].key && HeapOrdered(t.children[i])
  }

  /** Every tree of the list is heap-ordered. */
  predicate AllOrdered(ts: seq<Tree>)
  {
    forall i | 0 <= i < |ts| :: HeapOrdered(ts[i])
  }

  /** The root at position `at` has the least key among the roots. */
  predicate LeastAt(ts: seq<Tree>, at: nat)
  {
    at < |ts| && forall i | 0 <= i < |ts| :: ts[at].key <= ts[i].key
  }

  /** `Node::new`: a tree of one key and no children. */
  function Leaf(key: int): (t: Tree)
    ensures HeapOrdered(t) && Elems(t) == multiset{key}
  {
    Tree([], key)
  }

  /** A key of a list of trees lies in one of its trees. */
  lemma {:induction false} ElemsFWitness(ts: seq<Tree>, x: int) returns (i: nat)
    requires x in ElemsF(ts)
    ensures i < |ts| && x in Elems(ts[i])
    decreases |ts|
  {
    var k := |ts| - 1;
    if x in Elems(ts[k]) {
      i := k;
    } else {
      i := ElemsFWitness(ts[..k], x);
      assert ts[..k][i] == ts[i];
    }
  }

  /** The keys of a tree are among the keys of any list that holds it. */
  lemma {:induction false} ElemsFMember(ts: seq<Tree>, i: nat)
    requires i < |ts|
    ensures Elems(ts[i]) <= ElemsF(ts)
    decreases |ts|
  {
    var k := |ts| - 1;
    if i < k {
      ElemsFMember(ts[..k], i);
      assert ts[..k][i] == ts[i];
    }
  }

  /** The keys of a concatenation are the keys of its two parts. */
  lemma {:induction false} ElemsFAppend(a: seq<Tree>, b: seq<Tree>)
    ensures ElemsF(a + b) == ElemsF(a) + ElemsF(b)
    decreases |b|
  {
    if b == [] {
      assert a + b == a;
    } else {
      var k := |b| - 1;
      assert (a + b)[..|a + b| - 1] == a + b[..k];
      ElemsFAppend(a, b[..k]);
    }
  }

  /** Splicing a tree into a root list adds exactly its keys. */
  lemma {:induction false} ElemsFInserted(ts: seq<Tree>, at: nat, t: Tree)
    requires at < |ts|
    ensures ElemsF(InsertedAfter(ts, at, t)) == ElemsF(ts) + Elems(t)
  {
    var a, b := ts[..at + 1], ts[at + 1..];
    assert InsertedAfter(ts, at, t) == a + [t] + b;
    ElemsFAppend(a + [t], b);
    ElemsFAppend(a, [t]);
    ElemsFAppend(a, b);
    assert [t][..0] == [];
    assert a + b == ts;
  }

  /** A one-tree list holds the keys of its tree. */
  lemma {:induction false} ElemsFOne(t: Tree)
    ensures ElemsF([t]) == Elems(t)
  {
    assert [t][..0] == [];
  }

  /** The root of a heap-ordered tree holds its least key. */
  lemma {:induction false} RootLeast(t: Tree)
    requires HeapOrdered(t)
    ensures t.key in Elems(t)
    ensures forall x | x in Elems(t) :: t.key <= x
    decreases t
  {
    forall x | x in ElemsF(t.children)
      ensures t.key <= x
    {
      var i := ElemsFWitness(t.children, x);
      RootLeast(t.children[i]);
    }
  }

  /**
   * `add_root` keeps the cursor on a least root: after splicing `t` in right
   * after the cursor, the cursor moves to `t` exactly when `t` is strictly
   * smaller, so a tie keeps the old one.
   */
  lemma {:induction false} LeastAfterInsert(ts: seq<Tree>, at: nat, t: Tree)
    requires LeastAt(ts, at)
    ensures LeastAt(InsertedAfter(ts, at, t), if ts[at].key > t.key then at + 1 else at)
  {
    var r := InsertedAfter(ts, at, t);
    var m := if ts[at].key > t.key then at + 1 else at;
    forall i | 0 <= i < |r|
      ensures r[m].key <= r[i].key
    {
      if i <= at {
        assert r[i] == ts[i];
      } else if i > at + 1 {
        assert r[i] == ts[i - 1];
      }
    }
  }

  /** Splicing a heap-ordered tree into heap-ordered roots keeps them heap-ordered. */
  lemma {:induction false} OrderedAfterInsert(ts: seq<Tree>, at: nat, t: Tree)
    requires at < |ts| && AllOrdered(ts) && HeapOrdered(t)
    ensures AllOrdered(InsertedAfter(ts, at, t))
  {
    var r := InsertedAfter(ts, at, t);
    forall i | 0 <= i < |r|
      ensures HeapOrdered(r[i])
    {
      if i <= at {
        assert r[i] == ts[i];
      } else if i > at + 1 {
        assert r[i] == ts[i - 1];
      }
    }
  }

  /** A least root of heap-ordered trees holds the least key of the heap. */
  lemma {:induction false} LeastRootIsMin(ts: seq<Tree>, at: nat)
    requires LeastAt(ts, at) && AllOrdered(ts)
    ensures ts[at].key in ElemsF(ts)
    ensures forall x | x in ElemsF(ts) :: ts[at].key <= x
  {
    RootLeast(ts[at]);
    ElemsFMember(ts, at);
    forall x | x in ElemsF(ts)
      ensures ts[at].key <= x
    {
      var i := ElemsFWitness(ts, x);
      RootLeast(ts[i]);
    }
  }

  /** The cells of a root list, none without one. */
  ghost function CellsOf(roots: CyclicList?<Tree>): set<Cell<Tree>>
    reads roots
  {
    if roots == null then {} else set c | c in roots.cells
  }

  /** A root list that gains one cell, as a multiset, gains it as a set. */
  lemma {:induction false} CellsGrow(s: seq<Cell<Tree>>, r: seq<Cell<Tree>>, x: Cell<Tree>)
    requires multiset(r) == multiset(s) + multiset{x}
    ensures (set c | c in r) == (set c | c in s) + {x}
  {
    forall c | c in r || c in s || c == x
      ensures c in r <==> c in s || c == x
    {
      assert c in r <==> c in multiset(r);
      assert c in s <==> c in multiset(s);
    }
  }

  /**
   * No root list and no cursor, or a well-formed root list of heap-ordered
   * trees with the cursor `min`, at position `at`, on a least root.
   */
  ghost predicate RootState(roots: CyclicList?<Tree>, min: Cell?<Tree>, at: nat)
    reads roots, CellsOf(roots)
  {
    if roots == null then min == null
    else
      && roots.Valid() && at < |roots.cells| && min == roots.cells[at]
      && LeastAt(roots.Contents(), at) && AllOrdered(roots.Contents())
  }

  /** `CyclicList::new` and `take_one`: a fresh one-cell list holding `t`, and its cursor. */
  method OneRoot(t: Tree) returns (list: CyclicList<Tree>, c: Cell<Tree>)
    ensures fresh(list) && fresh(c) && list.Valid() && list.cells == [c] && list.Contents() == [t]
    ensures CellsOf(list) == {c}
  {
    list := new CyclicList(t);
    c := list.TakeOne();
  }

  /** The keys held by the trees of a root list, none without one. */
  ghost function RootKeys(roots: CyclicList?<Tree>): multiset<int>
    reads roots
  {
    if roots == null then multiset{} else ElemsF(roots.Contents())
  }

  /** `FibonacciHeap`: the root list with its minimum cursor, and `size`. */
  class FibonacciHeap {
    var roots: CyclicList?<Tree>
    var min: Cell?<Tree>
    var size: nat
    ghost var at: nat

    /** The cells of the root list. */
    ghost function Cells(): set<Cell<Tree>>
      reads this, roots
    {
      CellsOf(roots)
    }

    /** The roots and the cursor are well formed (`RootState`). */
    ghost predicate RootsValid()
      reads this, roots, Cells()
    {
      RootState(roots, min, at)
    }

    /** The keys held by the heap. */
    ghost function Contents(): multiset<int>
      reads this, roots
    {
      RootKeys(roots)
    }

    /** `RootsValid`, and `size` counts the keys. */
    ghost predicate Valid()
      reads this, roots, Cells()
    {
      RootsValid() && size == |Contents()|
    }

    /** `new`: no root list, `size` zero. */
    constructor ()
      ensures Valid() && Contents() == multiset{} && roots == null && size == 0
    {
      roots, min, size := null, null, 0;
    }

    /** The cursor holds the least key of the heap. */
    lemma MinIsLeast()
      requires RootsValid() && roots != null
      ensures min.key.key in Contents()
      ensures forall x | x in Contents() :: min.key.key <= x
    {
      LeastRootIsMin(roots.Contents(), at);
    }

    /**
     * `insert`: a one-key tree is added as a root and `size` grows by one.
     * The count is bumped first here; the two steps touch disjoint state and
     * neither can fail, so the order is not observable.
     */
    method Insert(key: int)
      requires Valid()
      modifies this, roots, Cells()
      ensures Valid() && Contents() == old(Contents()) + multiset{key} && size == old(size) + 1
      ensures old(CellsOf(roots)) <= CellsOf(roots) && fresh(CellsOf(roots) - old(CellsOf(roots)))
    {
      size := size + 1;
      AddRoot(Leaf(key));
    }

    /**
     * `add_root`: without a root list, a one-root list with the cursor on it;
     * otherwise `t` goes right after the cursor, and the cursor moves to it
     * only when its key is strictly smaller.
     */
    method AddRoot(t: Tree)
      requires RootsValid() && HeapOrdered(t)
      modifies this, roots, Cells()
      ensures RootsValid() && size == old(size)
      ensures Contents() == old(Contents()) + Elems(t)
      ensures old(roots) == null ==> fresh(roots) && roots.Contents() == [t] && at == 0
      ensures old(roots) != null ==>
        && roots == old(roots)
        && roots.Contents() == InsertedAfter(old(roots.Contents()), old(at), t)
        && at == (if old(roots.Contents())[old(at)].key > t.key then old(at) + 1 else old(at))
        && (at == old(at) ==> min == old(min))
        && (at != old(at) ==> fresh(min))
      ensures old(CellsOf(roots)) <= CellsOf(roots) && fresh(CellsOf(roots) - old(CellsOf(roots)))
    {
      if roots != null {
        GrowRoots(t);
      } else {
        StartRoots(t);
      }
    }

    /** The branch of `add_root` with a root list, stated on the heap's cells. */
    method GrowRoots(t: Tree)
      requires RootsValid() && roots != null && HeapOrdered(t)
      modifies this, roots, Cells()
      ensures RootsValid() && size == old(size) && roots == old(roots)
      ensures Contents() == old(Contents()) + Elems(t)
      ensures roots.Contents() == InsertedAfter(old(roots.Contents()), old(at), t)
      ensures at == (if old(roots.Contents())[old(at)].key > t.key then old(at) + 1 else old(at))
      ensures at == old(at) ==> min == old(min)
      ensures at != old(at) ==> fresh(min)
      ensures old(CellsOf(roots)) <= CellsOf(roots) && fresh(CellsOf(roots) - old(CellsOf(roots)))
    {
      var c := SpliceRoot(t);
      CellsGrow(old(roots.cells), roots.cells, c);
      assert CellsOf(roots) - old(CellsOf(roots)) <= {c};
    }

    /** The branch of `add_root` without a root list: `t` becomes its one root. */
    method StartRoots(t: Tree)
      requires roots == null && HeapOrdered(t)
      modifies this
      ensures RootsValid() && size == old(size) && Contents() == Elems(t)
      ensures fresh(roots) && roots.Contents() == [t] && at == 0
      ensures fresh(min) && CellsOf(roots) == {min}
    {
      var list, c := OneRoot(t);
      ElemsFOne(t);
      roots, min, at := list, c, 0;
    }

    /** The branch of `add_root` with a root list. */
    method SpliceRoot(t: Tree) returns (c: Cell<Tree>)
      requires RootsValid() && roots != null && HeapOrdered(t)
      modifies this, roots, Cells()
      ensures RootsValid() && size == old(size) && roots == old(roots)
      ensures Contents() == old(Contents()) + Elems(t)
      ensures roots.Contents() == InsertedAfter(old(roots.Contents()), old(at), t)
      ensures at == (if old(roots.Contents())[old(at)].key > t.key then old(at) + 1 else old(at))
      ensures at == old(at) ==> min == old(min)
      ensures at != old(at) ==> min == c
      ensures fresh(c) && multiset(roots.cells) == multiset(old(roots.cells)) + multiset{c}
    {
      ghost var ts := roots.Contents();
      LeastAfterInsert(ts, at, t);
      OrderedAfterInsert(ts, at, t);
      ElemsFInserted(ts, at, t);
      c := SpliceAfterCursor(t);
      if min.key.key > c.key.key {
        MoveCursor(c, at + 1);
      }
    }

    /** `insert_next` on the root list at the cursor; the new root is returned. */
    method SpliceAfterCursor(t: Tree) returns (c: Cell<Tree>)
      requires roots != null && roots.Valid() && at < |roots.cells| && min == roots.cells[at]
      modifies roots, Cells()
      ensures roots.Valid() && at + 1 < |roots.cells| && min == roots.cells[at] && c == roots.cells[at + 1]
      ensures c.key == t && roots.Contents() == InsertedAfter(old(roots.Contents()), at, t)
      ensures fresh(c)
      ensures multiset(roots.cells) == multiset(old(roots.cells)) + multiset{c}
    {
      assert min.next == null || min.next in roots.cells by {
        assert LinkedAt(roots.cells, at);
      }
      c := roots.InsertNext(min, at, t);
      InsertedMultiset(old(roots.cells), at, c);
    }

    /** Puts the cursor on the root `c` at position `i`, a least root. */
    method MoveCursor(c: Cell<Tree>, ghost i: nat)
      requires roots != null && roots.Valid() && i < |roots.cells| && roots.cells[i] == c
      requires LeastAt(roots.Contents(), i) && AllOrdered(roots.Contents())
      modifies this
      ensures RootsValid() && min == c && at == i
      ensures roots == old(roots) && size == old(size)
    {
      min, at := c, i;
    }
  }
}

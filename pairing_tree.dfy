/**
 * Value view of the pairing heap (src/heap/pairing.rs).
 *
 * A node cell holds a value, a `child` link to the first node of its own child
 * list and a `next` link to the following node of the list it sits in. Read from
 * one cell, everything reachable is therefore a binary tree: `child` goes down,
 * `next` goes right. `Tree` is that binary tree; a "chain" is a `Tree` read along
 * its `next` links (a sibling list), and a "root" is a tree with no `next`.
 */
module PairingTree {

  datatype Tree = Nil | Tree(val: int, child: Tree, next: Tree)

  /** The values held by `t`, its child subtree and the rest of its chain. */
  function Elems(t: Tree): multiset<int>
  {
    match t
    case Nil => multiset{}
    case Tree(v, c, n) => multiset{v} + Elems(c) + Elems(n)
  }

  /** The number of node cells in `t`. */
  function Size(t: Tree): nat
  {
    match t
    case Nil => 0
    case Tree(_, c, n) => 1 + Size(c) + Size(n)
  }

  /** A root of a heap: a node that has no sibling. */
  predicate IsRoot(t: Tree)
  {
    t.Tree? && t.next == Nil
  }

  /** Every value of `t` (its subtree and the rest of its chain) is at least `lo`. */
  predicate AtLeast(t: Tree, lo: int)
  {
    match t
    case Nil => true
    case Tree(v, c, n) => lo <= v && AtLeast(c, lo) && AtLeast(n, lo)
  }

  /** Min-heap order: each node's value is at most every value below it. */
  predicate HeapOrdered(t: Tree)
  {
    match t
    case Nil => true
    case Tree(v, c, n) => AtLeast(c, v) && HeapOrdered(c) && HeapOrdered(n)
  }

  /** `AtLeast` is the lower bound of the multiset of values. */
  lemma {:induction false} AtLeastElems(t: Tree, lo: int)
    ensures AtLeast(t, lo) <==> forall x | x in Elems(t) :: lo <= x
  {
    match t
    case Nil =>
    case Tree(v, c, n) =>
      AtLeastElems(c, lo);
      AtLeastElems(n, lo);
      assert v in Elems(t);
      assert forall x | x in Elems(c) :: x in Elems(t);
      assert forall x | x in Elems(n) :: x in Elems(t);
  }

  /** The root of a heap-ordered tree holds its least value; the rest sit below it. */
  lemma RootIsMin(t: Tree)
    requires IsRoot(t) && HeapOrdered(t)
    ensures Elems(t) == multiset{t.val} + Elems(t.child)
    ensures forall x | x in Elems(t) :: t.val <= x
  {
    assert Elems(t.next) == multiset{};
    AtLeastElems(t.child, t.val);
  }

  /** A lower bound stays a lower bound when lowered. */
  lemma {:induction false} AtLeastWeaken(t: Tree, lo: int, hi: int)
    requires lo <= hi && AtLeast(t, hi)
    ensures AtLeast(t, lo)
  {
    match t
    case Nil =>
    case Tree(v, c, n) =>
      AtLeastWeaken(c, lo, hi);
      AtLeastWeaken(n, lo, hi);
  }

  /** An empty heap or a root. */
  predicate RootOrNil(t: Tree)
  {
    t == Nil || IsRoot(t)
  }

  /** The state a heap object keeps: empty or one heap-ordered root, holding `n` values. */
  predicate IsHeap(t: Tree, n: nat)
  {
    RootOrNil(t) && HeapOrdered(t) && n == |Elems(t)|
  }

  predicate AllRoots(s: seq<Tree>)
  {
    forall i | 0 <= i < |s| :: IsRoot(s[i])
  }

  /** The trees of a chain, each cut loose from its `next` link, in list order. */
  function Siblings(t: Tree): (r: seq<Tree>)
    ensures |r| <= Size(t)
    ensures AllRoots(r)
  {
    match t
    case Nil => []
    case Tree(v, c, n) => [Tree(v, c, Nil)] + Siblings(n)
  }

  /** Cutting a node loose from its list splits the values and the heap order. */
  lemma Detach(t: Tree)
    requires t.Tree?
    ensures Elems(t) == Elems(t.(next := Nil)) + Elems(t.next)
    ensures HeapOrdered(t) <==> HeapOrdered(t.(next := Nil)) && HeapOrdered(t.next)
  {
  }

  /** Linking a root in front of a chain joins the values and the heap order. */
  lemma Push(r: Tree, acc: Tree)
    requires IsRoot(r)
    ensures Elems(r.(next := acc)) == Elems(r) + Elems(acc)
    ensures HeapOrdered(r.(next := acc)) <==> HeapOrdered(r) && HeapOrdered(acc)
  {
  }

  /**
   * Two-way meld of two roots (`merge_unchecked`): the root with the larger
   * value becomes the first child of the other; on equal values `root` stays on
   * top. The demoted root is put in front of the winner's existing child list.
   */
  function Meld(root: Tree, other: Tree): (r: Tree)
    requires IsRoot(root) && IsRoot(other)
    ensures IsRoot(r)
  {
    if root.val > other.val then
      Tree(other.val, Tree(root.val, root.child, other.child), Nil)
    else
      Tree(root.val, Tree(other.val, other.child, root.child), Nil)
  }

  /**
   * The meld keeps the smaller value on top (`root` on a tie), prepends the
   * loser to the winner's child list, keeps every value, and keeps heap order.
   */
  lemma MeldSpec(root: Tree, other: Tree)
    requires IsRoot(root) && IsRoot(other)
    ensures var r := Meld(root, other);
      && Elems(r) == Elems(root) + Elems(other)
      && Size(r) == Size(root) + Size(other)
      && r.val == (if root.val <= other.val then root.val else other.val)
      && (root.val <= other.val ==> Siblings(r.child) == [other] + Siblings(root.child))
      && (root.val > other.val ==> Siblings(r.child) == [root] + Siblings(other.child))
      && (HeapOrdered(root) && HeapOrdered(other) ==> HeapOrdered(r))
  {
    if root.val > other.val {
      MeldUnder(other, root);
    } else {
      MeldUnder(root, other);
    }
  }

  /** The meld holds the values of both roots. */
  lemma MeldElems(root: Tree, other: Tree)
    requires IsRoot(root) && IsRoot(other)
    ensures Elems(Meld(root, other)) == Elems(root) + Elems(other)
  {
    if root.val > other.val {
      MeldUnder(other, root);
    } else {
      MeldUnder(root, other);
    }
  }

  /** Putting `loser` in front of the child list of `winner` when `winner.val <= loser.val`. */
  lemma MeldUnder(winner: Tree, loser: Tree)
    requires IsRoot(winner) && IsRoot(loser) && winner.val <= loser.val
    ensures var d := Tree(loser.val, loser.child, winner.child);
      && Elems(Tree(winner.val, d, Nil)) == Elems(winner) + Elems(loser)
      && (HeapOrdered(winner) && HeapOrdered(loser) ==> HeapOrdered(Tree(winner.val, d, Nil)))
  {
    var d := Tree(loser.val, loser.child, winner.child);
    assert Elems(d) == multiset{loser.val} + Elems(loser.child) + Elems(winner.child);
    if HeapOrdered(winner) && HeapOrdered(loser) {
      AtLeastWeaken(loser.child, winner.val, loser.val);
      assert AtLeast(d, winner.val);
    }
  }

  /**
   * `Node::merge`: two-way meld of two optional roots; when one side is empty
   * the other side is returned as it is.
   */
  function MeldOpt(root: Tree, other: Tree): (r: Tree)
    requires RootOrNil(root) && RootOrNil(other)
    ensures root == Nil ==> r == other
    ensures other == Nil ==> r == root
    ensures RootOrNil(r)
  {
    if root.Tree? && other.Tree? then Meld(root, other)
    else if root.Nil? then other
    else root
  }

  lemma MeldOptSpec(root: Tree, other: Tree)
    requires RootOrNil(root) && RootOrNil(other)
    ensures var r := MeldOpt(root, other);
      && Elems(r) == Elems(root) + Elems(other)
      && (HeapOrdered(root) && HeapOrdered(other) ==> HeapOrdered(r))
  {
    if root.Tree? && other.Tree? {
      MeldSpec(root, other);
    }
  }

  /**
   * First pass of `merge_list`: take the trees of `list` two at a time from the
   * front, meld each pair and push the result onto the front of the chain `acc`;
   * an odd last tree is pushed as it is.
   */
  function PairUp(list: Tree, acc: Tree): (r: Tree)
    ensures r.Nil? <==> list.Nil? && acc.Nil?
    decreases list
  {
    if list.Nil? then acc
    else if list.next.Nil? then list.(next := acc)
    else
      var m := Meld(list.(next := Nil), list.next.(next := Nil));
      PairUp(list.next.next, m.(next := acc))
  }

  /** The first pass keeps every value. */
  lemma {:induction false} PairUpElems(list: Tree, acc: Tree)
    ensures Elems(PairUp(list, acc)) == Elems(list) + Elems(acc)
    decreases list
  {
    if list.Tree? && list.next.Tree? {
      var m := Meld(list.(next := Nil), list.next.(next := Nil));
      PairUpElems(list.next.next, m.(next := acc));
      PairStepElems(list, acc);
    } else if list.Tree? {
      Push(list.(next := Nil), acc);
    }
  }

  /** One round of the first pass: the values of a melded pair are those of the two trees. */
  lemma PairStepElems(list: Tree, acc: Tree)
    requires list.Tree? && list.next.Tree?
    requires var m := Meld(list.(next := Nil), list.next.(next := Nil));
      Elems(PairUp(list.next.next, m.(next := acc))) == Elems(list.next.next) + Elems(m.(next := acc))
    ensures Elems(PairUp(list, acc)) == Elems(list) + Elems(acc)
  {
    var a, b, rest := list.(next := Nil), list.next.(next := Nil), list.next.next;
    var m := Meld(a, b);
    var A, B, R, C := Elems(a), Elems(b), Elems(rest), Elems(acc);
    assert Elems(list) == A + (B + R) by {
      Detach(list);
      Detach(list.next);
    }
    assert Elems(m.(next := acc)) == (A + B) + C by {
      MeldElems(a, b);
      Push(m, acc);
    }
    assert R + ((A + B) + C) == A + (B + R) + C;
  }

  /** The first pass keeps the heap order of every tree. */
  lemma {:induction false} PairUpOrdered(list: Tree, acc: Tree)
    requires HeapOrdered(list) && HeapOrdered(acc)
    ensures HeapOrdered(PairUp(list, acc))
    decreases list
  {
    if list.Nil? {
    } else if list.next.Nil? {
      Detach(list);
      Push(list.(next := Nil), acc);
    } else {
      var a, b := list.(next := Nil), list.next.(next := Nil);
      Detach(list);
      Detach(list.next);
      var m := Meld(a, b);
      MeldSpec(a, b);
      Push(m, acc);
      PairUpOrdered(list.next.next, m.(next := acc));
    }
  }

  /** Second pass of `merge_list`: meld the trees of `rest` into `acc`, front first. */
  function FoldIn(acc: Tree, rest: Tree): (r: Tree)
    requires IsRoot(acc)
    ensures IsRoot(r)
    decreases rest
  {
    if rest.Nil? then acc
    else FoldIn(Meld(acc, rest.(next := Nil)), rest.next)
  }

  /** The second pass keeps every value and the heap order. */
  lemma {:induction false} FoldInSpec(acc: Tree, rest: Tree)
    requires IsRoot(acc)
    ensures Elems(FoldIn(acc, rest)) == Elems(acc) + Elems(rest)
    ensures HeapOrdered(acc) && HeapOrdered(rest) ==> HeapOrdered(FoldIn(acc, rest))
    decreases rest
  {
    if rest.Tree? {
      Detach(rest);
      MeldSpec(acc, rest.(next := Nil));
      FoldInSpec(Meld(acc, rest.(next := Nil)), rest.next);
    }
  }

  /**
   * Two-pass consolidation of a sibling list into one tree (`merge_list`):
   * `Nil` for an empty list, otherwise one root.
   */
  function TwoPass(list: Tree): (r: Tree)
    ensures r.Nil? <==> list.Nil?
    ensures r.Tree? ==> IsRoot(r)
  {
    var acc := PairUp(list, Nil);
    if acc.Nil? then Nil else FoldIn(acc.(next := Nil), acc.next)
  }

  /** The consolidated tree holds exactly the values of the list, in heap order. */
  lemma TwoPassSpec(list: Tree)
    ensures Elems(TwoPass(list)) == Elems(list)
    ensures HeapOrdered(list) ==> HeapOrdered(TwoPass(list))
  {
    PairUpElems(list, Nil);
    if HeapOrdered(list) {
      PairUpOrdered(list, Nil);
    }
    var acc := PairUp(list, Nil);
    if acc.Tree? {
      Detach(acc);
      FoldInSpec(acc.(next := Nil), acc.next);
    }
  }
  /**
   * Deleting the minimum at the value level: the root of a heap-ordered tree
   * holds a least value, and consolidating its child list yields a
   * heap-ordered root holding exactly the other values.
   */
  lemma DeleteMinSpec(t: Tree, n: nat)
    requires IsHeap(t, n) && t.Tree?
    ensures t.val in Elems(t) && forall x | x in Elems(t) :: t.val <= x
    ensures n > 0 && IsHeap(TwoPass(t.child), n - 1)
    ensures Elems(TwoPass(t.child)) == Elems(t) - multiset{t.val}
  {
    RootIsMin(t);
    TwoPassSpec(t.child);
  }

  /** Inserting at the value level: melding in a singleton adds exactly that value. */
  lemma InsertSpec(t: Tree, n: nat, v: int)
    requires IsHeap(t, n)
    ensures IsHeap(MeldOpt(t, Tree(v, Nil, Nil)), n + 1)
    ensures Elems(MeldOpt(t, Tree(v, Nil, Nil))) == Elems(t) + multiset{v}
  {
    MeldOptSpec(t, Tree(v, Nil, Nil));
  }

  // ---------------------------------------------------------------------------
  // The two passes restated over sequences of trees.

  function Reverse(s: seq<Tree>): (r: seq<Tree>)
    ensures |r| == |s|
    ensures AllRoots(s) ==> AllRoots(r)
  {
    if s == [] then [] else Reverse(s[1..]) + [s[0]]
  }

  /** Melds neighbours pairwise, left to right; an odd last tree stays as it is. */
  function Pairwise(s: seq<Tree>): (r: seq<Tree>)
    requires AllRoots(s)
    ensures AllRoots(r)
  {
    if |s| <= 1 then s else [Meld(s[0], s[1])] + Pairwise(s[2..])
  }

  /** Left fold of the trees of `s` into `acc` by `Meld`. */
  function FoldSeq(acc: Tree, s: seq<Tree>): (r: Tree)
    requires IsRoot(acc)
    requires AllRoots(s)
    ensures IsRoot(r)
    decreases |s|
  {
    if s == [] then acc else FoldSeq(Meld(acc, s[0]), s[1..])
  }

  lemma {:induction false} SiblingsOfPushed(r: Tree, acc: Tree)
    requires IsRoot(r)
    ensures Siblings(r.(next := acc)) == [r] + Siblings(acc)
  {
  }

  /**
   * The first pass leaves on the accumulator the pairwise melds of the list in
   * reverse order, in front of what the accumulator held before.
   */
  lemma {:induction false} PairUpIsReversedPairwise(list: Tree, acc: Tree)
    ensures Siblings(PairUp(list, acc)) == Reverse(Pairwise(Siblings(list))) + Siblings(acc)
    decreases list
  {
    if list.Nil? {
      assert Siblings(list) == [];
    } else if list.next.Nil? {
      assert Siblings(list) == [list.(next := Nil)];
      SiblingsOfPushed(list.(next := Nil), acc);
    } else {
      var m := Meld(list.(next := Nil), list.next.(next := Nil));
      var p := Pairwise(Siblings(list.next.next));
      calc {
        Siblings(PairUp(list, acc));
        Siblings(PairUp(list.next.next, m.(next := acc)));
        { PairUpIsReversedPairwise(list.next.next, m.(next := acc)); }
        Reverse(p) + Siblings(m.(next := acc));
        { SiblingsOfPushed(m, acc); }
        Reverse(p) + ([m] + Siblings(acc));
        (Reverse(p) + [m]) + Siblings(acc);
        { ReverseCons(m, p); }
        Reverse([m] + p) + Siblings(acc);
        { PairwiseOfChain(list); }
        Reverse(Pairwise(Siblings(list))) + Siblings(acc);
      }
    }
  }

  /** Pairing a chain of two or more trees starts with the meld of its first two. */
  lemma {:induction false} PairwiseOfChain(list: Tree)
    requires list.Tree? && list.next.Tree?
    ensures Pairwise(Siblings(list))
         == [Meld(list.(next := Nil), list.next.(next := Nil))] + Pairwise(Siblings(list.next.next))
  {
    var a, b, rest := list.(next := Nil), list.next.(next := Nil), list.next.next;
    var s := Siblings(list);
    assert Siblings(list.next) == [b] + Siblings(rest);
    assert s == [a] + ([b] + Siblings(rest));
    assert s[0] == a && s[1] == b && s[2..] == Siblings(rest);
  }

  lemma ReverseCons(x: Tree, s: seq<Tree>)
    ensures Reverse([x] + s) == Reverse(s) + [x]
  {
    assert ([x] + s)[1..] == s;
  }

  /** The second pass is a left fold of the chain's trees. */
  lemma {:induction false} FoldInIsFoldSeq(acc: Tree, rest: Tree)
    requires IsRoot(acc)
    ensures FoldIn(acc, rest) == FoldSeq(acc, Siblings(rest))
    decreases rest
  {
    if rest.Tree? {
      var s := Siblings(rest);
      assert s[0] == rest.(next := Nil) && s[1..] == Siblings(rest.next);
      FoldInIsFoldSeq(Meld(acc, rest.(next := Nil)), rest.next);
    }
  }

  /**
   * `TwoPass` is exactly the two-pass scheme: meld neighbours left to right,
   * then fold the results starting from the last pair.
   */
  lemma {:induction false} TwoPassIsPairThenFold(list: Tree)
    ensures var p := Reverse(Pairwise(Siblings(list)));
            TwoPass(list) == if p == [] then Nil else FoldSeq(p[0], p[1..])
  {
    var p := Reverse(Pairwise(Siblings(list)));
    PairUpIsReversedPairwise(list, Nil);
    var acc := PairUp(list, Nil);
    assert Siblings(acc) == p + [];
    assert Siblings(acc) == p;
    if acc.Tree? {
      assert p[0] == acc.(next := Nil) && p[1..] == Siblings(acc.next);
      FoldInIsFoldSeq(acc.(next := Nil), acc.next);
    }
  }

  // ---------------------------------------------------------------------------
  // Debug rendering (`fmt_rec`).

  /** One line of the debug rendering: a value indented by `depth` tabs. */
  datatype Line = Line(depth: nat, val: int)

  function Values(ls: seq<Line>): multiset<int>
  {
    if ls == [] then multiset{} else multiset{ls[0].val} + Values(ls[1..])
  }

  lemma {:induction false} ValuesAppend(a: seq<Line>, b: seq<Line>)
    ensures Values(a + b) == Values(a) + Values(b)
    decreases a
  {
    if a == [] {
      assert a + b == b;
    } else {
      assert (a + b)[0] == a[0] && (a + b)[1..] == a[1..] + b;
      ValuesAppend(a[1..], b);
    }
  }

  /**
   * The depth-first rendering of `fmt_rec`: a node, then its child list one
   * level deeper, then the rest of its own list at the same depth.
   */
  function Render(t: Tree, spaces: nat): (r: seq<Line>)
    ensures |r| == Size(t)
    ensures t.Tree? ==> r[0] == Line(spaces, t.val)
  {
    match t
    case Nil => []
    case Tree(v, c, n) => [Line(spaces, v)] + Render(c, spaces + 1) + Render(n, spaces)
  }

  /** The rendering lists every value of the tree once. */
  lemma {:induction false} RenderValues(t: Tree, spaces: nat)
    ensures Values(Render(t, spaces)) == Elems(t)
  {
    match t
    case Nil =>
    case Tree(v, c, n) =>
      var rc, rn := Render(c, spaces + 1), Render(n, spaces);
      RenderValues(c, spaces + 1);
      RenderValues(n, spaces);
      ValuesAppend([Line(spaces, v)] + rc, rn);
      ValuesAppend([Line(spaces, v)], rc);
  }

  /** No line of the rendering is indented less than the depth it starts at. */
  lemma {:induction false} RenderDepth(t: Tree, spaces: nat)
    ensures forall i | 0 <= i < |Render(t, spaces)| :: spaces <= Render(t, spaces)[i].depth
  {
    match t
    case Nil =>
    case Tree(v, c, n) =>
      var rc, rn := Render(c, spaces + 1), Render(n, spaces);
      RenderDepth(c, spaces + 1);
      RenderDepth(n, spaces);
      var r := [Line(spaces, v)] + rc + rn;
      forall i | 0 <= i < |r|
        ensures spaces <= r[i].depth
      {
        if i == 0 {
        } else if i <= |rc| {
          assert r[i] == rc[i - 1];
        } else {
          assert r[i] == rn[i - 1 - |rc|];
        }
      }
  }

  /** The depth of every node of `t`, in depth-first order: a child list sits one level below its parent. */
  function Depths(t: Tree): (r: seq<nat>)
    ensures |r| == Size(t)
  {
    match t
    case Nil => []
    case Tree(_, c, n) => [0] + Deeper(Depths(c)) + Depths(n)
  }

  /** Every depth of `ds` one level further down. */
  function Deeper(ds: seq<nat>): (r: seq<nat>)
    ensures |r| == |ds| && forall i | 0 <= i < |ds| :: r[i] == ds[i] + 1
  {
    if ds == [] then [] else [ds[0] + 1] + Deeper(ds[1..])
  }

  /** Each line of the rendering is indented by exactly the depth of its node, counted from `spaces`. */
  lemma {:induction false} RenderDepthExact(t: Tree, spaces: nat)
    ensures forall i | 0 <= i < |Render(t, spaces)| :: Render(t, spaces)[i].depth == spaces + Depths(t)[i]
  {
    match t
    case Nil =>
    case Tree(v, c, n) =>
      var rc, rn := Render(c, spaces + 1), Render(n, spaces);
      var dc, dn := Deeper(Depths(c)), Depths(n);
      RenderDepthExact(c, spaces + 1);
      RenderDepthExact(n, spaces);
      var r, d := [Line(spaces, v)] + rc + rn, [0] + dc + dn;
      forall i | 0 <= i < |r|
        ensures r[i].depth == spaces + d[i]
      {
        if i == 0 {
        } else if i <= |rc| {
          assert r[i] == rc[i - 1] && d[i] == dc[i - 1];
        } else {
          assert r[i] == rn[i - 1 - |rc|] && d[i] == dn[i - 1 - |rc|];
        }
      }
  }
}

/**
 * The pairing heap of src/heap/pairing.rs at the level of its node cells.
 *
 * Each cell is an object whose `next` and `child` links the code rewires in
 * place. A ghost `Shape` names the cells of a chain in the order the links
 * visit them; `Rep` says the links really are that shape and that no cell is
 * reachable twice (ownership is a tree), and `Abs` reads the values out as a
 * `PairingTree.Tree`, against which every operation is specified.
 */
module PairingHeap {
  import opened PairingTree
  import opened Options

  /** The skeleton of a chain: the cell at its front, its child chain, its next chain. */
  datatype Shape = Null | Cell(node: Node, child: Shape, next: Shape)

  function Nodes(s: Shape): set<Node>
  {
    match s
    case Null => {}
    case Cell(p, c, n) => {p} + Nodes(c) + Nodes(n)
  }

  /** The number of cells of `s`. */
  function Cells(s: Shape): nat
  {
    match s
    case Null => 0
    case Cell(_, c, n) => 1 + Cells(c) + Cells(n)
  }

  function Ptr(s: Shape): Node?
  {
    if s.Null? then null else s.node
  }

  /** The links of the cells of `s` are those of `s`, and no cell occurs twice. */
  ghost predicate Rep(s: Shape)
    reads Nodes(s)
  {
    match s
    case Null => true
    case Cell(p, c, n) =>
      && p.child == Ptr(c) && p.next == Ptr(n)
      && p !in Nodes(c) && p !in Nodes(n) && Nodes(c) !! Nodes(n)
      && Rep(c) && Rep(n)
  }

  /** `s` is linked, starts at `h`, and is empty or a single root (no `next`). */
  ghost predicate Rooted(s: Shape, h: Node?)
    reads Nodes(s)
  {
    Rep(s) && Ptr(s) == h && (s.Cell? ==> s.next == Null)
  }

  /** The values held by the cells of `s`, arranged as `s` links them. */
  ghost function Abs(s: Shape): Tree
    reads Nodes(s)
  {
    match s
    case Null => Nil
    case Cell(p, c, n) => Tree(p.val, Abs(c), Abs(n))
  }

  /** Every cell of a shape is an allocated object (needed to carry `Rep` across calls). */
  lemma {:induction false} NodesAllocated(s: Shape)
    ensures forall p | p in Nodes(s) :: allocated(p)
  {
    match s
    case Null =>
    case Cell(_, c, n) =>
      NodesAllocated(c);
      NodesAllocated(n);
  }

  /** A shape with no `next` reads as an empty heap or a root. */
  lemma RootShape(s: Shape)
    requires s.Cell? ==> s.next == Null
    ensures RootOrNil(Abs(s))
  {
  }

  /** A shape whose cells were not written keeps its links and its values. */
  twostate lemma Frame(s: Shape)
    requires old(forall p | p in Nodes(s) :: allocated(p))
    requires old(Rep(s)) && unchanged(Nodes(s))
    ensures Rep(s) && Abs(s) == old(Abs(s))
  {
  }

  lemma {:induction false} CellsIsSize(s: Shape)
    ensures Cells(s) == Size(Abs(s))
  {
    match s
    case Null =>
    case Cell(_, c, n) =>
      CellsIsSize(c);
      CellsIsSize(n);
  }

  lemma {:induction false} ElemsCount(t: Tree)
    ensures |Elems(t)| == Size(t)
  {
    match t
    case Nil =>
    case Tree(_, c, n) =>
      ElemsCount(c);
      ElemsCount(n);
  }

  /** The cells of `s` depth first: a cell, then its child chain, then its next chain. */
  function Preorder(s: Shape): seq<Node>
  {
    match s
    case Null => []
    case Cell(p, c, n) => [p] + Preorder(c) + Preorder(n)
  }

  /**
   * The rendering of `fmt_rec` meets the cells in the order `drop` visits
   * them: its lines carry the values of `Preorder(s)`, one for one.
   */
  lemma {:induction false} RenderPreorder(s: Shape, spaces: nat)
    ensures |Render(Abs(s), spaces)| == |Preorder(s)|
    ensures forall i | 0 <= i < |Preorder(s)| :: Render(Abs(s), spaces)[i].val == Preorder(s)[i].val
  {
    match s
    case Null =>
    case Cell(p, c, n) =>
      var rc, rn := Render(Abs(c), spaces + 1), Render(Abs(n), spaces);
      var pc, pn := Preorder(c), Preorder(n);
      RenderPreorder(c, spaces + 1);
      RenderPreorder(n, spaces);
      var r, q := [Line(spaces, p.val)] + rc + rn, [p] + pc + pn;
      assert Render(Abs(s), spaces) == r;
      forall i | 0 <= i < |q|
        ensures r[i].val == q[i].val
      {
        if i == 0 {
        } else if i <= |rc| {
          assert r[i] == rc[i - 1] && q[i] == pc[i - 1];
        } else {
          assert r[i] == rn[i - 1 - |rc|] && q[i] == pn[i - 1 - |rc|];
        }
      }
  }

  /** The cells still to visit for a stack of chains, the top (last) chain first. */
  function Pending(stack: seq<Shape>): seq<Node>
  {
    if |stack| == 0 then [] else Preorder(stack[|stack| - 1]) + Pending(stack[..|stack| - 1])
  }

  predicate Distinct(q: seq<Node>)
  {
    forall i, j | 0 <= i < j < |q| :: q[i] != q[j]
  }

  /** Two repetition-free sequences with no entry in common join into one. */
  lemma DistinctJoin(a: seq<Node>, b: seq<Node>)
    requires Distinct(a) && Distinct(b) && forall x | x in a :: x !in b
    ensures Distinct(a + b)
  {
    var ab := a + b;
    forall i, j | 0 <= i < j < |ab|
      ensures ab[i] != ab[j]
    {
      if j < |a| {
        assert ab[i] == a[i] && ab[j] == a[j];
      } else if i >= |a| {
        assert ab[i] == b[i - |a|] && ab[j] == b[j - |a|];
      } else {
        assert ab[i] == a[i] && ab[j] == b[j - |a|];
        assert a[i] in a && b[j - |a|] in b;
      }
    }
  }

  /** The visit reaches exactly the cells of the chain. */
  lemma {:induction false} PreorderNodes(s: Shape)
    ensures forall p | p in Preorder(s) :: p in Nodes(s)
    ensures forall p | p in Nodes(s) :: p in Preorder(s)
  {
    match s
    case Null =>
    case Cell(p, c, n) =>
      PreorderNodes(c);
      PreorderNodes(n);
      assert Preorder(s) == [p] + Preorder(c) + Preorder(n);
  }

  /**
   * In a well-linked chain every cell is visited exactly once, so the visit has
   * as many entries as the chain has cells.
   */
  lemma {:induction false} PreorderDistinct(s: Shape)
    requires Rep(s)
    ensures Distinct(Preorder(s)) && |Preorder(s)| == Cells(s)
  {
    match s
    case Null =>
    case Cell(p, c, n) =>
      var below := Preorder(c) + Preorder(n);
      assert Distinct(below) && |below| == Cells(c) + Cells(n) by {
        PreorderDistinct(c);
        PreorderDistinct(n);
        PreorderNodes(c);
        forall x | x in Preorder(c)
          ensures x !in Preorder(n)
        {
          PreorderNodes(n);
        }
        DistinctJoin(Preorder(c), Preorder(n));
      }
      assert p !in below by {
        PreorderNodes(c);
        PreorderNodes(n);
      }
      DistinctJoin([p], below);
      assert Preorder(s) == [p] + below;
  }

  /** `stack` holds the front cells of the well-linked chains `stackS`. */
  ghost predicate Stacked(stack: seq<Node>, stackS: seq<Shape>)
    reads set i, p | 0 <= i < |stackS| && p in Nodes(stackS[i]) :: p
  {
    && |stack| == |stackS|
    && forall i | 0 <= i < |stack| :: Rep(stackS[i]) && stackS[i].Cell? && stackS[i].node == stack[i]
  }

  lemma AppendAssoc(a: seq<Node>, b: seq<Node>, c: seq<Node>)
    ensures (a + b) + c == a + (b + c)
  {
  }

  lemma StackPop(stack: seq<Node>, stackS: seq<Shape>)
    requires Stacked(stack, stackS) && |stack| > 0
    ensures Stacked(stack[..|stack| - 1], stackS[..|stackS| - 1])
    ensures var s := stackS[|stackS| - 1]; Rep(s) && s.Cell? && s.node == stack[|stack| - 1]
    ensures Pending(stackS) == Preorder(stackS[|stackS| - 1]) + Pending(stackS[..|stackS| - 1])
  {
  }

  lemma StackPush(stack: seq<Node>, stackS: seq<Shape>, p: Node, s: Shape)
    requires Stacked(stack, stackS) && Rep(s) && s.Cell? && s.node == p
    ensures Stacked(stack + [p], stackS + [s])
    ensures Pending(stackS + [s]) == Preorder(s) + Pending(stackS)
  {
    assert (stackS + [s])[..|stackS|] == stackS;
  }

  // ---------------------------------------------------------------------------
  // Copying: a ghost map `copy` sends each original cell to its new cell.

  /** The image of the chain `s` under `copy`. */
  function CopyShape(s: Shape, copy: map<Node, Node>): Shape
    requires Nodes(s) <= copy.Keys
  {
    match s
    case Null => Null
    case Cell(p, c, n) => Cell(copy[p], CopyShape(c, copy), CopyShape(n, copy))
  }

  /** The new cell of `o` holds its value and copies of its links. */
  ghost predicate Mirrored(o: Node, copy: map<Node, Node>)
    reads o, if o in copy then {copy[o]} else {}
  {
    && o in copy && copy[o].val == o.val
    && (if o.next == null then copy[o].next == null else o.next in copy && copy[o].next == copy[o.next])
    && (if o.child == null then copy[o].child == null else o.child in copy && copy[o].child == copy[o.child])
  }

  ghost predicate Injective(copy: map<Node, Node>)
  {
    forall o1, o2 | o1 in copy && o2 in copy && o1 != o2 :: copy[o1] != copy[o2]
  }

  lemma {:induction false} CopyNodes(s: Shape, copy: map<Node, Node>)
    requires Nodes(s) <= copy.Keys
    ensures Nodes(CopyShape(s, copy)) == set o | o in Nodes(s) :: copy[o]
  {
    match s
    case Null =>
    case Cell(p, c, n) =>
      CopyNodes(c, copy);
      CopyNodes(n, copy);
  }

  /**
   * When every cell of a well-linked chain is mirrored by a one-to-one `copy`,
   * the new cells form a well-linked chain holding the same tree.
   */
  lemma {:induction false} CopyFaithful(s: Shape, copy: map<Node, Node>)
    requires Rep(s) && Injective(copy)
    requires forall o | o in Nodes(s) :: Mirrored(o, copy)
    ensures Nodes(s) <= copy.Keys
    ensures Rep(CopyShape(s, copy)) && Abs(CopyShape(s, copy)) == Abs(s)
    ensures Ptr(CopyShape(s, copy)) == if s.Null? then null else copy[s.node]
  {
    match s
    case Null =>
    case Cell(p, c, n) =>
      assert Mirrored(p, copy);
      CopyFaithful(c, copy);
      CopyFaithful(n, copy);
      CopyNodes(c, copy);
      CopyNodes(n, copy);
  }

  /** The cells of the chains on a stack. */
  function StackNodes(stack: seq<Shape>): set<Node>
  {
    if |stack| == 0 then {} else StackNodes(stack[..|stack| - 1]) + Nodes(stack[|stack| - 1])
  }

  /** `b` is `s` or a chain reached from it through `child` and `next` links. */
  ghost predicate Within(b: Shape, s: Shape)
  {
    b == s || (s.Cell? && (Within(b, s.child) || Within(b, s.next)))
  }

  lemma {:induction false} WithinRep(b: Shape, s: Shape)
    requires Rep(s) && Within(b, s)
    ensures Rep(b) && Nodes(b) <= Nodes(s)
  {
    if b != s {
      if Within(b, s.child) {
        WithinRep(b, s.child);
      } else {
        WithinRep(b, s.next);
      }
    }
  }

  lemma {:induction false} WithinLinks(b: Shape, s: Shape)
    requires Within(b, s) && b.Cell?
    ensures Within(b.child, s) && Within(b.next, s)
  {
    if b != s {
      if Within(b, s.child) {
        WithinLinks(b, s.child);
      } else {
        WithinLinks(b, s.next);
      }
    }
  }

  /**
   * A chain still to be copied: its front cell has a new cell with no links
   * yet, no other cell of it has one, and none of it is done.
   */
  ghost predicate Block(b: Shape, s: Shape, copy: map<Node, Node>, done: set<Node>)
  {
    && Within(b, s) && b.Cell? && b.node in copy && Nodes(b) !! done
    && forall o | o in Nodes(b) && o != b.node :: o !in copy
  }

  /** The stack of `clone`: pairs of an original front cell and its new cell, over disjoint blocks. */
  ghost predicate Pairs(stack: seq<(Node, Node)>, stackS: seq<Shape>, s: Shape, copy: map<Node, Node>, done: set<Node>)
    decreases |stackS|
  {
    && |stack| == |stackS|
    && (|stack| > 0 ==>
          var k := |stack| - 1;
          && Pairs(stack[..k], stackS[..k], s, copy, done)
          && Block(stackS[k], s, copy, done) && stack[k] == (stackS[k].node, copy[stackS[k].node])
          && Nodes(stackS[k]) !! StackNodes(stackS[..k]))
  }

  /**
   * The state of `clone` between cells: `copy` is one-to-one into new cells,
   * every done cell is mirrored, and every other copied cell is still unlinked.
   */
  ghost predicate Copies(s: Shape, copy: map<Node, Node>, done: set<Node>)
    reads Nodes(s), copy.Values
  {
    && Rep(s) && Injective(copy) && done <= copy.Keys
    && (forall o | o in copy :: o in Nodes(s) && copy[o] !in Nodes(s))
    && (forall o | o in done :: Mirrored(o, copy))
    && (forall o | o in copy && o !in done :: copy[o].val == o.val && copy[o].next == null && copy[o].child == null)
  }

  /** A new unlinked cell for a cell not yet copied keeps the state of `clone`. */
  lemma CopiesAdd(s: Shape, copy: map<Node, Node>, done: set<Node>, k: Node, v: Node)
    requires Copies(s, copy, done) && k in Nodes(s) && k !in copy
    requires v !in Nodes(s) && v !in copy.Values && v.val == k.val && v.next == null && v.child == null
    ensures Copies(s, copy[k := v], done)
  {
    var copy' := copy[k := v];
    forall o | o in done
      ensures Mirrored(o, copy')
    {
      assert Mirrored(o, copy);
    }
  }

  /** The cells of `s` still to copy once the front cell of the block `sc` is done and its `next` chain is pushed. */
  lemma CoverNext(s: Shape, sc: Shape, done: set<Node>, rest: set<Node>, rest': set<Node>, keys: set<Node>, keys': set<Node>)
    requires sc.Cell? && sc.node !in Nodes(sc.child) + Nodes(sc.next) && Nodes(sc.child) !! Nodes(sc.next)
    requires Nodes(s) == done + Nodes(sc) + rest && Nodes(sc) !! rest && Nodes(sc) !! done
    requires rest' == rest + Nodes(sc.next) && keys' <= keys + Nodes(sc.next)
    requires forall o | o in Nodes(sc) && o != sc.node :: o !in keys
    ensures Nodes(s) == done + {sc.node} + Nodes(sc.child) + rest'
    ensures Nodes(sc.child) !! rest' && sc.node !in rest'
    ensures Nodes(sc.child) !! done && forall o | o in Nodes(sc.child) :: o !in keys'
  {
  }

  lemma PairsPop(stack: seq<(Node, Node)>, stackS: seq<Shape>, s: Shape, copy: map<Node, Node>, done: set<Node>)
    requires Pairs(stack, stackS, s, copy, done) && |stack| > 0
    ensures var k := |stack| - 1;
      && Pairs(stack[..k], stackS[..k], s, copy, done) && Block(stackS[k], s, copy, done)
      && stack[k] == (stackS[k].node, copy[stackS[k].node])
      && StackNodes(stackS) == Nodes(stackS[k]) + StackNodes(stackS[..k]) && Nodes(stackS[k]) !! StackNodes(stackS[..k])
  {
  }

  lemma PairsPush(stack: seq<(Node, Node)>, stackS: seq<Shape>, s: Shape, copy: map<Node, Node>, done: set<Node>, b: Shape)
    requires Pairs(stack, stackS, s, copy, done) && Block(b, s, copy, done) && Nodes(b) !! StackNodes(stackS)
    ensures Pairs(stack + [(b.node, copy[b.node])], stackS + [b], s, copy, done)
    ensures StackNodes(stackS + [b]) == StackNodes(stackS) + Nodes(b)
  {
    assert (stackS + [b])[..|stackS|] == stackS;
    assert (stack + [(b.node, copy[b.node])])[..|stack|] == stack;
  }

  /** Copying a cell outside every stacked block, or finishing one, keeps the stack's blocks intact. */
  lemma {:induction false} PairsGrow(stack: seq<(Node, Node)>, stackS: seq<Shape>, s: Shape, copy: map<Node, Node>, done: set<Node>,
                                     copy': map<Node, Node>, done': set<Node>)
    requires Pairs(stack, stackS, s, copy, done)
    requires copy.Keys <= copy'.Keys && done <= done'
    requires forall o | o in copy :: copy'[o] == copy[o]
    requires forall o | o in copy'.Keys - copy.Keys :: o !in StackNodes(stackS)
    requires forall o | o in done' - done :: o !in StackNodes(stackS)
    ensures Pairs(stack, stackS, s, copy', done')
    decreases |stackS|
  {
    if |stack| > 0 {
      var k := |stack| - 1;
      assert StackNodes(stackS) == StackNodes(stackS[..k]) + Nodes(stackS[k]);
      PairsGrow(stack[..k], stackS[..k], s, copy, done, copy', done');
    }
  }

  /** A node cell (`Node<T>` over `int` values). */
  class Node {
    const val: int
    var next: Node?
    var child: Node?

    /** `Node::new` / `Node::new_ptr`: a fresh unlinked cell. */
    constructor (val: int)
      ensures this.val == val && next == null && child == null
    {
      this.val := val;
      next := null;
      child := null;
    }

    /**
     * `merge_unchecked`: both arguments are roots of disjoint trees. The one
     * with the larger value is linked in front of the other's child list; on a
     * tie `root` stays on top. The ghost `tr`, `to` are the trees read before.
     */
    static method MergeUnchecked(root: Node, other: Node, ghost sr: Shape, ghost so: Shape, ghost tr: Tree, ghost to: Tree)
      returns (w: Node, ghost sw: Shape)
      requires Rep(sr) && sr.Cell? && sr.node == root && sr.next == Null && Abs(sr) == tr
      requires Rep(so) && so.Cell? && so.node == other && so.next == Null && Abs(so) == to
      requires Nodes(sr) !! Nodes(so)
      modifies root, other
      ensures Rep(sw) && sw.Cell? && sw.node == w && sw.next == Null
      ensures Nodes(sw) == Nodes(sr) + Nodes(so)
      ensures IsRoot(tr) && IsRoot(to) && Abs(sw) == Meld(tr, to)
    {
      if root.val > other.val {
        root.next := other.child;
        other.child := root;
        w := other;
        sw := Cell(other, Cell(root, sr.child, so.child), Null);
      } else {
        other.next := root.child;
        root.child := other;
        w := root;
        sw := Cell(root, Cell(other, so.child, sr.child), Null);
      }
    }

    /** `Node::merge`: meld two optional roots; an absent side yields the other. */
    static method Merge(root: Node?, other: Node?, ghost sr: Shape, ghost so: Shape, ghost tr: Tree, ghost to: Tree)
      returns (r: Node?, ghost s: Shape)
      requires Rooted(sr, root) && Abs(sr) == tr
      requires Rooted(so, other) && Abs(so) == to
      requires Nodes(sr) !! Nodes(so)
      modifies Nodes(sr), Nodes(so)
      ensures Rooted(s, r)
      ensures Nodes(s) == Nodes(sr) + Nodes(so)
      ensures RootOrNil(tr) && RootOrNil(to) && Abs(s) == MeldOpt(tr, to)
    {
      RootShape(sr);
      RootShape(so);
      if root != null && other != null {
        r, s := MergeUnchecked(root, other, sr, so, tr, to);
      } else if root == null {
        r, s := other, so;
      } else {
        r, s := root, sr;
      }
    }

    /**
     * `merge_list`: consolidate the sibling list starting at `list` into one
     * tree, first melding pairs left to right onto a reversed stack (`newtree`,
     * threaded through `next`), then folding that stack from its front.
     */
    static method MergeList(list: Node?, ghost s: Shape, ghost t: Tree) returns (r: Node?, ghost rs: Shape)
      requires Rep(s) && Ptr(s) == list && Abs(s) == t
      modifies Nodes(s)
      ensures Rep(rs) && Ptr(rs) == r && Nodes(rs) == Nodes(s)
      ensures Abs(rs) == TwoPass(t)
    {
      var newtree;
      ghost var newS, newT;
      newtree, newS, newT := FirstPass(list, s, t);
      if newtree == null {
        r, rs := null, Null;
      } else {
        var next;
        ghost var treeS, nextS;
        next, treeS, nextS := Unlink(newtree, newS, newT);
        r, rs := SecondPass(newtree, next, treeS, nextS, newT.(next := Nil), newT.next);
      }
    }

    /** Unlink the front cell `p` of the chain `s`: `p.next` is cleared and the rest returned. */
    static method Unlink(p: Node, ghost s: Shape, ghost t: Tree) returns (rest: Node?, ghost ps: Shape, ghost restS: Shape)
      requires Rep(s) && s.Cell? && s.node == p && Abs(s) == t
      modifies p
      ensures ps == Cell(p, s.child, Null) && restS == s.next
      ensures Rep(ps) && Rep(restS) && Ptr(restS) == rest
      ensures Nodes(ps) !! Nodes(restS) && Nodes(s) == Nodes(ps) + Nodes(restS)
      ensures t.Tree? && Abs(ps) == t.(next := Nil) && IsRoot(Abs(ps)) && Abs(restS) == t.next
    {
      rest := p.next;
      p.next := null;
      ps, restS := Cell(p, s.child, Null), s.next;
    }

    /** Link the root cell `p` in front of the chain `stack`. */
    static method Push(p: Node, ghost ps: Shape, stack: Node?, ghost ss: Shape, ghost pt: Tree, ghost st: Tree)
      returns (ghost r: Shape)
      requires Rep(ps) && ps.Cell? && ps.node == p && ps.next == Null && Abs(ps) == pt
      requires Rep(ss) && Ptr(ss) == stack && Nodes(ps) !! Nodes(ss) && Abs(ss) == st
      modifies p
      ensures r == Cell(p, ps.child, ss) && Rep(r) && Nodes(r) == Nodes(ps) + Nodes(ss)
      ensures pt.Tree? && Abs(r) == pt.(next := st)
    {
      p.next := stack;
      r := Cell(p, ps.child, ss);
    }

    /** The first loop of `merge_list`: pairs melded onto the reversed stack `newtree`. */
    static method FirstPass(list: Node?, ghost s: Shape, ghost t: Tree)
      returns (newtree: Node?, ghost newS: Shape, ghost newT: Tree)
      requires Rep(s) && Ptr(s) == list && Abs(s) == t
      modifies Nodes(s)
      ensures Rep(newS) && Ptr(newS) == newtree && Nodes(newS) == Nodes(s) && Abs(newS) == newT
      ensures newT == PairUp(t, Nil)
    {
      var root := list;
      ghost var rootS, rootT := s, t;
      newtree := null;
      newS, newT := Null, Nil;
      while root != null
        invariant Rep(rootS) && Ptr(rootS) == root && Abs(rootS) == rootT
        invariant Rep(newS) && Ptr(newS) == newtree && Abs(newS) == newT
        invariant Nodes(rootS) !! Nodes(newS) && Nodes(rootS) + Nodes(newS) == Nodes(s)
        invariant PairUp(rootT, newT) == PairUp(t, Nil)
        decreases rootS
      {
        root, rootS, rootT, newtree, newS, newT := PairStep(root, rootS, rootT, newtree, newS, newT);
      }
    }

    /**
     * One round of the first loop of `merge_list`: take one or two trees off
     * the front of `root`, meld them, and push the result onto `newtree`.
     */
    static method PairStep(root: Node, ghost rootS: Shape, ghost rootT: Tree, newtree: Node?, ghost newS: Shape, ghost newT: Tree)
      returns (root': Node?, ghost rootS': Shape, ghost rootT': Tree, newtree': Node, ghost newS': Shape, ghost newT': Tree)
      requires Rep(rootS) && Ptr(rootS) == root && Abs(rootS) == rootT
      requires Rep(newS) && Ptr(newS) == newtree && Abs(newS) == newT
      requires Nodes(rootS) !! Nodes(newS)
      modifies Nodes(rootS)
      ensures Rep(rootS') && Ptr(rootS') == root' && Abs(rootS') == rootT'
      ensures Rep(newS') && Ptr(newS') == newtree' && Abs(newS') == newT'
      ensures Nodes(rootS') !! Nodes(newS') && Nodes(rootS') + Nodes(newS') == Nodes(rootS) + Nodes(newS)
      ensures PairUp(rootT', newT') == PairUp(rootT, newT)
      ensures rootS' < rootS
    {
      NodesAllocated(newS);
      var ptr := root;
      ghost var ptrS;
      root', ptrS, rootS' := Unlink(ptr, rootS, rootT);
      ghost var ptrT := rootT.(next := Nil);
      rootT' := rootT.next;
      if root' != null {
        ptr, ptrS, root', rootS' := MeldNext(ptr, ptrS, root', rootS', ptrT, rootT');
        ptrT, rootT' := Meld(ptrT, rootT'.(next := Nil)), rootT'.next;
      }
      assert PairUp(rootT, newT) == PairUp(rootT', ptrT.(next := newT));
      Frame(newS);
      NodesAllocated(rootS');
      label pushing:
      newS' := Push(ptr, ptrS, newtree, newS, ptrT, newT);
      Frame@pushing(rootS');
      newtree', newT' := ptr, ptrT.(next := newT);
    }

    /** Unlink the front cell of the chain `rest` and meld it with the root `ptr`. */
    static method MeldNext(ptr: Node, ghost ptrS: Shape, rest: Node, ghost restS: Shape, ghost ptrT: Tree, ghost restT: Tree)
      returns (w: Node, ghost ws: Shape, rest': Node?, ghost restS': Shape)
      requires Rep(ptrS) && ptrS.Cell? && ptrS.node == ptr && ptrS.next == Null && Abs(ptrS) == ptrT
      requires Rep(restS) && Ptr(restS) == rest && Abs(restS) == restT
      requires Nodes(ptrS) !! Nodes(restS)
      modifies ptr, rest
      ensures Rep(ws) && ws.Cell? && ws.node == w && ws.next == Null
      ensures Rep(restS') && Ptr(restS') == rest' && restS' == restS.next
      ensures Nodes(ws) !! Nodes(restS') && Nodes(ws) + Nodes(restS') == Nodes(ptrS) + Nodes(restS)
      ensures IsRoot(ptrT) && restT.Tree? && Abs(ws) == Meld(ptrT, restT.(next := Nil))
      ensures Abs(restS') == restT.next
    {
      NodesAllocated(ptrS);
      NodesAllocated(restS.next);
      var ptr2 := rest;
      ghost var ptr2S;
      rest', ptr2S, restS' := Unlink(ptr2, restS, restT);
      Frame(ptrS);
      w, ws := MergeUnchecked(ptr, ptr2, ptrS, ptr2S, ptrT, restT.(next := Nil));
      Frame(restS');
    }

    /** The second loop of `merge_list`: fold the stack into its front tree. */
    static method SecondPass(tree: Node, next: Node?, ghost treeS: Shape, ghost nextS: Shape, ghost treeT: Tree, ghost nextT: Tree)
      returns (r: Node, ghost rs: Shape)
      requires Rep(treeS) && treeS.Cell? && Ptr(treeS) == tree && treeS.next == Null && Abs(treeS) == treeT
      requires Rep(nextS) && Ptr(nextS) == next && Abs(nextS) == nextT
      requires Nodes(treeS) !! Nodes(nextS)
      modifies Nodes(treeS), Nodes(nextS)
      ensures Rep(rs) && rs.Cell? && Ptr(rs) == r && rs.next == Null
      ensures Nodes(rs) == Nodes(treeS) + Nodes(nextS)
      ensures IsRoot(treeT) && Abs(rs) == FoldIn(treeT, nextT)
    {
      RootShape(treeS);
      ghost var all := Nodes(treeS) + Nodes(nextS);
      r, rs := tree, treeS;
      ghost var rt := treeT;
      var rest := next;
      ghost var restS, restT := nextS, nextT;
      while rest != null
        invariant Rep(rs) && rs.Cell? && Ptr(rs) == r && rs.next == Null && Abs(rs) == rt
        invariant Rep(restS) && Ptr(restS) == rest && Abs(restS) == restT
        invariant Nodes(rs) !! Nodes(restS) && Nodes(rs) + Nodes(restS) == all
        invariant IsRoot(rt) && FoldIn(rt, restT) == FoldIn(treeT, nextT)
        decreases restS
      {
        r, rs, rt, rest, restS, restT := FoldStep(r, rs, rt, rest, restS, restT);
      }
    }

    /** One round of the second loop of `merge_list`: meld the front of `rest` into `r`. */
    static method FoldStep(r: Node, ghost rs: Shape, ghost rt: Tree, rest: Node, ghost restS: Shape, ghost restT: Tree)
      returns (r': Node, ghost rs': Shape, ghost rt': Tree, rest': Node?, ghost restS': Shape, ghost restT': Tree)
      requires Rep(rs) && rs.Cell? && Ptr(rs) == r && rs.next == Null && Abs(rs) == rt
      requires Rep(restS) && Ptr(restS) == rest && Abs(restS) == restT
      requires Nodes(rs) !! Nodes(restS)
      modifies Nodes(rs), Nodes(restS)
      ensures Rep(rs') && rs'.Cell? && Ptr(rs') == r' && rs'.next == Null && Abs(rs') == rt'
      ensures Rep(restS') && Ptr(restS') == rest' && Abs(restS') == restT'
      ensures Nodes(rs') !! Nodes(restS') && Nodes(rs') + Nodes(restS') == Nodes(rs) + Nodes(restS)
      ensures IsRoot(rt) && IsRoot(rt') && FoldIn(rt', restT') == FoldIn(rt, restT)
      ensures restS' < restS
    {
      NodesAllocated(rs);
      NodesAllocated(restS.next);
      var ptr := rest;
      ghost var ptrS;
      rest', ptrS, restS' := Unlink(ptr, restS, restT);
      Frame(rs);
      r', rs' := MergeUnchecked(r, ptr, rs, ptrS, rt, restT.(next := Nil));
      Frame(restS');
      rt', restT' := Meld(rt, restT.(next := Nil)), restT.next;
    }

    /** The body of `insert` below the heap: a fresh cell holding `val` melded into `head`. */
    static method MeldNew(head: Node?, ghost s: Shape, ghost t: Tree, val: int) returns (h: Node?, ghost s': Shape)
      requires Rooted(s, head) && Abs(s) == t
      modifies Nodes(s)
      ensures Rooted(s', h)
      ensures RootOrNil(t) && Abs(s') == MeldOpt(t, Tree(val, Nil, Nil))
      ensures Nodes(s) <= Nodes(s') && fresh(Nodes(s') - Nodes(s)) && |Nodes(s')| == |Nodes(s)| + 1
    {
      NodesAllocated(s);
      var node := new Node(val);
      ghost var single := Cell(node, Null, Null);
      assert Rep(single) && Abs(single) == Tree(val, Nil, Nil);
      Frame(s);
      h, s' := Merge(head, node, s, single, t, Tree(val, Nil, Nil));
    }

    /**
     * The body of `delete_min` below the heap: the root `p` loses its child
     * list, which is consolidated by `merge_list` into the new root.
     */
    static method DetachChildren(p: Node, ghost s: Shape, ghost t: Tree) returns (h: Node?, ghost s': Shape, ghost t': Tree)
      requires Rep(s) && s.Cell? && s.node == p && s.next == Null && Abs(s) == t
      modifies Nodes(s)
      ensures Rooted(s', h) && Abs(s') == t'
      ensures t' == TwoPass(t.child) && Nodes(s') == Nodes(s) - {p}
    {
      NodesAllocated(s);
      var tmp := p.child;
      p.child := null;
      assert Rep(s.child) && Abs(s.child) == t.child;
      h, s' := MergeList(tmp, s.child, t.child);
      t' := Abs(s');
    }

    /**
     * One round of the loop of `drop`: from `ptr` follow the `child` links,
     * pushing each `next` passed on the way onto `stack`; `walked` is the
     * cells passed, in order.
     */
    static method Walk(ptr: Node, ghost ps: Shape, stack: seq<Node>, ghost stackS: seq<Shape>)
      returns (stack': seq<Node>, walked: seq<Node>, ghost stackS': seq<Shape>)
      requires Rep(ps) && ps.Cell? && ps.node == ptr && Stacked(stack, stackS)
      ensures Stacked(stack', stackS')
      ensures walked + Pending(stackS') == Preorder(ps) + Pending(stackS)
      ensures |walked| > 0
    {
      var p := ptr;
      ghost var s := ps;
      ghost var goal := Preorder(ps) + Pending(stackS);
      stack', stackS', walked := stack, stackS, [];
      ghost var todo := goal;
      var walking := true;
      while walking
        invariant Stacked(stack', stackS')
        invariant walked + todo == goal
        invariant walking ==> Rep(s) && s.Cell? && s.node == p && todo == Preorder(s) + Pending(stackS')
        invariant !walking ==> todo == Pending(stackS') && |walked| > 0
        decreases walking, if walking then s else Null
      {
        stack', stackS' := VisitCell(p, s, stack', stackS');
        AppendAssoc(walked, [p], Preorder(s.child) + Pending(stackS'));
        walked, todo := walked + [p], Preorder(s.child) + Pending(stackS');
        if p.child != null {
          p, s := p.child, s.child;
        } else {
          walking := false;
          assert todo == [] + Pending(stackS');
        }
      }
    }

    /** Visit the cell `p`: its `next`, if any, is pushed onto the stack. */
    static method VisitCell(p: Node, ghost s: Shape, stack: seq<Node>, ghost stackS: seq<Shape>)
      returns (stack': seq<Node>, ghost stackS': seq<Shape>)
      requires Rep(s) && s.Cell? && s.node == p && Stacked(stack, stackS)
      ensures Stacked(stack', stackS') && Rep(s.child) && p.child == Ptr(s.child)
      ensures [p] + (Preorder(s.child) + Pending(stackS')) == Preorder(s) + Pending(stackS)
    {
      if p.next != null {
        StackPush(stack, stackS, p.next, s.next);
        stack', stackS' := stack + [p.next], stackS + [s.next];
      } else {
        stack', stackS' := stack, stackS;
      }
      assert Preorder(s) == [p] + Preorder(s.child) + Preorder(s.next);
    }

    /** The loop of `drop` from the root `root`: `dropped` is the visit order. */
    static method DropAll(root: Node?, ghost s: Shape) returns (dropped: seq<Node>)
      requires Rep(s) && Ptr(s) == root
      ensures dropped == Preorder(s)
    {
      NodesAllocated(s);
      dropped := [];
      ghost var goal := Preorder(s);
      if root != null {
        var top: Node := root;
        var stack := [top];
        ghost var stackS := [s];
        assert [s][..0] == [];
        assert Pending(stackS) == goal + [];
        while |stack| > 0
          invariant Stacked(stack, stackS)
          invariant dropped + Pending(stackS) == goal
          decreases |goal| - |dropped|
        {
          StackPop(stack, stackS);
          var ptr := stack[|stack| - 1];
          ghost var ps := stackS[|stackS| - 1];
          stack, stackS := stack[..|stack| - 1], stackS[..|stackS| - 1];
          var walked;
          stack, walked, stackS := Node.Walk(ptr, ps, stack, stackS);
          AppendAssoc(dropped, walked, Pending(stackS));
          dropped := dropped + walked;
        }
      }
      assert dropped == goal;
    }

    /**
     * `clone`: a new cell for every cell reachable from `root`, linked in the
     * same way, so the copy holds the same tree and shares no cell with it.
     */
    static method CloneAll(root: Node?, ghost s: Shape) returns (h: Node?, ghost s': Shape)
      requires Rooted(s, root)
      ensures Rooted(s', h) && Abs(s') == Abs(s) && fresh(Nodes(s'))
    {
      if root == null {
        return null, Null;
      }
      NodesAllocated(s);
      var newHead := new Node(root.val);
      var top: Node := root;
      ghost var copy: map<Node, Node> := map[top := newHead];
      ghost var done: set<Node> := {};
      var stack := [(top, newHead)];
      ghost var stackS := [s];
      assert stack[..0] == [] && stackS[..0] == [] && StackNodes([]) == {};
      assert Pairs(stack, stackS, s, copy, done);
      while |stack| > 0
        invariant Copies(s, copy, done) && Pairs(stack, stackS, s, copy, done)
        invariant Nodes(s) == done + StackNodes(stackS)
        invariant forall o | o in copy :: fresh(copy[o])
        invariant root in copy && copy[root] == newHead
        decreases Nodes(s) - done
      {
        stack, stackS, copy, done := CloneRound(stack, stackS, s, copy, done);
      }
      CopyFaithful(s, copy);
      CopyNodes(s, copy);
      h, s' := newHead, CopyShape(s, copy);
    }

    /** Pop a pair off the stack of `clone` and copy its block. */
    static method CloneRound(stack: seq<(Node, Node)>, ghost stackS: seq<Shape>,
                             ghost s: Shape, ghost copy: map<Node, Node>, ghost done: set<Node>)
      returns (stack': seq<(Node, Node)>, ghost stackS': seq<Shape>, ghost copy': map<Node, Node>, ghost done': set<Node>)
      requires Copies(s, copy, done) && Pairs(stack, stackS, s, copy, done) && |stack| > 0
      requires Nodes(s) == done + StackNodes(stackS)
      modifies copy.Values
      ensures Copies(s, copy', done') && Pairs(stack', stackS', s, copy', done')
      ensures Nodes(s) == done' + StackNodes(stackS') && done < done'
      ensures forall o | o in copy :: o in copy' && copy'[o] == copy[o]
      ensures forall o | o in copy' && o !in copy :: fresh(copy'[o])
    {
      PairsPop(stack, stackS, s, copy, done);
      var k := |stack| - 1;
      var pair := stack[k];
      ghost var b := stackS[k];
      stack', stackS' := stack[..k], stackS[..k];
      stack', stackS', copy', done' := CloneWalk(pair.0, pair.1, b, stack', stackS', s, copy, done);
    }

    /**
     * One round of the loop of `clone`: from the pair (`orig`, `dup`) follow the
     * `child` links, pushing a pair for each `next` met on the way.
     */
    static method CloneWalk(orig: Node, dup: Node, ghost b: Shape, stack: seq<(Node, Node)>, ghost stackS: seq<Shape>,
                            ghost s: Shape, ghost copy: map<Node, Node>, ghost done: set<Node>)
      returns (stack': seq<(Node, Node)>, ghost stackS': seq<Shape>, ghost copy': map<Node, Node>, ghost done': set<Node>)
      requires Copies(s, copy, done) && Pairs(stack, stackS, s, copy, done)
      requires Block(b, s, copy, done) && b.node == orig && copy[orig] == dup
      requires Nodes(b) !! StackNodes(stackS) && Nodes(s) == done + Nodes(b) + StackNodes(stackS)
      modifies copy.Values
      ensures Copies(s, copy', done') && Pairs(stack', stackS', s, copy', done')
      ensures Nodes(s) == done' + StackNodes(stackS') && done < done'
      ensures forall o | o in copy :: o in copy' && copy'[o] == copy[o]
      ensures forall o | o in copy' && o !in copy :: fresh(copy'[o])
    {
      var p, q := orig, dup;
      ghost var sc := b;
      stack', stackS', copy', done' := stack, stackS, copy, done;
      var walking := true;
      while walking
        invariant Copies(s, copy', done') && Pairs(stack', stackS', s, copy', done')
        invariant forall o | o in copy :: o in copy' && copy'[o] == copy[o]
        invariant forall o | o in copy' && o !in copy :: fresh(copy'[o])
        invariant done <= done'
        invariant walking ==> && Block(sc, s, copy', done') && sc.node == p && copy'[p] == q
                              && Nodes(sc) !! StackNodes(stackS') && Nodes(s) == done' + Nodes(sc) + StackNodes(stackS')
        invariant !walking ==> Nodes(s) == done' + StackNodes(stackS') && done < done'
        decreases walking, if walking then sc else Null
      {
        var c, cq;
        c, cq, stack', stackS', copy', done' := CloneCell(p, q, sc, stack', stackS', s, copy', done');
        if c != null {
          p, q, sc := c, cq, sc.child;
        } else {
          walking := false;
        }
      }
    }

    /**
     * Copy the cell `p` onto its new cell `q`: a new cell for its `next` is
     * linked and pushed, a new cell for its `child` is linked and returned.
     */
    static method CloneCell(p: Node, q: Node, ghost sc: Shape, stack: seq<(Node, Node)>, ghost stackS: seq<Shape>,
                            ghost s: Shape, ghost copy: map<Node, Node>, ghost done: set<Node>)
      returns (c: Node?, cq: Node?, stack': seq<(Node, Node)>, ghost stackS': seq<Shape>,
               ghost copy': map<Node, Node>, ghost done': set<Node>)
      requires Copies(s, copy, done) && Pairs(stack, stackS, s, copy, done)
      requires Block(sc, s, copy, done) && sc.node == p && copy[p] == q
      requires Nodes(sc) !! StackNodes(stackS) && Nodes(s) == done + Nodes(sc) + StackNodes(stackS)
      modifies q
      ensures Copies(s, copy', done') && Pairs(stack', stackS', s, copy', done')
      ensures done' == done + {p}
      ensures forall o | o in copy :: o in copy' && copy'[o] == copy[o]
      ensures forall o | o in copy' && o !in copy :: fresh(copy'[o])
      ensures c == Ptr(sc.child)
      ensures c == null ==> Nodes(s) == done' + StackNodes(stackS')
      ensures c != null ==> && Block(sc.child, s, copy', done') && copy'[c] == cq
                            && Nodes(sc.child) !! StackNodes(stackS')
                            && Nodes(s) == done' + Nodes(sc.child) + StackNodes(stackS')
    {
      NodesAllocated(s);
      var nq;
      ghost var copy1;
      nq, stack', stackS', copy1 := CopyNext(p, sc, stack, stackS, s, copy, done);
      c, cq, copy' := CopyChild(p, sc, s, copy1, done);
      done' := done + {p};
      assert copy'.Keys - copy1.Keys <= Nodes(sc.child);
      PairsGrow(stack', stackS', s, copy1, done, copy', done');
      LinkCell(p, q, nq, cq, s, copy', done);
    }

    /** The `next` half of a cell of `clone`: a new cell for `p.next`, pushed with it. */
    static method CopyNext(p: Node, ghost sc: Shape, stack: seq<(Node, Node)>, ghost stackS: seq<Shape>,
                           ghost s: Shape, ghost copy: map<Node, Node>, ghost done: set<Node>)
      returns (nq: Node?, stack': seq<(Node, Node)>, ghost stackS': seq<Shape>, ghost copy': map<Node, Node>)
      requires Copies(s, copy, done) && Pairs(stack, stackS, s, copy, done)
      requires Block(sc, s, copy, done) && sc.node == p
      requires Nodes(sc) !! StackNodes(stackS) && Nodes(s) == done + Nodes(sc) + StackNodes(stackS)
      ensures Copies(s, copy', done) && Pairs(stack', stackS', s, copy', done)
      ensures copy'.Keys == copy.Keys + (if p.next == null then {} else {p.next})
      ensures forall o | o in copy :: copy'[o] == copy[o]
      ensures forall o | o in copy' && o !in copy :: fresh(copy'[o])
      ensures if p.next == null then nq == null else copy'[p.next] == nq
      ensures Nodes(s) == done + {p} + Nodes(sc.child) + StackNodes(stackS')
      ensures Nodes(sc.child) !! StackNodes(stackS') && p !in StackNodes(stackS')
      ensures Nodes(sc.child) !! done && forall o | o in Nodes(sc.child) :: o !in copy'
    {
      WithinRep(sc, s);
      WithinLinks(sc, s);
      if p.next != null {
        nq, stack', stackS', copy' := PushNext(p.next, sc.next, stack, stackS, s, copy, done);
      } else {
        stack', stackS', copy', nq := stack, stackS, copy, null;
        assert sc.next == Null;
      }
      CoverNext(s, sc, done, StackNodes(stackS), StackNodes(stackS'), copy.Keys, copy'.Keys);
    }

    /** The `child` half of a cell of `clone`: a new cell for `p.child`, returned to walk on. */
    static method CopyChild(p: Node, ghost sc: Shape, ghost s: Shape, ghost copy: map<Node, Node>, ghost done: set<Node>)
      returns (c: Node?, cq: Node?, ghost copy': map<Node, Node>)
      requires Copies(s, copy, done) && Within(sc, s) && sc.Cell? && sc.node == p && p !in done
      requires Nodes(sc.child) !! done && forall o | o in Nodes(sc.child) :: o !in copy
      ensures Copies(s, copy', done)
      ensures copy'.Keys == copy.Keys + (if p.child == null then {} else {p.child})
      ensures forall o | o in copy :: copy'[o] == copy[o]
      ensures forall o | o in copy' && o !in copy :: fresh(copy'[o])
      ensures c == p.child == Ptr(sc.child) && (if c == null then cq == null else c in Nodes(sc.child) && c in copy' && copy'[c] == cq)
      ensures c != null ==> Block(sc.child, s, copy', done + {p})
    {
      WithinRep(sc, s);
      WithinLinks(sc, s);
      c, cq, copy' := p.child, null, copy;
      if c != null {
        var n;
        n, copy' := NewCopy(c, s, copy, done);
        cq := n;
      }
    }

    /** A new unlinked cell for the cell `o`, which has none yet. */
    static method NewCopy(o: Node, ghost s: Shape, ghost copy: map<Node, Node>, ghost done: set<Node>)
      returns (n: Node, ghost copy': map<Node, Node>)
      requires Copies(s, copy, done) && o in Nodes(s) && o !in copy
      ensures Copies(s, copy', done) && copy' == copy[o := n] && fresh(n)
    {
      NodesAllocated(s);
      n := new Node(o.val);
      CopiesAdd(s, copy, done, o, n);
      copy' := copy[o := n];
    }

    /** A new cell for `ne`, the front of the chain `b`, pushed with it. */
    static method PushNext(ne: Node, ghost b: Shape, stack: seq<(Node, Node)>, ghost stackS: seq<Shape>,
                           ghost s: Shape, ghost copy: map<Node, Node>, ghost done: set<Node>)
      returns (n: Node, stack': seq<(Node, Node)>, ghost stackS': seq<Shape>, ghost copy': map<Node, Node>)
      requires Copies(s, copy, done) && Pairs(stack, stackS, s, copy, done)
      requires Within(b, s) && b.Cell? && b.node == ne && Nodes(b) <= Nodes(s)
      requires Nodes(b) !! StackNodes(stackS) + done && forall o | o in Nodes(b) :: o !in copy
      ensures Copies(s, copy', done) && Pairs(stack', stackS', s, copy', done)
      ensures copy' == copy[ne := n] && fresh(n)
      ensures stackS' == stackS + [b] && StackNodes(stackS') == StackNodes(stackS) + Nodes(b)
    {
      n, copy' := NewCopy(ne, s, copy, done);
      PairsGrow(stack, stackS, s, copy, done, copy', done);
      PairsPush(stack, stackS, s, copy', done, b);
      stack', stackS' := stack + [(ne, n)], stackS + [b];
    }

    /** Link the new cell `q` of `p` to the new cells of `p`'s neighbours, finishing `p`. */
    static method LinkCell(p: Node, q: Node, nq: Node?, cq: Node?, ghost s: Shape, ghost copy: map<Node, Node>, ghost done: set<Node>)
      requires Copies(s, copy, done) && p in copy && p !in done && copy[p] == q
      requires if p.next == null then nq == null else p.next in copy && copy[p.next] == nq
      requires if p.child == null then cq == null else p.child in copy && copy[p.child] == cq
      modifies q
      ensures Copies(s, copy, done + {p})
    {
      NodesAllocated(s);
      label linking:
      q.next := nq;
      q.child := cq;
      Frame@linking(s);
    }

    /** `fmt_rec`: the depth-first rendering of the chain starting at `root`. */
    static function FmtRec(root: Node?, spaces: nat, ghost s: Shape): (lines: seq<Line>)
      requires Rep(s) && Ptr(s) == root
      reads Nodes(s)
      ensures lines == Render(Abs(s), spaces)
      decreases s
    {
      if root == null then []
      else [Line(spaces, root.val)] + FmtRec(root.child, spaces + 1, s.child) + FmtRec(root.next, spaces, s.next)
    }
  }

  /**
   * `PairingHeap<T>`: an optional root cell and the number of values held.
   * The ghost `shape` is the pointer skeleton below `head` and `tree` the values
   * it holds.
   */
  class PairingHeap {
    var head: Node?
    var size: nat
    ghost var shape: Shape
    ghost var tree: Tree

    ghost predicate Valid()
      reads this, Nodes(shape)
    {
      && Rooted(shape, head)
      && Abs(shape) == tree
      && IsHeap(tree, size)
    }

    /** The multiset of values in the heap. */
    ghost function Contents(): multiset<int>
      reads this
    {
      Elems(tree)
    }

    /** `PairingHeap::new`: the empty heap. */
    constructor ()
      ensures Valid() && Contents() == multiset{} && size == 0
    {
      head := null;
      size := 0;
      shape := Null;
      tree := Nil;
    }

    /** `len`: the number of values held. */
    method Len() returns (n: nat)
      requires Valid()
      ensures n == |Contents()|
    {
      n := size;
    }

    /** Make the linked cells `s` from `h`, which hold the heap `t` of `n` values, the contents. */
    method Install(h: Node?, ghost s: Shape, ghost t: Tree, n: nat)
      requires Rooted(s, h) && Abs(s) == t && IsHeap(t, n)
      modifies this
      ensures Valid() && head == h && shape == s && tree == t && size == n
    {
      NodesAllocated(s);
      label linked:
      head, shape, size, tree := h, s, n, t;
      Frame@linked(s);
    }

    /** `clone`: a new heap of new cells holding the same tree; this heap is untouched. */
    method Clone() returns (c: PairingHeap)
      requires Valid()
      ensures fresh(c) && c.Valid() && c.tree == tree && c.size == size && c.Contents() == Contents()
      ensures fresh(Nodes(c.shape))
    {
      NodesAllocated(shape);
      var h;
      ghost var s;
      h, s := Node.CloneAll(head, shape);
      NodesAllocated(s);
      c := new PairingHeap();
      c.Install(h, s, tree, size);
    }

    /** `insert`: meld a fresh singleton cell into the root. */
    method Insert(val: int)
      requires Valid()
      modifies this, Nodes(shape)
      ensures Valid()
      ensures Contents() == old(Contents()) + multiset{val}
      ensures size == old(size) + 1
      ensures Nodes(old(shape)) <= Nodes(shape) && fresh(Nodes(shape) - Nodes(old(shape)))
      ensures |Nodes(shape)| == |Nodes(old(shape))| + 1
    {
      ghost var t := tree;
      ghost var nt := MeldOpt(t, Tree(val, Nil, Nil));
      InsertSpec(t, size, val);
      var h;
      ghost var sh;
      h, sh := Node.MeldNew(head, shape, t, val);
      Install(h, sh, nt, size + 1);
    }

    /**
     * `delete_min`: on an empty heap nothing changes and nothing is returned.
     * Otherwise the root's value, a least value of the heap, is returned and the
     * root's child list is consolidated into the new root.
     */
    method DeleteMin() returns (r: Option<int>)
      requires Valid()
      modifies this, Nodes(shape)
      ensures Valid()
      ensures old(tree).Nil? ==> r == None && tree == old(tree) && size == old(size) && shape == old(shape)
      ensures old(tree).Tree? ==> old(head) != null && Nodes(shape) == Nodes(old(shape)) - {old(head)}
      ensures old(tree).Tree? ==>
        && r == Some(old(tree).val)
        && tree == TwoPass(old(tree).child)
        && size == old(size) - 1
        && r.value in Elems(old(tree)) && (forall x | x in Elems(old(tree)) :: r.value <= x)
        && Elems(tree) == Elems(old(tree)) - multiset{r.value}
    {
      if head != null {
        var v := DeleteRoot();
        r := Some(v);
      } else {
        r := None;
      }
    }

    /** The non-empty case of `delete_min`. */
    method DeleteRoot() returns (v: int)
      requires Valid() && head != null
      modifies this, Nodes(shape)
      ensures Valid() && old(tree).Tree?
      ensures v == old(tree).val && tree == TwoPass(old(tree).child) && size == old(size) - 1
      ensures v in Elems(old(tree)) && (forall x | x in Elems(old(tree)) :: v <= x)
      ensures Elems(tree) == Elems(old(tree)) - multiset{v}
      ensures Nodes(shape) == Nodes(old(shape)) - {old(head)}
    {
      ghost var t := tree;
      DeleteMinSpec(t, size);
      var p := head;
      var h;
      ghost var sh, nt;
      h, sh, nt := Node.DetachChildren(p, shape, t);
      v := p.val;
      Install(h, sh, nt, size - 1);
    }

    /**
     * `drop`: the cells are visited depth first. Each round pops a cell off
     * the stack and walks down from it (`Node.Walk`). `dropped` is the order
     * in which `drop_in_place` reaches the cells: each cell exactly once.
     */
    method Drop() returns (dropped: seq<Node>)
      requires Valid()
      ensures dropped == Preorder(shape)
      ensures Distinct(dropped) && |dropped| == size
      ensures forall p | p in Nodes(shape) :: p in dropped
      ensures forall p | p in dropped :: p in Nodes(shape)
    {
      NodesAllocated(shape);
      dropped := Node.DropAll(head, shape);
      PreorderNodes(shape);
      PreorderDistinct(shape);
      CellsIsSize(shape);
      ElemsCount(tree);
    }

    /** The `Debug` rendering: `fmt_rec` from the root at depth 0. */
    function Fmt(): (lines: seq<Line>)
      requires Valid()
      reads this, Nodes(shape)
      ensures lines == Render(tree, 0)
    {
      Node.FmtRec(head, 0, shape)
    }
  }
}

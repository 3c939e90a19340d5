/**
 * The lazy binomial heap of src/heap/binomial.rs over its node cells.
 *
 * Every cell has a constant key and four mutable fields: `next` and `prev`
 * (its neighbours in the cyclic doubly linked list it sits in), `child` (a
 * cursor into the cyclic list of its children, or null) and `degree`. The
 * ghost `Shape` names the cells of one tree: the root cell and its child
 * list read from the `child` cursor along `next`. `Rep` says that the fields
 * of the cells agree with a shape; `Abs` reads the key tree a shape holds.
 */
module BinomialHeap {
  import opened Options
  import opened BinomialTree

  class Node {
    const key: int
    var next: Node?
    var prev: Node?
    var child: Node?
    var degree: nat

    /** `Node::new` / `Node::new_ptr`: a cell with no links and degree 0. */
    constructor (key: int)
      ensures this.key == key && next == null && prev == null && child == null && degree == 0
    {
      this.key := key;
      next, prev, child, degree := null, null, null, 0;
    }
  }

  datatype Shape = Sh(node: Node, kids: seq<Shape>)

  /** The cells of the tree `s`. */
  function Nodes(s: Shape): set<Node>
  {
    {s.node} + NodesF(s.kids)
  }

  /** The cells of a list of trees. */
  function NodesF(ks: seq<Shape>): set<Node>
    decreases ks, 1
  {
    HeadSet(ks) + InnerF(ks)
  }

  /** The root cells of a list of trees. */
  function HeadSet(ks: seq<Shape>): set<Node>
  {
    set i | 0 <= i < |ks| :: ks[i].node
  }

  /** The cells strictly below the roots of a list of trees. */
  function InnerF(ks: seq<Shape>): set<Node>
    decreases ks, 0
  {
    if ks == [] then {} else InnerF(ks[..|ks| - 1]) + NodesF(ks[|ks| - 1].kids)
  }

  /** The root cells of a list of trees, in order. */
  function Heads(ks: seq<Shape>): (hs: seq<Node>)
    ensures |hs| == |ks| && forall i | 0 <= i < |ks| :: hs[i] == ks[i].node
  {
    seq(|ks|, i requires 0 <= i < |ks| => ks[i].node)
  }

  /** The key tree held by the cells of `s`. */
  function Abs(s: Shape): BTree
    decreases s, 1
  {
    BT(s.node.key, AbsF(s.kids))
  }

  function AbsF(ks: seq<Shape>): (ts: seq<BTree>)
    decreases ks, 0
    ensures |ts| == |ks|
  {
    seq(|ks|, i requires 0 <= i < |ks| => Abs(ks[i]))
  }

  /** `cs` is a cyclic doubly linked list read along `next`. */
  ghost predicate Ring(cs: seq<Node>)
    reads (set c | c in cs)`next, (set c | c in cs)`prev
  {
    && |cs| > 0
    && (forall i | 0 <= i < |cs| - 1 :: cs[i].next == cs[i + 1] && cs[i + 1].prev == cs[i])
    && cs[|cs| - 1].next == cs[0] && cs[0].prev == cs[|cs| - 1]
  }

  /**
   * The cells of `s` form the tree it names: the root's degree is its number of
   * children, its `child` cursor is the head of its child list, that list is a
   * ring, and the children are disjoint trees of their own. The root's own
   * `next`/`prev` belong to the list the root sits in and are not read here.
   */
  ghost predicate Rep(s: Shape)
    reads Nodes(s)`child, Nodes(s)`degree
    reads HeadSet(s.kids)`next, HeadSet(s.kids)`prev, InnerF(s.kids)`next, InnerF(s.kids)`prev
    decreases s, 1
  {
    && s.node.degree == |s.kids|
    && s.node.child == (if s.kids == [] then null else s.kids[0].node)
    && s.node !in NodesF(s.kids)
    && (s.kids != [] ==> Ring(Heads(s.kids)))
    && Forest(s.kids)
  }

  /** A list of pairwise disjoint trees, each satisfying `Rep`. */
  ghost predicate Forest(ks: seq<Shape>)
    reads NodesF(ks)`child, NodesF(ks)`degree, InnerF(ks)`next, InnerF(ks)`prev
    decreases ks, 0
  {
    ks != [] ==>
      var k := |ks| - 1;
      Forest(ks[..k]) && Rep(ks[k]) && NodesF(ks[..k]) !! Nodes(ks[k])
  }

  ghost predicate Distinct(cs: seq<Node>)
  {
    forall i, j | 0 <= i < j < |cs| :: cs[i] != cs[j]
  }

  /** The element read after the cursor (the cursor itself in a one-element list). */
  function Second(cs: seq<Node>): Node
    requires |cs| > 0
  {
    cs[1 % |cs|]
  }

  function Last(cs: seq<Node>): Node
    requires |cs| > 0
  {
    cs[|cs| - 1]
  }

  // Cell sets

  lemma {:induction false} InnerFMember(ks: seq<Shape>, i: nat)
    requires i < |ks|
    ensures NodesF(ks[i].kids) <= InnerF(ks)
    decreases |ks|
  {
    var k := |ks| - 1;
    if i < k {
      InnerFMember(ks[..k], i);
    }
  }

  lemma {:induction false} NodesFMember(ks: seq<Shape>, i: nat)
    requires i < |ks|
    ensures Nodes(ks[i]) <= NodesF(ks)
  {
    InnerFMember(ks, i);
  }

  /** A cell of a list of trees lies in one of its trees. */
  lemma {:induction false} NodesFWitness(ks: seq<Shape>, o: Node) returns (i: nat)
    requires o in NodesF(ks)
    ensures i < |ks| && o in Nodes(ks[i])
    decreases |ks|
  {
    if o in HeadSet(ks) {
      i :| 0 <= i < |ks| && ks[i].node == o;
    } else {
      var k := |ks| - 1;
      if o in NodesF(ks[k].kids) {
        i := k;
      } else {
        assert o in InnerF(ks[..k]);
        i := NodesFWitness(ks[..k], o);
        assert ks[..k][i] == ks[i];
      }
    }
  }

  lemma {:induction false} NodesFAppend(a: seq<Shape>, b: seq<Shape>)
    ensures NodesF(a + b) == NodesF(a) + NodesF(b)
  {
    forall o | o in NodesF(a + b) ensures o in NodesF(a) + NodesF(b) {
      var i := NodesFWitness(a + b, o);
      if i < |a| {
        NodesFMember(a, i);
      } else {
        NodesFMember(b, i - |a|);
      }
    }
    forall o | o in NodesF(a) + NodesF(b) ensures o in NodesF(a + b) {
      if o in NodesF(a) {
        var i := NodesFWitness(a, o);
        NodesFMember(a + b, i);
      } else {
        var i := NodesFWitness(b, o);
        NodesFMember(a + b, |a| + i);
      }
    }
  }

  lemma {:induction false} NodesFOne(x: Shape)
    ensures NodesF([x]) == Nodes(x)
  {
    assert [x][..0] == [];
    assert [x][0] == x;
    assert HeadSet([x]) == {x.node};
    assert InnerF([x]) == InnerF([]) + NodesF(x.kids);
  }

  /** Every cell of a list of trees is an allocated object (needed to carry `Rep` across calls). */
  lemma {:induction false} NodesFAllocated(ks: seq<Shape>)
    ensures forall o | o in NodesF(ks) :: allocated(o)
    ensures forall o | o in InnerF(ks) :: allocated(o)
    ensures forall o | o in HeadSet(ks) :: allocated(o)
    decreases ks
  {
    forall i | 0 <= i < |ks|
      ensures allocated(ks[i].node)
      ensures forall o | o in NodesF(ks[i].kids) :: allocated(o)
    {
      assert allocated(ks[i]);
      NodesFAllocated(ks[i].kids);
    }
    forall o | o in InnerF(ks) ensures allocated(o) {
      var i := NodesFWitness(ks, o);
    }
  }

  lemma {:induction false} NodesAllocated(s: Shape)
    ensures forall o | o in Nodes(s) :: allocated(o)
  {
    NodesFAllocated(s.kids);
  }

  // Forests

  lemma {:induction false} ForestAt(ks: seq<Shape>, i: nat)
    requires Forest(ks) && i < |ks|
    ensures Rep(ks[i])
    decreases |ks|
  {
    var k := |ks| - 1;
    if i < k {
      ForestAt(ks[..k], i);
    }
  }

  lemma {:induction false} ForestApart(ks: seq<Shape>, i: nat, j: nat)
    requires Forest(ks) && i < j < |ks|
    ensures Nodes(ks[i]) !! Nodes(ks[j])
    decreases |ks|
  {
    var k := |ks| - 1;
    if j < k {
      ForestApart(ks[..k], i, j);
    } else {
      NodesFMember(ks[..k], i);
    }
  }

  /** A list of trees extended by one tree at the back. */
  lemma {:induction false} ForestSnoc(ks: seq<Shape>, x: Shape)
    ensures Forest(ks + [x]) <==> Forest(ks) && Rep(x) && NodesF(ks) !! Nodes(x)
    ensures NodesF(ks + [x]) == NodesF(ks) + Nodes(x)
  {
    assert (ks + [x])[..|ks|] == ks;
    NodesFAppend(ks, [x]);
    NodesFOne(x);
  }

  lemma {:induction false} ForestAppend(a: seq<Shape>, b: seq<Shape>)
    requires Forest(a) && Forest(b) && NodesF(a) !! NodesF(b)
    ensures Forest(a + b)
    decreases |b|
  {
    if b == [] {
      assert a + b == a;
    } else {
      var k := |b| - 1;
      assert b == b[..k] + [b[k]];
      assert a + b == (a + b[..k]) + [b[k]];
      ForestSnoc(b[..k], b[k]);
      ForestAppend(a, b[..k]);
      NodesFAppend(a, b[..k]);
      ForestSnoc(a + b[..k], b[k]);
    }
  }

  lemma {:induction false} ForestSplit(a: seq<Shape>, b: seq<Shape>)
    requires Forest(a + b)
    ensures Forest(a) && Forest(b) && NodesF(a) !! NodesF(b)
    decreases |b|
  {
    if b == [] {
      assert a + b == a;
    } else {
      var k := |b| - 1;
      assert b == b[..k] + [b[k]];
      assert a + b == (a + b[..k]) + [b[k]];
      ForestSnoc(a + b[..k], b[k]);
      ForestSplit(a, b[..k]);
      NodesFAppend(a, b[..k]);
      ForestSnoc(b[..k], b[k]);
    }
  }

  lemma {:induction false} ForestOne(x: Shape)
    requires Rep(x)
    ensures Forest([x])
  {
    assert [x][..0] == [];
  }

  /** A cell below the roots of a list of trees lies below the root of one of them. */
  lemma {:induction false} InnerFWitness(ks: seq<Shape>, o: Node) returns (j: nat)
    requires o in InnerF(ks)
    ensures j < |ks| && o in NodesF(ks[j].kids)
    decreases |ks|
  {
    var k := |ks| - 1;
    if o in NodesF(ks[k].kids) {
      j := k;
    } else {
      j := InnerFWitness(ks[..k], o);
      assert ks[..k][j] == ks[j];
    }
  }

  /** The roots of a list of disjoint trees are distinct and lie above every other cell. */
  lemma {:induction false} HeadsApart(ks: seq<Shape>)
    requires Forest(ks)
    ensures Distinct(Heads(ks)) && HeadSet(ks) !! InnerF(ks)
  {
    forall i, j | 0 <= i < j < |ks| ensures ks[i].node != ks[j].node {
      ForestApart(ks, i, j);
    }
    forall o | o in InnerF(ks) ensures o !in HeadSet(ks) {
      var j := InnerFWitness(ks, o);
      forall i | 0 <= i < |ks| ensures ks[i].node != o {
        if i == j {
          ForestAt(ks, j);
        } else if i < j {
          ForestApart(ks, i, j);
        } else {
          ForestApart(ks, j, i);
        }
      }
    }
  }

  // Frames: which writes leave a tree or a list of trees intact.

  twostate lemma {:induction false} RingFrame(cs: seq<Node>)
    requires old(Ring(cs))
    requires forall o | o in cs :: old(o.next) == o.next && old(o.prev) == o.prev
    ensures Ring(cs)
  {
  }

  twostate lemma {:induction false} ForestFrame(ks: seq<Shape>)
    requires old(Forest(ks)) && forall o | o in NodesF(ks) :: old(allocated(o))
    requires forall o | o in NodesF(ks) :: old(o.child) == o.child && old(o.degree) == o.degree
    requires forall o | o in InnerF(ks) :: old(o.next) == o.next && old(o.prev) == o.prev
    ensures Forest(ks)
    decreases ks, 0
  {
    if ks != [] {
      var k := |ks| - 1;
      NodesFAppend(ks[..k], [ks[k]]);
      NodesFOne(ks[k]);
      assert ks[..k] + [ks[k]] == ks;
      InnerFMember(ks, k);
      ForestFrame(ks[..k]);
      RepFrame(ks[k]);
    }
  }

  twostate lemma {:induction false} RepFrame(s: Shape)
    requires old(Rep(s)) && forall o | o in Nodes(s) :: old(allocated(o))
    requires forall o | o in Nodes(s) :: old(o.child) == o.child && old(o.degree) == o.degree
    requires forall o | o in NodesF(s.kids) :: old(o.next) == o.next && old(o.prev) == o.prev
    ensures Rep(s)
    decreases s, 1
  {
    ForestFrame(s.kids);
    if s.kids != [] {
      RingFrame(Heads(s.kids));
    }
  }

  // Splicing a cell into a cyclic list

  method NewCyclic(key: int) returns (n: Node)
    ensures fresh(n) && n.key == key && n.child == null && n.degree == 0
    ensures Ring([n])
  {
    n := new Node(key);
    n.next := n;
    n.prev := n;
  }

  method InsertNodeNext(ptr: Node, node: Node, ghost cs: seq<Node>)
    requires Ring(cs) && Distinct(cs) && cs[0] == ptr && node !in cs
    modifies ptr`next, node`next, node`prev, Second(cs)`prev
    ensures Ring(AfterCursor(cs, node))
  {
    var next := ptr.next;
    next.prev := node;
    ptr.next := node;
    node.prev := ptr;
    node.next := next;
  }

  method InsertNodePrev(ptr: Node, node: Node, ghost cs: seq<Node>)
    requires Ring(cs) && Distinct(cs) && cs[0] == ptr && node !in cs
    modifies ptr`prev, node`next, node`prev, Last(cs)`next
    ensures Ring(BeforeCursor(cs, node))
  {
    var prev := ptr.prev;
    prev.next := node;
    ptr.prev := node;
    node.next := ptr;
    node.prev := prev;
  }

  /** `insert_node` on a list of cells read from its cursor. */
  function Spliced(cs: seq<Node>, x: Node): seq<Node>
    requires |cs| > 0
  {
    var sp := AfterCursor(cs, x);
    if cs[0].key > x.key then Rotate(sp) else sp
  }

  /** `insert_node` on a list of trees read from its cursor. */
  function KidsAfter(ks: seq<Shape>, x: Shape): seq<Shape>
    requires |ks| > 0
  {
    var sp := AfterCursor(ks, x);
    if ks[0].node.key > x.node.key then Rotate(sp) else sp
  }

  lemma {:induction false} HeadsKidsAfter(ks: seq<Shape>, x: Shape)
    requires |ks| > 0
    ensures Heads(KidsAfter(ks, x)) == Spliced(Heads(ks), x.node)
  {
    assert Heads(AfterCursor(ks, x)) == AfterCursor(Heads(ks), x.node);
    if ks[0].node.key > x.node.key {
      assert Heads(Rotate(AfterCursor(ks, x))) == Rotate(AfterCursor(Heads(ks), x.node));
    }
  }

  lemma {:induction false} AbsKidsAfter(ks: seq<Shape>, x: Shape)
    requires |ks| > 0
    ensures AbsF(KidsAfter(ks, x)) == InsertNodeList(AbsF(ks), Abs(x))
  {
    assert AbsF(AfterCursor(ks, x)) == AfterCursor(AbsF(ks), Abs(x));
    if ks[0].node.key > x.node.key {
      assert AbsF(Rotate(AfterCursor(ks, x))) == Rotate(AfterCursor(AbsF(ks), Abs(x)));
    }
  }

  lemma {:induction false} RingRotate(cs: seq<Node>)
    requires Ring(cs)
    ensures Ring(Rotate(cs))
  {
  }

  lemma {:induction false} DistinctSpliced(cs: seq<Node>, x: Node)
    requires |cs| > 0 && Distinct(cs) && x !in cs
    ensures Distinct(Spliced(cs, x))
  {
    var sp := AfterCursor(cs, x);
    assert Distinct(sp) by {
      forall i, j | 0 <= i < j < |sp| ensures sp[i] != sp[j] {
        if j == 1 || i == 1 {
        } else {
          assert sp[i] == cs[if i == 0 then 0 else i - 1];
          assert sp[j] == cs[j - 1];
        }
      }
    }
  }

  lemma {:induction false} ForestRotate(ks: seq<Shape>)
    requires |ks| > 0 && Forest(ks)
    ensures Forest(Rotate(ks)) && NodesF(Rotate(ks)) == NodesF(ks)
  {
    assert ks == [ks[0]] + ks[1..];
    ForestSplit([ks[0]], ks[1..]);
    ForestAppend(ks[1..], [ks[0]]);
    NodesFAppend([ks[0]], ks[1..]);
    NodesFAppend(ks[1..], [ks[0]]);
  }

  lemma {:induction false} ForestAfterCursor(ks: seq<Shape>, x: Shape)
    requires |ks| > 0 && Forest(ks) && Rep(x) && Nodes(x) !! NodesF(ks)
    ensures Forest(AfterCursor(ks, x)) && NodesF(AfterCursor(ks, x)) == NodesF(ks) + Nodes(x)
  {
    var head, rest := [ks[0]], ks[1..];
    assert ks == head + rest;
    ForestSplit(head, rest);
    NodesFAppend(head, rest);
    ForestSnoc(head, x);
    assert head + [x] == [ks[0], x];
    NodesFAppend([ks[0], x], rest);
    ForestAppend([ks[0], x], rest);
    assert AfterCursor(ks, x) == [ks[0], x] + rest;
  }

  /** Splicing a disjoint tree into a list of trees by `insert_node` keeps a list of disjoint trees. */
  lemma {:induction false} ForestKidsAfter(ks: seq<Shape>, x: Shape)
    requires |ks| > 0 && Forest(ks) && Rep(x) && Nodes(x) !! NodesF(ks)
    ensures Forest(KidsAfter(ks, x))
    ensures NodesF(KidsAfter(ks, x)) == NodesF(ks) + Nodes(x)
  {
    ForestAfterCursor(ks, x);
    if ks[0].node.key > x.node.key {
      ForestRotate(AfterCursor(ks, x));
    }
  }

  /** `insert_node(min, node)`: splices `node` in after `min` and returns the smaller-keyed of the two, `min` on ties. */
  method InsertNode(min: Node, node: Node, ghost cs: seq<Node>) returns (m: Node)
    requires Ring(cs) && Distinct(cs) && cs[0] == min && node !in cs
    modifies min`next, node`next, node`prev, Second(cs)`prev
    ensures Ring(Spliced(cs, node)) && m == Spliced(cs, node)[0]
    ensures m == (if min.key > node.key then node else min)
  {
    InsertNodeNext(min, node, cs);
    if min.key > node.key {
      RingRotate(AfterCursor(cs, node));
      m := node;
    } else {
      m := min;
    }
  }

  lemma {:induction false} RepFromParts(w: Node, ks: seq<Shape>)
    requires |ks| > 0 && w.degree == |ks| && w.child == ks[0].node && w !in NodesF(ks) && Ring(Heads(ks)) && Forest(ks)
    ensures Rep(Sh(w, ks))
  {
  }

  /** `merge` when the winner already has children: the loser is spliced into their list by `insert_node`. */
  method AdoptInto(winner: Node, loser: Node, ghost ws: Shape, ghost ls: Shape) returns (ghost ws': Shape)
    requires Rep(ws) && Rep(ls) && ws.node == winner && ls.node == loser && Nodes(ws) !! Nodes(ls) && ws.kids != []
    modifies winner`child, winner`degree, loser`next, loser`prev, ws.kids[0].node`next, Second(Heads(ws.kids))`prev
    ensures ws' == Sh(winner, KidsAfter(ws.kids, ls)) && Rep(ws')
    ensures NodesF(ws'.kids) == NodesF(ws.kids) + Nodes(ls)
  {
    ghost var hs := Heads(ws.kids);
    HeadsApart(ws.kids);
    NodesFMember(ws.kids, 0);
    NodesAllocated(ws);
    NodesAllocated(ls);
    assert hs[0] in HeadSet(ws.kids) && Second(hs) in HeadSet(ws.kids);
    assert loser !in NodesF(ws.kids) && hs[0] !in Nodes(ls) && Second(hs) !in Nodes(ls);
    label before:
    var c := InsertNode(winner.child, loser, hs);
    ForestFrame@before(ws.kids);
    RepFrame@before(ls);
    ghost var kids := KidsAfter(ws.kids, ls);
    HeadsKidsAfter(ws.kids, ls);
    ForestKidsAfter(ws.kids, ls);
    LinkChild(winner, c, kids);
    ws' := Sh(winner, kids);
  }

  /**
   * The end of both `merge` branches: the winner's `child` cursor is set to the
   * head of its new child list and its `degree` grows by one.
   */
  method LinkChild(w: Node, c: Node, ghost ks: seq<Shape>)
    requires ks != [] && c == ks[0].node && Ring(Heads(ks)) && Forest(ks) && w !in NodesF(ks) && w.degree + 1 == |ks|
    modifies w`child, w`degree
    ensures Rep(Sh(w, ks))
  {
    NodesFAllocated(ks);
    label linked:
    w.child := c;
    w.degree := w.degree + 1;
    ForestFrame@linked(ks);
    RingFrame@linked(Heads(ks));
    RepFromParts(w, ks);
  }

  /** `merge` when the winner has no children: the loser becomes a one-element cyclic child list. */
  method AdoptFirst(winner: Node, loser: Node, ghost ws: Shape, ghost ls: Shape) returns (ghost ws': Shape)
    requires Rep(ws) && Rep(ls) && ws.node == winner && ls.node == loser && Nodes(ws) !! Nodes(ls) && ws.kids == []
    modifies winner`child, winner`degree, loser`next, loser`prev
    ensures ws' == Sh(winner, [ls]) && Rep(ws')
    ensures NodesF(ws'.kids) == NodesF(ws.kids) + Nodes(ls)
    ensures loser.next == loser && loser.prev == loser
  {
    NodesAllocated(ls);
    label before:
    loser.prev := loser;
    loser.next := loser;
    RepFrame@before(ls);
    NodesFOne(ls);
    ForestOne(ls);
    assert Heads([ls]) == [loser];
    LinkChild(winner, loser, [ls]);
    ws' := Sh(winner, [ls]);
    assert NodesF(ws.kids) == {};
  }

  /** A tree whose child list gained the cells of `ls` gained exactly those cells. */
  lemma {:induction false} NodesGrow(ws: Shape, ws': Shape, ls: Shape)
    requires ws'.node == ws.node && NodesF(ws'.kids) == NodesF(ws.kids) + Nodes(ls)
    ensures Nodes(ws') == Nodes(ws) + Nodes(ls)
  {
  }

  /** The tree `merge` builds: `loser` joins `winner`'s child list as `insert_node` places it. */
  function Adopted(winner: Shape, loser: Shape): Shape
  {
    Sh(winner.node, if winner.kids == [] then [loser] else KidsAfter(winner.kids, loser))
  }

  lemma {:induction false} AbsAdopted(winner: Shape, loser: Shape)
    ensures Abs(Adopted(winner, loser)) == Adopt(Abs(winner), Abs(loser))
  {
    if winner.kids != [] {
      AbsKidsAfter(winner.kids, loser);
    } else {
      assert AbsF([loser]) == [Abs(loser)];
    }
  }

  /** One branch of `merge`: `loser` goes into `winner`'s child list and `winner`'s degree grows by one. */
  method AdoptNode(winner: Node, loser: Node, ghost ws: Shape, ghost ls: Shape) returns (ghost ws': Shape)
    requires Rep(ws) && Rep(ls) && ws.node == winner && ls.node == loser && Nodes(ws) !! Nodes(ls)
    modifies Nodes(ws), Nodes(ls)
    ensures ws' == Adopted(ws, ls) && Rep(ws')
    ensures Nodes(ws') == Nodes(ws) + Nodes(ls)
  {
    if winner.child != null {
      ws' := AdoptInto(winner, loser, ws, ls);
    } else {
      ws' := AdoptFirst(winner, loser, ws, ls);
    }
    NodesGrow(ws, ws', ls);
  }

  /**
   * `BinomialHeap::merge(root, other)`: the root with the smaller key wins (on
   * equal keys `root` does), the other joins its child list, and the winner's
   * degree grows by one.
   */
  method Merge(root: Node, other: Node, ghost rs: Shape, ghost os: Shape) returns (w: Node, ghost ws: Shape)
    requires Rep(rs) && Rep(os) && rs.node == root && os.node == other && Nodes(rs) !! Nodes(os)
    modifies Nodes(rs), Nodes(os)
    ensures w == (if root.key > other.key then other else root)
    ensures Rep(ws) && ws.node == w && Nodes(ws) == Nodes(rs) + Nodes(os)
    ensures Abs(ws) == Link(Abs(rs), Abs(os))
  {
    if root.key > other.key {
      ws := AdoptNode(other, root, os, rs);
      w := other;
      AbsAdopted(os, rs);
    } else {
      ws := AdoptNode(root, other, rs, os);
      w := root;
      AbsAdopted(rs, os);
    }
  }

  // The slot vector of `merge_list`

  function SlotNode(o: Option<Shape>): Node?
  {
    if o.Some? then o.value.node else null
  }

  /** The trees in the occupied slots, in slot (degree) order. */
  function Present(vs: seq<Option<Shape>>): (ps: seq<Shape>)
    ensures |ps| <= |vs|
  {
    if vs == [] then [] else Present(vs[..|vs| - 1]) + (if vs[|vs| - 1].Some? then [vs[|vs| - 1].value] else [])
  }

  /** The root cells of the slots, null for an empty slot. */
  function SlotNodes(vs: seq<Option<Shape>>): (ns: seq<Node?>)
    ensures |ns| == |vs| && forall d | 0 <= d < |vs| :: ns[d] == SlotNode(vs[d])
  {
    seq(|vs|, d requires 0 <= d < |vs| => SlotNode(vs[d]))
  }

  lemma {:induction false} SlotNodesUpdate(vs: seq<Option<Shape>>, d: nat, o: Option<Shape>)
    requires d < |vs|
    ensures SlotNodes(vs[d := o]) == SlotNodes(vs)[d := SlotNode(o)]
  {
  }

  /** The tree in slot `d` is a binomial tree of degree `d`. */
  ghost predicate SlotDegrees(vs: seq<Option<Shape>>)
  {
    forall d | 0 <= d < |vs| && vs[d].Some? :: |vs[d].value.kids| == d && IsBinomial(Abs(vs[d].value))
  }

  /** `v[d]` holds the root cell of the tree in slot `d`, or null. */
  ghost predicate Slots(v: seq<Node?>, vs: seq<Option<Shape>>)
  {
    v == SlotNodes(vs) && SlotDegrees(vs)
  }

  lemma {:induction false} PresentAppend(a: seq<Option<Shape>>, b: seq<Option<Shape>>)
    ensures Present(a + b) == Present(a) + Present(b)
    decreases |b|
  {
    if b == [] {
      assert a + b == a;
    } else {
      var k := |b| - 1;
      assert (a + b)[..|a + b| - 1] == a + b[..k];
      PresentAppend(a, b[..k]);
    }
  }

  lemma {:induction false} PresentSplit(vs: seq<Option<Shape>>, d: nat, x: Option<Shape>)
    requires d < |vs|
    ensures Present(vs[d := x]) == Present(vs[..d]) + Present([x]) + Present(vs[d + 1..])
  {
    assert vs[d := x] == vs[..d] + [x] + vs[d + 1..];
    PresentAppend(vs[..d] + [x], vs[d + 1..]);
    PresentAppend(vs[..d], [x]);
  }

  /** The slot vector as `merge_list` allocates it: every slot empty. */
  function NoSlots(n: nat): (vs: seq<Option<Shape>>)
    ensures |vs| == n && forall d | 0 <= d < n :: vs[d] == None
  {
    seq(n, _ => None)
  }

  lemma {:induction false} PresentEmpty(n: nat)
    ensures Present(NoSlots(n)) == []
  {
    if n > 0 {
      assert NoSlots(n)[..n - 1] == NoSlots(n - 1);
      PresentEmpty(n - 1);
    }
  }

  lemma {:induction false} AbsFAppend(a: seq<Shape>, b: seq<Shape>)
    ensures AbsF(a + b) == AbsF(a) + AbsF(b)
  {
  }

  /** One tree in the middle of a list of trees: its cells and its keys. */
  lemma {:induction false} SumsMiddle(a: seq<Shape>, x: Shape, b: seq<Shape>)
    ensures NodesF(a + [x] + b) == NodesF(a + b) + Nodes(x)
    ensures ElemsF(AbsF(a + [x] + b)) == ElemsF(AbsF(a + b)) + Elems(Abs(x))
  {
    ForestSnoc(a, x);
    NodesFAppend(a + [x], b);
    NodesFAppend(a, b);
    ElemsMiddle(a, x, b);
  }

  /** The keys of one tree in the middle of a list of trees. */
  lemma {:induction false} ElemsMiddle(a: seq<Shape>, x: Shape, b: seq<Shape>)
    ensures ElemsF(AbsF(a + [x] + b)) == ElemsF(AbsF(a + b)) + Elems(Abs(x))
  {
    AbsFAppend(a + [x], b);
    AbsFAppend(a, [x]);
    AbsFAppend(a, b);
    ElemsFAppend(AbsF(a) + AbsF([x]), AbsF(b));
    ElemsFAppend(AbsF(a), AbsF([x]));
    ElemsFAppend(AbsF(a), AbsF(b));
    assert AbsF([x]) == [Abs(x)];
    ElemsFOne(Abs(x));
  }

  /** One tree in the middle of a list of trees is disjoint from the others exactly when the whole list is. */
  lemma {:induction false} ForestMiddle(a: seq<Shape>, x: Shape, b: seq<Shape>)
    ensures Forest(a + [x] + b) <==> Forest(a + b) && Rep(x) && Nodes(x) !! NodesF(a + b)
  {
    ForestSnoc(a, x);
    NodesFAppend(a + [x], b);
    NodesFAppend(a, b);
    if Forest(a + [x] + b) {
      ForestSplit(a + [x], b);
      ForestAppend(a, b);
    }
    if Forest(a + b) && Rep(x) && Nodes(x) !! NodesF(a + b) {
      ForestSplit(a, b);
      ForestAppend(a + [x], b);
    }
  }

  /** Emptying slot `d` takes its tree out of the present trees. */
  lemma {:induction false} SlotTake(vs: seq<Option<Shape>>, d: nat)
    requires d < |vs| && vs[d].Some?
    ensures var s, ps, ps' := vs[d].value, Present(vs), Present(vs[d := None]);
      && (Forest(ps) <==> Forest(ps') && Rep(s) && Nodes(s) !! NodesF(ps'))
      && NodesF(ps) == NodesF(ps') + Nodes(s)
      && ElemsF(AbsF(ps)) == ElemsF(AbsF(ps')) + Elems(Abs(s))
  {
    var s := vs[d].value;
    assert vs[d := Some(s)] == vs;
    PresentSplit(vs, d, Some(s));
    PresentSplit(vs, d, None);
    assert Present([Some(s)]) == [s] by {
      assert [Some(s)][..0] == [];
    }
    var none: Option<Shape> := None;
    assert Present([none]) == [] by {
      assert [none][..0] == [];
    }
    assert Present(vs[d := None]) == Present(vs[..d]) + Present(vs[d + 1..]);
    ForestMiddle(Present(vs[..d]), s, Present(vs[d + 1..]));
    SumsMiddle(Present(vs[..d]), s, Present(vs[d + 1..]));
  }

  /** Filling the empty slot `d` with `s` adds `s` to the present trees. */
  lemma {:induction false} SlotStore(vs: seq<Option<Shape>>, d: nat, s: Shape)
    requires d < |vs| && vs[d].None?
    ensures var ps, ps' := Present(vs), Present(vs[d := Some(s)]);
      && (Forest(ps') <==> Forest(ps) && Rep(s) && Nodes(s) !! NodesF(ps))
      && NodesF(ps') == NodesF(ps) + Nodes(s)
      && ElemsF(AbsF(ps')) == ElemsF(AbsF(ps)) + Elems(Abs(s))
  {
    assert vs[d := Some(s)][d := None] == vs;
    SlotTake(vs[d := Some(s)], d);
  }

  /** The cells of `s` form a tree whose keys form a binomial tree. */
  ghost predicate BinomialAt(s: Shape)
    reads Nodes(s)`child, Nodes(s)`degree
    reads HeadSet(s.kids)`next, HeadSet(s.kids)`prev, InnerF(s.kids)`next, InnerF(s.kids)`prev
  {
    Rep(s) && IsBinomial(Abs(s))
  }

  /** The slots hold disjoint binomial trees of their own degrees. */
  ghost predicate SlotsRep(v: seq<Node?>, vs: seq<Option<Shape>>)
    reads NodesF(Present(vs))`child, NodesF(Present(vs))`degree, InnerF(Present(vs))`next, InnerF(Present(vs))`prev
  {
    Slots(v, vs) && Forest(Present(vs))
  }

  /** Emptying the occupied slot `d` of a slot vector. */
  lemma {:induction false} TakeRep(v: seq<Node?>, vs: seq<Option<Shape>>, d: nat)
    requires SlotsRep(v, vs) && d < |v| && v[d] != null
    ensures vs[d].Some? && v[d] == vs[d].value.node && |vs[d].value.kids| == d
    ensures var s, vs' := vs[d].value, vs[d := None];
      && SlotsRep(v[d := null], vs') && BinomialAt(s) && Nodes(s) !! NodesF(Present(vs'))
      && NodesF(Present(vs)) == NodesF(Present(vs')) + Nodes(s)
      && ElemsF(AbsF(Present(vs))) == ElemsF(AbsF(Present(vs'))) + Elems(Abs(s))
  {
    SlotNodesUpdate(vs, d, None);
    SlotTake(vs, d);
  }

  /** Filling the empty slot `d` of a slot vector with a binomial tree of degree `d`. */
  lemma {:induction false} StoreRep(v: seq<Node?>, vs: seq<Option<Shape>>, d: nat, s: Shape)
    requires SlotsRep(v, vs) && d < |v| && v[d] == null
    requires BinomialAt(s) && |s.kids| == d && Nodes(s) !! NodesF(Present(vs))
    ensures var vs' := vs[d := Some(s)];
      && SlotsRep(v[d := s.node], vs')
      && NodesF(Present(vs')) == NodesF(Present(vs)) + Nodes(s)
      && ElemsF(AbsF(Present(vs'))) == ElemsF(AbsF(Present(vs))) + Elems(Abs(s))
  {
    SlotNodesUpdate(vs, d, Some(s));
    SlotStore(vs, d, s);
  }

  /** A binomial tree within a budget of `n` keys has degree at most `ILog2(n)`. */
  lemma {:induction false} DegreeBound(t: BTree, rest: multiset<int>, n: nat)
    requires IsBinomial(t) && n >= 1 && |rest + Elems(t)| <= n
    ensures Degree(t) <= ILog2(n)
  {
    ElemsCount(t);
    DegreeFits(Degree(t), n);
  }

  /** `merge` of two binomial trees of equal degree, next to a list of trees it leaves intact. */
  method MergeBeside(ne: Node, other: Node, ghost cur: Shape, ghost os: Shape, ghost pool: seq<Shape>)
      returns (w: Node, ghost ws: Shape)
    requires BinomialAt(cur) && BinomialAt(os) && cur.node == ne && os.node == other && Forest(pool)
    requires Nodes(cur) !! Nodes(os) && Nodes(cur) !! NodesF(pool) && Nodes(os) !! NodesF(pool)
    requires |cur.kids| == |os.kids|
    modifies Nodes(cur), Nodes(os)
    ensures Forest(pool) && BinomialAt(ws) && ws.node == w && |ws.kids| == |cur.kids| + 1
    ensures Nodes(ws) == Nodes(cur) + Nodes(os) && Elems(Abs(ws)) == Elems(Abs(cur)) + Elems(Abs(os))
  {
    NodesFAllocated(pool);
    label before:
    w, ws := Merge(ne, other, cur, os);
    ForestFrame@before(pool);
    LinkBinomial(Abs(cur), Abs(os));
    LinkElems(Abs(cur), Abs(os));
  }

  /**
   * One round of the inner loop of `merge_list`: the tree in the slot for the
   * current tree's degree is taken out of the slot and merged with it.
   */
  method TakeAndMerge(v: seq<Node?>, ghost vs: seq<Option<Shape>>, ne: Node, ghost cur: Shape)
      returns (v': seq<Node?>, w: Node, ghost ws: Shape, ghost vs': seq<Option<Shape>>)
    requires SlotsRep(v, vs) && BinomialAt(cur) && cur.node == ne && Nodes(cur) !! NodesF(Present(vs))
    requires ne.degree < |v| && v[ne.degree] != null
    modifies NodesF(Present(vs)), Nodes(cur)
    ensures vs' == vs[old(ne.degree) := None] && w.degree == old(ne.degree) + 1
    ensures SlotsRep(v', vs') && BinomialAt(ws) && ws.node == w && Nodes(ws) !! NodesF(Present(vs'))
    ensures NodesF(Present(vs')) + Nodes(ws) == NodesF(Present(vs)) + Nodes(cur)
    ensures ElemsF(AbsF(Present(vs'))) + Elems(Abs(ws)) == ElemsF(AbsF(Present(vs))) + Elems(Abs(cur))
  {
    var d := ne.degree;
    var other := v[d];
    ghost var os := vs[d].value;
    TakeRep(v, vs, d);
    v' := v[d := null];
    vs' := vs[d := None];
    w, ws := MergeBeside(ne, other, cur, os, Present(vs'));
  }

  /**
   * The inner loop of `merge_list` and the store after it: while the slot for
   * the current tree's degree is occupied, the two trees are merged and the
   * slot is emptied; then the current tree goes into the slot for its degree.
   */
  method Absorb(v: seq<Node?>, ghost vs: seq<Option<Shape>>, ne0: Node, ghost cur0: Shape, ghost n: nat)
      returns (v': seq<Node?>, ghost vs': seq<Option<Shape>>)
    requires SlotsRep(v, vs) && n >= 1 && |v| == ILog2(n) + 1
    requires BinomialAt(cur0) && cur0.node == ne0 && Nodes(cur0) !! NodesF(Present(vs))
    requires |ElemsF(AbsF(Present(vs))) + Elems(Abs(cur0))| <= n
    modifies NodesF(Present(vs)), Nodes(cur0)
    ensures SlotsRep(v', vs') && |v'| == |v|
    ensures NodesF(Present(vs')) == NodesF(Present(vs)) + Nodes(cur0)
    ensures ElemsF(AbsF(Present(vs'))) == ElemsF(AbsF(Present(vs))) + Elems(Abs(cur0))
  {
    var ne := ne0;
    ghost var cur := cur0;
    ghost var total := ElemsF(AbsF(Present(vs))) + Elems(Abs(cur0));
    v', vs' := v, vs;
    DegreeBound(Abs(cur), ElemsF(AbsF(Present(vs))), n);
    while v'[ne.degree] != null
      invariant SlotsRep(v', vs') && BinomialAt(cur) && cur.node == ne && Nodes(cur) !! NodesF(Present(vs'))
      invariant NodesF(Present(vs')) + Nodes(cur) == NodesF(Present(vs)) + Nodes(cur0)
      invariant ElemsF(AbsF(Present(vs'))) + Elems(Abs(cur)) == total
      invariant |v'| == ILog2(n) + 1 && ne.degree < |v'|
      decreases |v'| - ne.degree
    {
      v', ne, cur, vs' := TakeAndMerge(v', vs', ne, cur);
      ghost var rest := ElemsF(AbsF(Present(vs')));
      assert |rest + Elems(Abs(cur))| <= n;
      DegreeBound(Abs(cur), rest, n);
      assert ne.degree == Degree(Abs(cur));
    }
    var d := ne.degree;
    StoreRep(v', vs', d, cur);
    v' := v'[d := ne];
    vs' := vs'[d := Some(cur)];
  }

  /**
   * The roots `rs` are linked along `next` in order, and the last one's `next`
   * is `stop` (null for the list `delete_min` opened, the first root for a
   * cyclic list).
   */
  ghost predicate Chain(rs: seq<Shape>, stop: Node?)
    reads HeadSet(rs)`next
  {
    && (forall t | 0 <= t < |rs| - 1 :: rs[t].node.next == rs[t + 1].node)
    && (rs != [] ==> rs[|rs| - 1].node.next == stop)
  }

  /** The trees not yet visited by a walk of `merge_list`: linked, disjoint and binomial. */
  ghost predicate Pending(rs: seq<Shape>, stop: Node?)
    reads HeadSet(rs)`next, NodesF(rs)`child, NodesF(rs)`degree, InnerF(rs)`next, InnerF(rs)`prev
  {
    Chain(rs, stop) && Forest(rs) && AllBinomial(AbsF(rs))
  }

  /** The cells of a list of trees are those of its first tree and of the rest. */
  lemma {:induction false} NodesHead(rs: seq<Shape>)
    requires rs != []
    ensures NodesF(rs) == Nodes(rs[0]) + NodesF(rs[1..])
  {
    assert rs == [rs[0]] + rs[1..];
    NodesFAppend([rs[0]], rs[1..]);
    NodesFOne(rs[0]);
  }

  /** The first tree of a list of disjoint trees and the rest. */
  lemma {:induction false} ForestHead(rs: seq<Shape>)
    requires rs != [] && Forest(rs)
    ensures Rep(rs[0]) && Forest(rs[1..]) && Nodes(rs[0]) !! NodesF(rs[1..])
    ensures NodesF(rs) == Nodes(rs[0]) + NodesF(rs[1..])
  {
    assert rs == [rs[0]] + rs[1..];
    ForestSplit([rs[0]], rs[1..]);
    ForestAt(rs, 0);
    NodesHead(rs);
  }

  lemma {:induction false} ElemsHead(rs: seq<Shape>)
    requires rs != []
    ensures ElemsF(AbsF(rs)) == Elems(Abs(rs[0])) + ElemsF(AbsF(rs[1..]))
  {
    assert rs == [rs[0]] + rs[1..];
    AbsFAppend([rs[0]], rs[1..]);
    ElemsFAppend(AbsF([rs[0]]), AbsF(rs[1..]));
    assert AbsF([rs[0]]) == [Abs(rs[0])];
    ElemsFOne(Abs(rs[0]));
  }

  lemma {:induction false} BinomialTail(rs: seq<Shape>)
    requires rs != [] && AllBinomial(AbsF(rs))
    ensures IsBinomial(Abs(rs[0])) && AllBinomial(AbsF(rs[1..]))
  {
    assert AbsF(rs)[0] == Abs(rs[0]);
    assert forall t | 0 <= t < |rs| - 1 :: AbsF(rs[1..])[t] == AbsF(rs)[t + 1];
  }

  lemma {:induction false} PendingTail(rs: seq<Shape>, stop: Node?)
    requires rs != [] && Pending(rs, stop)
    ensures BinomialAt(rs[0]) && Nodes(rs[0]) !! NodesF(rs[1..]) && Pending(rs[1..], stop)
    ensures NodesF(rs) == Nodes(rs[0]) + NodesF(rs[1..])
    ensures ElemsF(AbsF(rs)) == Elems(Abs(rs[0])) + ElemsF(AbsF(rs[1..]))
    ensures rs[0].node.next == (if |rs| > 1 then rs[1].node else stop)
  {
    ForestHead(rs);
    ElemsHead(rs);
    BinomialTail(rs);
  }

  twostate lemma {:induction false} PendingFrame(rs: seq<Shape>, new stop: Node?)
    requires old(allocated(stop)) && old(Pending(rs, stop)) && forall o | o in NodesF(rs) :: old(allocated(o))
    requires forall o | o in NodesF(rs) ::
      old(o.child) == o.child && old(o.degree) == o.degree && old(o.next) == o.next && old(o.prev) == o.prev
    ensures Pending(rs, stop)
  {
    HeadsApart(rs);
    ForestFrame(rs);
  }

  /** Moving one part from the pending side to the done side keeps the total. */
  lemma {:induction false} MoveSets<T>(done: set<T>, done': set<T>, part: set<T>, pending: set<T>, pending': set<T>)
    requires done' == done + part && pending == part + pending'
    ensures done' + pending' == done + pending
  {
  }

  lemma {:induction false} MoveMultisets<T>(done: multiset<T>, done': multiset<T>, part: multiset<T>, pending: multiset<T>, pending': multiset<T>)
    requires done' == done + part && pending == part + pending'
    ensures done' + pending' == done + pending
  {
  }

  /**
   * The state of a walk of `merge_list`: slot vector of `ILog2(n) + 1` slots,
   * the trees still to visit, and the two apart.
   */
  ghost predicate WalkInv(v: seq<Node?>, vs: seq<Option<Shape>>, rs: seq<Shape>, stop: Node?, n: nat)
    reads NodesF(Present(vs))`child, NodesF(Present(vs))`degree, InnerF(Present(vs))`next, InnerF(Present(vs))`prev
    reads HeadSet(rs)`next, NodesF(rs)`child, NodesF(rs)`degree, InnerF(rs)`next, InnerF(rs)`prev
  {
    && SlotsRep(v, vs) && n >= 1 && |v| == ILog2(n) + 1
    && Pending(rs, stop) && NodesF(Present(vs)) !! NodesF(rs)
    && |ElemsF(AbsF(Present(vs))) + ElemsF(AbsF(rs))| <= n
  }

  /**
   * One round of a walk of `merge_list`: the successor of the current root is
   * read first, then the root is absorbed into the slots.
   */
  method Step(v: seq<Node?>, ghost vs: seq<Option<Shape>>, ne: Node, ghost rs: seq<Shape>, ghost stop: Node?, ghost n: nat)
      returns (v': seq<Node?>, ghost vs': seq<Option<Shape>>, p: Node?)
    requires rs != [] && ne == rs[0].node && WalkInv(v, vs, rs, stop, n)
    modifies NodesF(Present(vs)), Nodes(rs[0])
    ensures p == (if |rs| > 1 then rs[1].node else stop)
    ensures WalkInv(v', vs', rs[1..], stop, n)
    ensures NodesF(Present(vs')) + NodesF(rs[1..]) == NodesF(Present(vs)) + NodesF(rs)
    ensures ElemsF(AbsF(Present(vs'))) + ElemsF(AbsF(rs[1..])) == ElemsF(AbsF(Present(vs))) + ElemsF(AbsF(rs))
  {
    PendingTail(rs, stop);
    p := ne.next;
    v', vs' := AbsorbFirst(v, vs, ne, rs, stop, n);
  }

  /** The second half of a round: the current root is absorbed into the slots. */
  method AbsorbFirst(v: seq<Node?>, ghost vs: seq<Option<Shape>>, ne: Node, ghost rs: seq<Shape>, ghost stop: Node?, ghost n: nat)
      returns (v': seq<Node?>, ghost vs': seq<Option<Shape>>)
    requires rs != [] && ne == rs[0].node && WalkInv(v, vs, rs, stop, n)
    modifies NodesF(Present(vs)), Nodes(rs[0])
    ensures WalkInv(v', vs', rs[1..], stop, n)
    ensures NodesF(Present(vs')) + NodesF(rs[1..]) == NodesF(Present(vs)) + NodesF(rs)
    ensures ElemsF(AbsF(Present(vs'))) + ElemsF(AbsF(rs[1..])) == ElemsF(AbsF(Present(vs))) + ElemsF(AbsF(rs))
  {
    PendingTail(rs, stop);
    v', vs' := AbsorbBeside(v, vs, ne, rs[0], rs[1..], stop, n);
    WalkAdvance(v', vs, vs', rs, stop, n);
  }

  /** `Absorb`, seen from the trees still waiting in the root list: they are left as they were. */
  method AbsorbBeside(v: seq<Node?>, ghost vs: seq<Option<Shape>>, ne: Node, ghost cur: Shape,
                      ghost rest: seq<Shape>, ghost stop: Node?, ghost n: nat)
      returns (v': seq<Node?>, ghost vs': seq<Option<Shape>>)
    requires SlotsRep(v, vs) && n >= 1 && |v| == ILog2(n) + 1
    requires BinomialAt(cur) && cur.node == ne && Nodes(cur) !! NodesF(Present(vs))
    requires |ElemsF(AbsF(Present(vs))) + Elems(Abs(cur))| <= n
    requires Pending(rest, stop) && NodesF(rest) !! NodesF(Present(vs)) && NodesF(rest) !! Nodes(cur)
    modifies NodesF(Present(vs)), Nodes(cur)
    ensures SlotsRep(v', vs') && |v'| == |v| && Pending(rest, stop)
    ensures NodesF(Present(vs')) == NodesF(Present(vs)) + Nodes(cur)
    ensures ElemsF(AbsF(Present(vs'))) == ElemsF(AbsF(Present(vs))) + Elems(Abs(cur))
  {
    NodesFAllocated(rest);
    label before:
    v', vs' := Absorb(v, vs, ne, cur, n);
    PendingFrame@before(rest, stop);
  }

  /** Once the first pending tree is in the slots, the walk state holds for the rest of the trees. */
  lemma {:induction false} WalkAdvance(v': seq<Node?>, vs: seq<Option<Shape>>, vs': seq<Option<Shape>>, rs: seq<Shape>, stop: Node?, n: nat)
    requires rs != [] && n >= 1 && SlotsRep(v', vs') && |v'| == ILog2(n) + 1 && Pending(rs[1..], stop)
    requires NodesF(Present(vs')) == NodesF(Present(vs)) + Nodes(rs[0])
    requires ElemsF(AbsF(Present(vs'))) == ElemsF(AbsF(Present(vs))) + Elems(Abs(rs[0]))
    requires NodesF(Present(vs)) !! NodesF(rs) && |ElemsF(AbsF(Present(vs))) + ElemsF(AbsF(rs))| <= n
    requires NodesF(rs) == Nodes(rs[0]) + NodesF(rs[1..]) && Nodes(rs[0]) !! NodesF(rs[1..])
    requires ElemsF(AbsF(rs)) == Elems(Abs(rs[0])) + ElemsF(AbsF(rs[1..]))
    ensures WalkInv(v', vs', rs[1..], stop, n)
    ensures NodesF(Present(vs')) + NodesF(rs[1..]) == NodesF(Present(vs)) + NodesF(rs)
    ensures ElemsF(AbsF(Present(vs'))) + ElemsF(AbsF(rs[1..])) == ElemsF(AbsF(Present(vs))) + ElemsF(AbsF(rs))
  {
    MoveSets(NodesF(Present(vs)), NodesF(Present(vs')), Nodes(rs[0]), NodesF(rs), NodesF(rs[1..]));
    MoveMultisets(ElemsF(AbsF(Present(vs))), ElemsF(AbsF(Present(vs'))), Elems(Abs(rs[0])), ElemsF(AbsF(rs)), ElemsF(AbsF(rs[1..])));
  }

  /** A walk that has visited every tree has moved all of them into the slots. */
  lemma {:induction false} Drained(done: set<Node>, pend: seq<Shape>, total: set<Node>, elems: multiset<int>, etotal: multiset<int>)
    requires pend == [] && done + NodesF(pend) == total && elems + ElemsF(AbsF(pend)) == etotal
    ensures done == total && elems == etotal
  {
    assert NodesF(pend) == {} && ElemsF(AbsF(pend)) == multiset{};
  }

  /** A root after the first of a list of disjoint trees is not the first root. */
  lemma {:induction false} NotFirst(rs: seq<Shape>, i: nat)
    requires Distinct(Heads(rs)) && 0 < i < |rs|
    ensures rs[i].node != rs[0].node
  {
    assert Heads(rs)[0] == rs[0].node && Heads(rs)[i] == rs[i].node;
  }

  /**
   * A walk of `merge_list`: from `start`, every root is absorbed into the slots
   * until the successor read is null (the list `delete_min` opened, `stop` null)
   * or `start` again (the child ring, `stop == start`). Every tree of `rs` ends
   * up in the slots, nothing else does, and no key is lost or added.
   */
  method Walk(v: seq<Node?>, ghost vs: seq<Option<Shape>>, start: Node, ghost rs: seq<Shape>, ghost stop: Node?, ghost n: nat)
      returns (v': seq<Node?>, ghost vs': seq<Option<Shape>>)
    requires rs != [] && start == rs[0].node && (stop == null || stop == start)
    requires WalkInv(v, vs, rs, stop, n)
    modifies NodesF(Present(vs)), NodesF(rs)
    ensures SlotsRep(v', vs') && |v'| == |v|
    ensures NodesF(Present(vs')) == NodesF(Present(vs)) + NodesF(rs)
    ensures ElemsF(AbsF(Present(vs'))) == ElemsF(AbsF(Present(vs))) + ElemsF(AbsF(rs))
  {
    HeadsApart(rs);
    v', vs' := v, vs;
    ghost var i, pend := 0, rs;
    var p: Node? := start;
    while p != null
      invariant 0 <= i <= |rs| && pend == rs[i..] && p == (if i < |rs| then rs[i].node else null)
      invariant WalkInv(v', vs', pend, stop, n) && |v'| == |v|
      invariant NodesF(Present(vs')) + NodesF(pend) == NodesF(Present(vs)) + NodesF(rs)
      invariant ElemsF(AbsF(Present(vs'))) + ElemsF(AbsF(pend)) == ElemsF(AbsF(Present(vs))) + ElemsF(AbsF(rs))
      decreases |rs| - i
    {
      var ne := p;
      NodesHead(pend);
      v', vs', p := Step(v', vs', ne, pend, stop, n);
      pend, i := pend[1..], i + 1;
      if i < |rs| {
        NotFirst(rs, i);
      }
      if p == start {
        break;
      }
    }
    Drained(NodesF(Present(vs')), pend, NodesF(Present(vs)) + NodesF(rs),
      ElemsF(AbsF(Present(vs'))), ElemsF(AbsF(Present(vs))) + ElemsF(AbsF(rs)));
  }

  // The final relink of `merge_list`

  /** The first `k` slots hold the first `c` present trees. */
  ghost predicate SlotPrefix(vs: seq<Option<Shape>>, k: nat, c: nat)
  {
    k <= |vs| && c <= |Present(vs)| && Present(vs[..k]) == Present(vs)[..c]
  }

  /** The slots read up to `k` hold a prefix of the present trees; one more slot adds at most one. */
  lemma {:induction false} SlotAdvance(v: seq<Node?>, vs: seq<Option<Shape>>, k: nat, c: nat) returns (c': nat)
    requires Slots(v, vs) && k < |vs| && SlotPrefix(vs, k, c)
    ensures SlotPrefix(vs, k + 1, c')
    ensures v[k] == null ==> c' == c
    ensures v[k] != null ==> c' == c + 1 && v[k] == Present(vs)[c].node
  {
    assert vs[..k + 1][..k] == vs[..k];
    assert vs == vs[..k + 1] + vs[k + 1..];
    PresentAppend(vs[..k + 1], vs[k + 1..]);
    c' := |Present(vs[..k + 1])|;
  }

  /** Once every slot is read, every present tree has been seen. */
  lemma {:induction false} SlotsDone(v: seq<Node?>, vs: seq<Option<Shape>>, c: nat)
    requires Slots(v, vs) && SlotPrefix(vs, |v|, c)
    ensures c == |Heads(Present(vs))|
  {
    assert vs[..|vs|] == vs;
  }

  /** The first `c` cells of `hs` are linked along `next` and `prev`. */
  ghost predicate LinkedUpTo(hs: seq<Node>, c: nat)
    reads (set x | x in hs)`next, (set x | x in hs)`prev
  {
    c <= |hs| && forall t | 0 <= t < c - 1 :: hs[t].next == hs[t + 1] && hs[t + 1].prev == hs[t]
  }

  /** One round of the relink loop: the next survivor is linked after the last one. */
  method LinkNext(p: Node, item: Node, ghost hs: seq<Node>, ghost c: nat)
    requires Distinct(hs) && 0 < c < |hs| && p == hs[c - 1] && item == hs[c] && LinkedUpTo(hs, c)
    modifies p`next, item`prev
    ensures LinkedUpTo(hs, c + 1)
  {
    p.next := item;
    item.prev := p;
  }

  /** The last survivor is linked back to the first, closing the ring. */
  method CloseRing(p: Node, head: Node, ghost hs: seq<Node>)
    requires Distinct(hs) && |hs| > 0 && p == hs[|hs| - 1] && head == hs[0] && LinkedUpTo(hs, |hs|)
    modifies p`next, head`prev
    ensures Ring(hs)
  {
    p.next := head;
    head.prev := p;
  }

  /** `itr.next().unwrap()`: the first occupied slot holds the first present tree. */
  method FirstSlot(v: seq<Node?>, ghost vs: seq<Option<Shape>>) returns (k: nat)
    requires Slots(v, vs) && Present(vs) != []
    ensures k < |v| && v[k] == Present(vs)[0].node && SlotPrefix(vs, k + 1, 1)
    ensures forall d | 0 <= d < k :: v[d] == null
  {
    k := 0;
    assert vs[..0] == [];
    while v[k] == null
      invariant k < |v| && SlotPrefix(vs, k, 0)
      invariant forall d | 0 <= d < k :: v[d] == null
      decreases |v| - k
    {
      ghost var c' := SlotAdvance(v, vs, k, 0);
      k := k + 1;
    }
    ghost var c := SlotAdvance(v, vs, k, 0);
  }

  /**
   * The state of the relink loop after `c` survivors: they are linked in order,
   * `p` is the last of them, and `m` is the first of least key among them.
   */
  ghost predicate Survivors(hs: seq<Node>, c: nat, p: Node, m: Node, j: nat)
    reads (set x | x in hs)`next, (set x | x in hs)`prev
  {
    && 1 <= c <= |hs| && p == hs[c - 1] && j < c && m == hs[j] && LinkedUpTo(hs, c)
    && (forall i | 0 <= i < c :: m.key <= hs[i].key)
    && (forall i | 0 <= i < j :: m.key < hs[i].key)
  }

  /**
   * One round of the `for item in itr` loop of the relink: an occupied slot's
   * root is linked after the previous survivor, and `min` moves to it only
   * when its key is strictly smaller.
   */
  method RelinkRound(v: seq<Node?>, ghost vs: seq<Option<Shape>>, k: nat, ghost hs: seq<Node>,
      ghost c: nat, p: Node, m: Node, ghost j: nat)
      returns (ghost c': nat, p': Node, m': Node, ghost j': nat)
    requires Slots(v, vs) && hs == Heads(Present(vs)) && Distinct(hs)
    requires k < |v| && SlotPrefix(vs, k, c) && Survivors(hs, c, p, m, j)
    modifies HeadSet(Present(vs))`next, HeadSet(Present(vs))`prev
    ensures SlotPrefix(vs, k + 1, c') && Survivors(hs, c', p', m', j')
  {
    c' := SlotAdvance(v, vs, k, c);
    p', m', j' := p, m, j;
    if v[k] != null {
      var item: Node := v[k];
      LinkNext(p, item, hs, c);
      p' := item;
      if m.key > item.key {
        m', j' := item, c;
      }
    }
  }

  /** The `for item in itr` loop of the relink, over the slots after the first occupied one. */
  method LinkSurvivors(v: seq<Node?>, ghost vs: seq<Option<Shape>>, k0: nat, head: Node, ghost hs: seq<Node>)
      returns (m: Node, ghost j: nat, p: Node)
    requires Slots(v, vs) && hs == Heads(Present(vs)) && Distinct(hs)
    requires Present(vs) != [] && k0 < |v| && SlotPrefix(vs, k0 + 1, 1) && head == hs[0]
    modifies HeadSet(Present(vs))`next, HeadSet(Present(vs))`prev
    ensures Survivors(hs, |hs|, p, m, j)
  {
    p := head;
    m, j := head, 0;
    var k := k0 + 1;
    ghost var c := 1;
    while k < |v|
      invariant k <= |v| && SlotPrefix(vs, k, c) && Survivors(hs, c, p, m, j)
      decreases |v| - k
    {
      c, p, m, j := RelinkRound(v, vs, k, hs, c, p, m, j);
      k := k + 1;
    }
    SlotsDone(v, vs, c);
  }

  /**
   * The relink of `merge_list`: the trees left in the slots are linked into one
   * cyclic list in slot order and the first root of least key is returned.
   * Only the roots' `next` and `prev` change, so the trees stay intact.
   */
  method Relink(v: seq<Node?>, ghost vs: seq<Option<Shape>>) returns (m: Node, ghost j: nat)
    requires SlotsRep(v, vs) && Present(vs) != []
    modifies HeadSet(Present(vs))`next, HeadSet(Present(vs))`prev
    ensures var ps := Present(vs);
      && j < |ps| && m == ps[j].node && Forest(ps) && Ring(Heads(ps))
      && (forall i | 0 <= i < |ps| :: m.key <= ps[i].node.key)
      && (forall i | 0 <= i < j :: m.key < ps[i].node.key)
  {
    ghost var ps := Present(vs);
    ghost var hs := Heads(ps);
    HeadsApart(ps);
    NodesFAllocated(ps);
    var k := FirstSlot(v, vs);
    var head: Node := v[k];
    var p;
    m, j, p := LinkSurvivors(v, vs, k, head, hs);
    CloseRing(p, head, hs);
    ForestFrame(ps);
  }

  // `merge_list` as a whole

  /** The same cyclic list read from its element `j`. */
  function RotateAt<T>(s: seq<T>, j: nat): (r: seq<T>)
    requires j < |s|
    ensures |r| == |s| && r[0] == s[j]
    ensures forall i | 0 <= i < |s| :: r[i] == s[if i < |s| - j then i + j else i - (|s| - j)]
  {
    s[j..] + s[..j]
  }

  lemma {:induction false} RingRotateAt(cs: seq<Node>, j: nat)
    requires Ring(cs) && j < |cs|
    ensures Ring(RotateAt(cs, j))
  {
  }

  lemma {:induction false} HeadsRotateAt(ks: seq<Shape>, j: nat)
    requires j < |ks|
    ensures Heads(RotateAt(ks, j)) == RotateAt(Heads(ks), j)
  {
  }

  /** Reading a list of disjoint trees from another tree keeps the trees disjoint and their cells. */
  lemma {:induction false} ForestRotateAt(ks: seq<Shape>, j: nat)
    requires Forest(ks) && j < |ks|
    ensures Forest(RotateAt(ks, j)) && NodesF(RotateAt(ks, j)) == NodesF(ks)
  {
    var a, b := ks[..j], ks[j..];
    assert ks == a + b;
    ForestSplit(a, b);
    ForestAppend(b, a);
    NodesFAppend(a, b);
    NodesFAppend(b, a);
  }

  /** Reading a list of trees from another tree keeps its keys. */
  lemma {:induction false} ElemsRotateAt(ks: seq<Shape>, j: nat)
    requires j < |ks|
    ensures ElemsF(AbsF(RotateAt(ks, j))) == ElemsF(AbsF(ks))
  {
    var a, b := ks[..j], ks[j..];
    assert ks == a + b && RotateAt(ks, j) == b + a;
    AbsFAppend(a, b);
    AbsFAppend(b, a);
    ElemsFAppend(AbsF(a), AbsF(b));
    ElemsFAppend(AbsF(b), AbsF(a));
  }

  /** The trees left in the slots are binomial, of degree below the slot count and increasing in slot order. */
  lemma {:induction false} PresentDegrees(vs: seq<Option<Shape>>)
    requires SlotDegrees(vs)
    ensures forall i | 0 <= i < |Present(vs)| :: IsBinomial(Abs(Present(vs)[i])) && |Present(vs)[i].kids| < |vs|
    ensures forall a, b | 0 <= a < b < |Present(vs)| :: |Present(vs)[a].kids| < |Present(vs)[b].kids|
    decreases |vs|
  {
    if vs != [] {
      var k := |vs| - 1;
      var ps, ps0 := Present(vs), Present(vs[..k]);
      assert SlotDegrees(vs[..k]) by {
        assert forall d | 0 <= d < k :: vs[..k][d] == vs[d];
      }
      PresentDegrees(vs[..k]);
      if vs[k].Some? {
        var x := vs[k].value;
        assert ps == ps0 + [x];
        assert |x.kids| == k && IsBinomial(Abs(x));
        assert forall i | 0 <= i < |ps0| :: ps[i] == ps0[i];
        assert forall i | 0 <= i < |ps0| :: |ps0[i].kids| < k;
      } else {
        assert ps == ps0;
      }
    }
  }

  /** A list of trees of increasing degrees, read from any of its trees, has pairwise distinct degrees. */
  lemma {:induction false} DegreesRotateAt(ks: seq<Shape>, j: nat, bound: nat)
    requires j < |ks|
    requires forall i | 0 <= i < |ks| :: IsBinomial(Abs(ks[i])) && |ks[i].kids| < bound
    requires forall a, b | 0 <= a < b < |ks| :: |ks[a].kids| < |ks[b].kids|
    ensures var r := RotateAt(ks, j);
      && AllBinomial(AbsF(r)) && (forall i | 0 <= i < |r| :: |r[i].kids| < bound)
      && (forall a, b | 0 <= a < b < |r| :: |r[a].kids| != |r[b].kids|)
  {
    var r, n := RotateAt(ks, j), |ks|;
    forall a, b | 0 <= a < b < n ensures |r[a].kids| != |r[b].kids| {
      var a', b' := (if a < n - j then a + j else a - (n - j)), (if b < n - j then b + j else b - (n - j));
      assert r[a] == ks[a'] && r[b] == ks[b'] && a' != b';
    }
    assert forall i | 0 <= i < n :: AbsF(r)[i] == AbsF(ks)[if i < n - j then i + j else i - (n - j)];
  }

  /** `vec![None; size.ilog2() as usize + 1]`: the slot vector of `merge_list`, every slot empty. */
  method NewSlots(size: nat) returns (v: seq<Node?>, ghost vs: seq<Option<Shape>>)
    requires size >= 1
    ensures SlotsRep(v, vs) && |v| == ILog2(size) + 1 && Present(vs) == []
  {
    v := seq(ILog2(size) + 1, _ => null);
    vs := NoSlots(ILog2(size) + 1);
    PresentEmpty(ILog2(size) + 1);
    assert v == SlotNodes(vs);
  }

  /** The slots before the first walk, or between the walks, and the list still to walk. */
  lemma {:induction false} WalkStart(v: seq<Node?>, vs: seq<Option<Shape>>, done: seq<Shape>, rs: seq<Shape>, stop: Node?, size: nat)
    requires SlotsRep(v, vs) && size >= 1 && |v| == ILog2(size) + 1 && Pending(rs, stop)
    requires NodesF(Present(vs)) == NodesF(done) && NodesF(done) !! NodesF(rs)
    requires ElemsF(AbsF(Present(vs))) == ElemsF(AbsF(done)) && |ElemsF(AbsF(done)) + ElemsF(AbsF(rs))| <= size
    ensures WalkInv(v, vs, rs, stop, size)
  {
  }

  lemma {:induction false} NothingDone(vs: seq<Option<Shape>>, rs: seq<Shape>)
    requires Present(vs) == []
    ensures NodesF(Present(vs)) == NodesF([]) == {} && ElemsF(AbsF(Present(vs))) == ElemsF(AbsF([]))
    ensures ElemsF(AbsF([])) + ElemsF(AbsF(rs)) == ElemsF(AbsF(rs))
  {
    assert NodesF([]) == {} && ElemsF(AbsF([])) == multiset{};
  }

  /** A part of a multiset of keys is no larger than a bound on the whole. */
  lemma {:induction false} Sizes(a: multiset<int>, b: multiset<int>, size: nat)
    requires |a + b| <= size
    ensures |a| <= size
  {
  }

  /** The first walk of `merge_list`, over the list opened at `head`, into fresh slots. */
  method FirstWalk(head: Node, size: nat, ghost rs: seq<Shape>) returns (v: seq<Node?>, ghost vs: seq<Option<Shape>>)
    requires size >= 1 && rs != [] && head == rs[0].node && Pending(rs, null) && |ElemsF(AbsF(rs))| <= size
    modifies NodesF(rs)
    ensures SlotsRep(v, vs) && |v| == ILog2(size) + 1
    ensures NodesF(Present(vs)) == NodesF(rs) && ElemsF(AbsF(Present(vs))) == ElemsF(AbsF(rs))
  {
    NodesFAllocated(rs);
    v, vs := NewSlots(size);
    NothingDone(vs, rs);
    WalkStart(v, vs, [], rs, null, size);
    v, vs := Walk(v, vs, head, rs, null, size);
  }

  /** The two walks of `merge_list`: every tree of both lists ends up in a slot. */
  method Walks(head: Node, head2: Node?, size: nat, ghost rs1: seq<Shape>, ghost rs2: seq<Shape>)
      returns (v: seq<Node?>, ghost vs: seq<Option<Shape>>)
    requires size >= 1 && rs1 != [] && head == rs1[0].node && Pending(rs1, null)
    requires head2 == (if rs2 == [] then null else rs2[0].node) && Pending(rs2, head2)
    requires NodesF(rs1) !! NodesF(rs2) && |ElemsF(AbsF(rs1)) + ElemsF(AbsF(rs2))| <= size
    modifies NodesF(rs1), NodesF(rs2)
    ensures SlotsRep(v, vs) && |v| == ILog2(size) + 1
    ensures NodesF(Present(vs)) == NodesF(rs1) + NodesF(rs2)
    ensures ElemsF(AbsF(Present(vs))) == ElemsF(AbsF(rs1)) + ElemsF(AbsF(rs2))
  {
    NodesFAllocated(rs2);
    Sizes(ElemsF(AbsF(rs1)), ElemsF(AbsF(rs2)), size);
    label before:
    v, vs := FirstWalk(head, size, rs1);
    PendingFrame@before(rs2, head2);
    if head2 != null {
      WalkStart(v, vs, rs1, rs2, head2, size);
      v, vs := Walk(v, vs, head2, rs2, head2, size);
    } else {
      assert NodesF(rs2) == {} && ElemsF(AbsF(rs2)) == multiset{};
    }
  }

  /** A root list: disjoint trees whose roots form a cyclic list, read from `rs[0]`. */
  ghost predicate RootRing(rs: seq<Shape>)
    reads HeadSet(rs)`next, HeadSet(rs)`prev, NodesF(rs)`child, NodesF(rs)`degree, InnerF(rs)`next, InnerF(rs)`prev
  {
    rs != [] && Forest(rs) && Ring(Heads(rs))
  }

  /** The first root holds the least root key. */
  predicate MinFirst(rs: seq<Shape>)
  {
    rs != [] && forall i | 0 <= i < |rs| :: rs[0].node.key <= rs[i].node.key
  }

  /** The trees are binomial, with pairwise distinct degrees below `bound`. */
  ghost predicate DegreesApart(rs: seq<Shape>, bound: nat)
  {
    && AllBinomial(AbsF(rs))
    && (forall i | 0 <= i < |rs| :: |rs[i].kids| < bound)
    && (forall a, b | 0 <= a < b < |rs| :: |rs[a].kids| != |rs[b].kids|)
  }

  /** A root list read from another of its roots: the same disjoint trees, cells and keys. */
  lemma {:induction false} RotatedRing(ps: seq<Shape>, j: nat)
    requires j < |ps| && Forest(ps) && Ring(Heads(ps))
    ensures RotateAt(ps, j)[0] == ps[j] && RootRing(RotateAt(ps, j))
    ensures NodesF(RotateAt(ps, j)) == NodesF(ps) && ElemsF(AbsF(RotateAt(ps, j))) == ElemsF(AbsF(ps))
  {
    HeadsRotateAt(ps, j);
    RingRotateAt(Heads(ps), j);
    ForestRotateAt(ps, j);
    ElemsRotateAt(ps, j);
  }

  /** Rotating the least root to the front puts it first. */
  lemma {:induction false} MinRotated(ps: seq<Shape>, j: nat, m: Node)
    requires j < |ps| && m == ps[j].node && forall i | 0 <= i < |ps| :: m.key <= ps[i].node.key
    ensures RotateAt(ps, j)[0].node == m && MinFirst(RotateAt(ps, j))
  {
  }

  /** The trees the relink leaves are binomial, with pairwise distinct degrees below the slot count. */
  lemma {:induction false} MergedDegrees(vs: seq<Option<Shape>>, j: nat)
    requires SlotDegrees(vs) && j < |Present(vs)|
    ensures DegreesApart(RotateAt(Present(vs), j), |vs|)
  {
    PresentDegrees(vs);
    DegreesRotateAt(Present(vs), j, |vs|);
  }

  /**
   * `merge_list(head, head2, size)`: the trees of the list opened at `head` and
   * of the ring at `head2` are merged pairwise by degree and relinked into one
   * ring, read here from the returned root. It holds every cell and every key
   * of the inputs, its trees are binomial with pairwise distinct degrees of at
   * most `ilog2(size)`, and the returned root holds the least root key.
   */
  method MergeList(head: Node, head2: Node?, size: nat, ghost rs1: seq<Shape>, ghost rs2: seq<Shape>)
      returns (m: Node, ghost out: seq<Shape>)
    requires size >= 1 && rs1 != [] && head == rs1[0].node && Pending(rs1, null)
    requires head2 == (if rs2 == [] then null else rs2[0].node) && Pending(rs2, head2)
    requires NodesF(rs1) !! NodesF(rs2) && |ElemsF(AbsF(rs1)) + ElemsF(AbsF(rs2))| <= size
    modifies NodesF(rs1), NodesF(rs2)
    ensures RootRing(out) && out[0].node == m && MinFirst(out) && DegreesApart(out, ILog2(size) + 1)
    ensures NodesF(out) == NodesF(rs1) + NodesF(rs2)
    ensures ElemsF(AbsF(out)) == ElemsF(AbsF(rs1)) + ElemsF(AbsF(rs2))
  {
    var v;
    ghost var vs;
    v, vs := Walks(head, head2, size, rs1, rs2);
    assert Present(vs) != [] by {
      assert head in NodesF(rs1);
      assert NodesF([]) == {};
    }
    ghost var j;
    m, j := Relink(v, vs);
    RotatedRing(Present(vs), j);
    MinRotated(Present(vs), j, m);
    MergedDegrees(vs, j);
    out := RotateAt(Present(vs), j);
  }

  // The heap

  /** A root list read from another of its roots keeps its trees binomial. */
  lemma {:induction false} BinomialRotateAt(ks: seq<Shape>, j: nat)
    requires j < |ks| && AllBinomial(AbsF(ks))
    ensures AllBinomial(AbsF(RotateAt(ks, j)))
  {
    var r, n := RotateAt(ks, j), |ks|;
    assert forall i | 0 <= i < n :: AbsF(r)[i] == AbsF(ks)[if i < n - j then i + j else i - (n - j)];
  }

  /** The root of a binomial list of trees whose first root is least holds the least key. */
  lemma {:induction false} LeastKey(rs: seq<Shape>)
    requires MinFirst(rs) && AllBinomial(AbsF(rs))
    ensures rs[0].node.key in ElemsF(AbsF(rs))
    ensures forall x | x in ElemsF(AbsF(rs)) :: rs[0].node.key <= x
  {
    ElemsHead(rs);
    assert AbsF(rs)[0] == Abs(rs[0]);
    RootIsMin(Abs(rs[0]));
    forall x | x in ElemsF(AbsF(rs))
      ensures rs[0].node.key <= x
    {
      var i := ElemsFWitness(AbsF(rs), x);
      RootIsMin(AbsF(rs)[i]);
    }
  }

  /** A cell just made by `Node::new` is a one-cell binomial tree. */
  lemma {:induction false} Leaf(n: Node)
    requires n.child == null && n.degree == 0
    ensures Rep(Sh(n, [])) && Nodes(Sh(n, [])) == {n}
    ensures IsBinomial(Abs(Sh(n, []))) && Elems(Abs(Sh(n, []))) == multiset{n.key}
  {
    assert NodesF([]) == {};
    assert Abs(Sh(n, [])) == BT(n.key, []);
  }

  /** One more binomial tree at the back of a list of binomial trees. */
  lemma {:induction false} SnocBinomial(rs: seq<Shape>, x: Shape)
    requires AllBinomial(AbsF(rs)) && IsBinomial(Abs(x))
    ensures AllBinomial(AbsF(rs + [x]))
    ensures ElemsF(AbsF(rs + [x])) == ElemsF(AbsF(rs)) + Elems(Abs(x))
  {
    AbsFAppend(rs, [x]);
    assert AbsF([x]) == [Abs(x)];
    ElemsFAppend(AbsF(rs), [Abs(x)]);
    ElemsFOne(Abs(x));
  }

  /**
   * The non-empty case of `insert`: a new cell is spliced into the root list
   * by `insert_node_prev`, just before the cursor `min`, which makes it the
   * last root read from `min`.
   */
  method SpliceRoot(min: Node, key: int, ghost rs: seq<Shape>) returns (n: Node, ghost rs': seq<Shape>)
    requires RootRing(rs) && min == rs[0].node && AllBinomial(AbsF(rs))
    modifies min`prev, Last(Heads(rs))`next
    ensures fresh(n) && n.key == key && rs' == rs + [Sh(n, [])]
    ensures RootRing(rs') && AllBinomial(AbsF(rs'))
    ensures n !in NodesF(rs) && NodesF(rs') == NodesF(rs) + {n} && |NodesF(rs')| == |NodesF(rs)| + 1
    ensures ElemsF(AbsF(rs')) == ElemsF(AbsF(rs)) + multiset{key}
  {
    NodesFAllocated(rs);
    HeadsApart(rs);
    n := new Node(key);
    label before:
    InsertNodePrev(min, n, Heads(rs));
    ForestFrame@before(rs);
    rs' := rs + [Sh(n, [])];
    SnocLeaf(rs, n);
  }

  /** A childless node spliced in as the last root extends the root list by a one-node binomial tree. */
  lemma {:induction false} SnocLeaf(rs: seq<Shape>, n: Node)
    requires rs != [] && Forest(rs) && AllBinomial(AbsF(rs)) && Ring(BeforeCursor(Heads(rs), n))
    requires n.child == null && n.degree == 0 && n !in NodesF(rs)
    ensures RootRing(rs + [Sh(n, [])]) && AllBinomial(AbsF(rs + [Sh(n, [])]))
    ensures NodesF(rs + [Sh(n, [])]) == NodesF(rs) + {n}
    ensures ElemsF(AbsF(rs + [Sh(n, [])])) == ElemsF(AbsF(rs)) + multiset{n.key}
  {
    Leaf(n);
    ForestSnoc(rs, Sh(n, []));
    assert Heads(rs + [Sh(n, [])]) == BeforeCursor(Heads(rs), n);
    SnocBinomial(rs, Sh(n, []));
  }

  /** The cursor of a root list is its own predecessor exactly when it is the only root. */
  lemma {:induction false} LoneRoot(rs: seq<Shape>)
    requires RootRing(rs)
    ensures rs[0].node.prev == rs[0].node <==> |rs| == 1
  {
    HeadsApart(rs);
  }

  /**
   * The children of a root, read from its `child` cursor, are a root list in
   * their own right.
   */
  lemma {:induction false} ChildRing(s: Shape)
    requires Rep(s)
    ensures s.node.child == (if s.kids == [] then null else s.kids[0].node)
    ensures s.kids != [] ==> RootRing(s.kids)
  {
  }

  /** The children of a binomial tree are binomial, and the least of them is first. */
  lemma {:induction false} ChildKeys(s: Shape)
    requires IsBinomial(Abs(s))
    ensures s.kids != [] ==> MinFirst(s.kids)
    ensures AllBinomial(AbsF(s.kids))
    ensures Elems(Abs(s)) == multiset{s.node.key} + ElemsF(AbsF(s.kids))
  {
    var t := Abs(s);
    assert t.kids == AbsF(s.kids);
    forall i | 0 <= i < |s.kids|
      ensures t.kids[i].key == s.kids[i].node.key
    {
      assert AbsF(s.kids)[i] == Abs(s.kids[i]);
    }
  }

  /** A root list is a chain read from its cursor and ending back at it. */
  lemma {:induction false} RingPending(rs: seq<Shape>)
    requires RootRing(rs) && AllBinomial(AbsF(rs))
    ensures Pending(rs, rs[0].node)
  {
  }

  /**
   * A root list of several trees, split as the many-roots case of `delete_min`
   * uses it: the first root, whose children become a second chain, and the
   * other roots, a chain read from the first root's successor.
   */
  lemma {:induction false} SplitRoots(rs: seq<Shape>)
    requires RootRing(rs) && |rs| > 1 && AllBinomial(AbsF(rs))
    ensures Pending(rs[1..], rs[0].node) && Distinct(Heads(rs[1..])) && HeadSet(rs[1..]) !! InnerF(rs[1..])
    ensures rs[0].node.next == rs[1].node && rs[0].node.prev == rs[|rs| - 1].node
    ensures rs[|rs| - 1].node in NodesF(rs[1..])
    ensures rs[0].node.child == (if rs[0].kids == [] then null else rs[0].kids[0].node)
    ensures Pending(rs[0].kids, rs[0].node.child) && NodesF(rs[0].kids) !! NodesF(rs[1..])
    ensures NodesF(rs[1..]) <= NodesF(rs) && NodesF(rs[0].kids) <= NodesF(rs)
    ensures ElemsF(AbsF(rs)) == multiset{rs[0].node.key} + ElemsF(AbsF(rs[0].kids)) + ElemsF(AbsF(rs[1..]))
  {
    RingPending(rs);
    PendingTail(rs, rs[0].node);
    ChildRing(rs[0]);
    ChildKeys(rs[0]);
    HeadsApart(rs[1..]);
    assert rs[1..][|rs| - 2].node in HeadSet(rs[1..]);
  }

  /** A root list of one tree: its children, read from the `child` cursor, are the next root list. */
  lemma {:induction false} OnlyRoot(rs: seq<Shape>)
    requires RootRing(rs) && |rs| == 1 && AllBinomial(AbsF(rs))
    ensures rs[0].node.child == (if rs[0].kids == [] then null else rs[0].kids[0].node)
    ensures rs[0].kids != [] ==> RootRing(rs[0].kids) && MinFirst(rs[0].kids)
    ensures AllBinomial(AbsF(rs[0].kids))
    ensures ElemsF(AbsF(rs)) == multiset{rs[0].node.key} + ElemsF(AbsF(rs[0].kids))
  {
    ForestAt(rs, 0);
    BinomialTail(rs);
    ElemsHead(rs);
    assert rs[1..] == [];
    ChildRing(rs[0]);
    ChildKeys(rs[0]);
  }

  /**
   * `(*prev).next = None` in `delete_min`: the last of the other roots stops
   * pointing back to `min`, so that they become a chain ending in null; the
   * chain of `min`'s children does not change.
   */
  method OpenChain(prev: Node, ghost rest: seq<Shape>, ghost stop: Node, ghost kids: seq<Shape>, ghost head2: Node?)
    requires Pending(rest, stop) && rest != [] && prev == rest[|rest| - 1].node
    requires Distinct(Heads(rest)) && HeadSet(rest) !! InnerF(rest)
    requires Pending(kids, head2) && NodesF(kids) !! NodesF(rest)
    modifies prev`next
    ensures Pending(rest, null) && Pending(kids, head2)
  {
    NodesFAllocated(rest);
    NodesFAllocated(kids);
    assert prev in HeadSet(rest);
    label before:
    prev.next := null;
    PendingFrame@before(kids, head2);
  }

  /**
   * The many-roots case of `delete_min`, over the cells: the other roots,
   * cut into a chain after `prev`, and the children of `min` are merged by
   * `merge_list`. The keys left are those before less `min`'s key, and the
   * roots have pairwise distinct degrees.
   */
  method MergeRest(min: Node, prev: Node, size: nat, ghost rs: seq<Shape>) returns (m: Node, ghost out: seq<Shape>)
    requires RootRing(rs) && |rs| > 1 && min == rs[0].node && prev == rs[|rs| - 1].node
    requires AllBinomial(AbsF(rs)) && size == |ElemsF(AbsF(rs))|
    modifies NodesF(rs)
    ensures ElemsF(AbsF(rs)) == ElemsF(AbsF(out)) + multiset{min.key}
    ensures RootRing(out) && out[0].node == m && MinFirst(out) && DegreesApart(out, ILog2(size) + 1)
    ensures NodesF(out) == NodesF(rs[0].kids) + NodesF(rs[1..])
  {
    SplitRoots(rs);
    ghost var rest, kids := rs[1..], rs[0].kids;
    var head, head2 := min.next, min.child;
    OpenChain(prev, rest, min, kids, head2);
    m, out := MergeList(head, head2, size, rest, kids);
  }

  /**
   * A heap state: the roots form a cyclic list of disjoint binomial trees,
   * `min` is the cursor and holds the least root key, and `size` counts the
   * keys.
   */
  ghost predicate HeapState(min: Node?, size: nat, roots: seq<Shape>)
    reads NodesF(roots)`next, NodesF(roots)`prev, NodesF(roots)`child, NodesF(roots)`degree
  {
    && min == (if roots == [] then null else roots[0].node)
    && (roots != [] ==> RootRing(roots) && MinFirst(roots))
    && AllBinomial(AbsF(roots))
    && size == |ElemsF(AbsF(roots))|
  }

  /** Taking one occurrence of `k` out of `b + {k}` gives back `b`, one smaller. */
  lemma {:induction false} TakeOut(a: multiset<int>, b: multiset<int>, k: int)
    requires a == b + multiset{k}
    ensures k in a && b == a - multiset{k} && |b| == |a| - 1
  {
  }

  /** A heap state stays one while its cells' links do not change. */
  twostate lemma {:induction false} HeapStateFrame(new min: Node?, new size: nat, roots: seq<Shape>)
    requires old(allocated(min)) && old(HeapState(min, size, roots)) && forall o | o in NodesF(roots) :: old(allocated(o))
    requires forall o | o in NodesF(roots) ::
      old(o.child) == o.child && old(o.degree) == o.degree && old(o.next) == o.next && old(o.prev) == o.prev
    ensures HeapState(min, size, roots)
  {
    if roots != [] {
      ForestFrame(roots);
      forall o | o in Heads(roots) ensures o in NodesF(roots) {
        var i :| 0 <= i < |roots| && Heads(roots)[i] == o;
        assert roots[i].node in HeadSet(roots);
      }
      RingFrame(Heads(roots));
    }
  }

  /**
   * `delete_min` on a non-empty root list read from `min`, over the cells:
   * with `min` the only root, its child ring becomes the root list, read from
   * the `child` cursor; otherwise the other roots and `min`'s children are
   * merged. The keys left are those before less `min`'s key; after a merge
   * the roots have pairwise distinct degrees.
   */
  method RemoveMin(min: Node, size: nat, ghost rs: seq<Shape>) returns (m: Node?, ghost rs': seq<Shape>)
    requires HeapState(min, size, rs) && rs != []
    modifies NodesF(rs)
    ensures ElemsF(AbsF(rs)) == ElemsF(AbsF(rs')) + multiset{min.key}
    ensures HeapState(m, size - 1, rs')
    ensures |rs| > 1 ==> DegreesApart(rs', ILog2(size) + 1)
    ensures |rs| == 1 ==> m == old(min.child) && rs' == rs[0].kids
    ensures NodesF(rs') == NodesF(rs) - {min}
  {
    LoneRoot(rs);
    RootOut(rs);
    var prev := min.prev;
    if prev == min {
      OnlyRoot(rs);
      m := min.child;
      rs' := rs[0].kids;
    } else {
      var n;
      n, rs' := MergeRest(min, prev, size, rs);
      m := n;
    }
  }

  /** Without its first root cell, a root list holds the cells of that root's children and of the other trees. */
  lemma {:induction false} RootOut(rs: seq<Shape>)
    requires rs != [] && Forest(rs)
    ensures NodesF(rs) - {rs[0].node} == NodesF(rs[0].kids) + NodesF(rs[1..])
    ensures |rs| == 1 ==> NodesF(rs) - {rs[0].node} == NodesF(rs[0].kids)
  {
    ForestHead(rs);
    if |rs| == 1 {
      assert NodesF(rs[1..]) == {};
    }
  }

  /** Read from its last tree, a list of trees puts that tree in front of the others, with the same cells. */
  lemma {:induction false} RotateLast(rs: seq<Shape>, x: Shape)
    ensures RotateAt(rs + [x], |rs|) == [x] + rs && NodesF([x] + rs) == NodesF(rs + [x])
  {
    assert (rs + [x])[|rs|..] == [x] && (rs + [x])[..|rs|] == rs;
    NodesFAppend([x], rs);
    NodesFAppend(rs, [x]);
  }

  /** A tree placed after the roots, no smaller than the first, leaves the least root first. */
  lemma {:induction false} SnocMin(rs: seq<Shape>, x: Shape)
    requires MinFirst(rs) && rs[0].node.key <= x.node.key
    ensures MinFirst(rs + [x]) && (rs + [x])[0] == rs[0]
  {
  }

  /** `new_cyclic`: a one-cell cyclic list, the root list of a heap holding `key` alone. */
  method NewRoot(key: int) returns (n: Node, ghost rs: seq<Shape>)
    ensures fresh(n) && n.key == key && rs == [Sh(n, [])]
    ensures RootRing(rs) && MinFirst(rs) && AllBinomial(AbsF(rs))
    ensures NodesF(rs) == {n} && ElemsF(AbsF(rs)) == multiset{key}
  {
    n := NewCyclic(key);
    Leaf(n);
    ForestOne(Sh(n, []));
    assert Heads([Sh(n, [])]) == [n];
    SnocBinomial([], Sh(n, []));
    assert [] + [Sh(n, [])] == [Sh(n, [])];
    rs := [Sh(n, [])];
  }

  /**
   * A tree placed after the roots with a key below every root key becomes the
   * least root once the list is read from it.
   */
  lemma {:induction false} NewLeast(rs: seq<Shape>, x: Shape)
    requires MinFirst(rs) && x.node.key < rs[0].node.key
    requires RootRing(rs + [x]) && AllBinomial(AbsF(rs + [x]))
    ensures RotateAt(rs + [x], |rs|)[0] == x && RootRing(RotateAt(rs + [x], |rs|))
    ensures MinFirst(RotateAt(rs + [x], |rs|)) && AllBinomial(AbsF(RotateAt(rs + [x], |rs|)))
    ensures ElemsF(AbsF(RotateAt(rs + [x], |rs|))) == ElemsF(AbsF(rs + [x]))
  {
    var ss := rs + [x];
    forall i | 0 <= i < |ss| ensures x.node.key <= ss[i].node.key {
      if i < |rs| {
        assert ss[i] == rs[i];
      }
    }
    RotatedRing(ss, |rs|);
    MinRotated(ss, |rs|, x.node);
    BinomialRotateAt(ss, |rs|);
  }

  /**
   * `insert` into a non-empty root list read from `min`: a one-cell tree
   * joins just before `min`, and becomes the cursor only when its key is
   * strictly smaller than `min`'s.
   */
  method InsertRoot(min: Node, key: int, ghost rs: seq<Shape>) returns (m: Node, n: Node, ghost rs': seq<Shape>)
    requires RootRing(rs) && MinFirst(rs) && min == rs[0].node && AllBinomial(AbsF(rs))
    modifies NodesF(rs)
    ensures RootRing(rs') && MinFirst(rs') && m == rs'[0].node && AllBinomial(AbsF(rs'))
    ensures m.key == (if min.key > key then key else min.key) && |rs'| == |rs| + 1
    ensures ElemsF(AbsF(rs')) == ElemsF(AbsF(rs)) + multiset{key}
    ensures fresh(n) && n.key == key && m == (if min.key > key then n else min)
    ensures rs' == (if min.key > key then [Sh(n, [])] + rs else rs + [Sh(n, [])])
    ensures n !in NodesF(rs) && NodesF(rs') == NodesF(rs) + {n} && |NodesF(rs')| == |NodesF(rs)| + 1
  {
    assert rs[|rs| - 1].node in HeadSet(rs);
    ghost var ss;
    n, ss := SpliceRoot(min, key, rs);
    if min.key > key {
      NewLeast(rs, Sh(n, []));
      m, rs' := n, RotateAt(ss, |rs|);
      RotateLast(rs, Sh(n, []));
    } else {
      SnocMin(rs, Sh(n, []));
      m, rs' := min, ss;
    }
  }

  /**
   * The root list of `insert`: a new one-cell list in an empty heap, else
   * `InsertRoot`. The new cell `n` is read first exactly when it becomes the cursor.
   */
  method PlaceRoot(min: Node?, key: int, ghost rs: seq<Shape>) returns (m: Node, n: Node, ghost rs': seq<Shape>)
    requires min == (if rs == [] then null else rs[0].node)
    requires (rs != [] ==> RootRing(rs) && MinFirst(rs)) && AllBinomial(AbsF(rs))
    modifies NodesF(rs)
    ensures RootRing(rs') && MinFirst(rs') && m == rs'[0].node && AllBinomial(AbsF(rs'))
    ensures ElemsF(AbsF(rs')) == ElemsF(AbsF(rs)) + multiset{key}
    ensures fresh(n) && n.key == key && m == (if min == null || min.key > key then n else min)
    ensures rs' == (if min == null || min.key > key then [Sh(n, [])] + rs else rs + [Sh(n, [])])
    ensures n !in NodesF(rs) && NodesF(rs') == NodesF(rs) + {n} && |NodesF(rs')| == |NodesF(rs)| + 1
  {
    if min == null {
      m, rs' := NewRoot(key);
      n := m;
      assert NodesF(rs) == {};
    } else {
      m, n, rs' := InsertRoot(min, key, rs);
    }
  }

  /**
   * `BinomialHeap<K>`: a cursor `min` into the cyclic list of roots and the
   * number of keys held. The ghost `roots` are the trees of the root list read
   * from `min`.
   */
  class BinomialHeap {
    var min: Node?
    var size: nat
    ghost var roots: seq<Shape>

    /** The fields are a heap state. */
    ghost predicate Valid()
      reads this, NodesF(roots)
    {
      HeapState(min, size, roots)
    }

    /** The multiset of keys in the heap. */
    ghost function Contents(): multiset<int>
      reads this
    {
      ElemsF(AbsF(roots))
    }

    /** `BinomialHeap::new`: the empty heap. */
    constructor ()
      ensures Valid() && Contents() == multiset{} && roots == []
    {
      min := null;
      size := 0;
      roots := [];
    }

    /** `len`: the number of keys held. */
    method Len() returns (n: nat)
      requires Valid()
      ensures n == |Contents()|
    {
      n := size;
    }

    /** The cursor holds the least key of a non-empty heap. */
    lemma {:induction false} MinIsLeast()
      requires Valid() && min != null
      ensures min.key in Contents() && forall x | x in Contents() :: min.key <= x
    {
      LeastKey(roots);
    }

    /**
     * `insert`: a one-cell tree joins the root list just before the cursor (a
     * new cyclic list in an empty heap); the cursor moves to the new cell only
     * when its key is strictly smaller. No trees are merged.
     */
    method Insert(key: int)
      requires Valid()
      modifies this, NodesF(roots)
      ensures Valid() && Contents() == old(Contents()) + multiset{key} && size == old(size) + 1
      ensures |roots| == |old(roots)| + 1
      ensures min != null && min.key == (if old(min) == null || old(min).key > key then key else old(min).key)
      ensures old(min) == null ==> fresh(min) && roots == [Sh(min, [])]
      ensures old(min) != null && old(min).key <= key ==>
        && min == old(min) && fresh(roots[|roots| - 1].node) && roots[|roots| - 1].node.key == key
        && roots == old(roots) + [Sh(roots[|roots| - 1].node, [])]
      ensures old(min) != null && old(min).key > key ==> fresh(min) && roots == [Sh(min, [])] + old(roots)
      ensures NodesF(old(roots)) <= NodesF(roots) && fresh(NodesF(roots) - NodesF(old(roots)))
      ensures |NodesF(roots)| == |NodesF(old(roots))| + 1
    {
      var m, n;
      ghost var rs;
      m, n, rs := PlaceRoot(min, key, roots);
      Install(m, size + 1, rs);
      assert NodesF(roots) - NodesF(old(roots)) == {n};
    }

    /** Make the heap state `m`, `n`, `rs`, built below the heap, the contents. */
    method Install(m: Node?, n: nat, ghost rs: seq<Shape>)
      requires HeapState(m, n, rs)
      modifies this
      ensures Valid() && min == m && size == n && roots == rs
    {
      NodesFAllocated(rs);
      label before:
      min, roots, size := m, rs, n;
      HeapStateFrame@before(min, size, roots);
    }

    /**
     * `delete_min`: on an empty heap nothing changes and nothing is returned.
     * Otherwise the least key is returned and its cell leaves the heap; when
     * the root list had other roots, the remaining trees are merged until
     * their degrees are pairwise distinct.
     */
    method DeleteMin() returns (r: Option<int>)
      requires Valid()
      modifies this, NodesF(roots)
      ensures Valid()
      ensures old(min) == null ==> r == None && roots == old(roots) && size == old(size)
      ensures old(min) != null ==>
        && r.Some? && r.value in old(Contents()) && (forall x | x in old(Contents()) :: r.value <= x)
        && Contents() == old(Contents()) - multiset{r.value} && size == old(size) - 1
        && NodesF(roots) == NodesF(old(roots)) - {old(min)}
      ensures old(size) > 0 && |old(roots)| > 1 ==> DegreesApart(roots, ILog2(old(size)) + 1)
      ensures old(min) != null && |old(roots)| == 1 ==> min == old(min.child) && roots == old(roots)[0].kids
    {
      if min == null {
        r := None;
      } else {
        var k := DeleteRoot();
        r := Some(k);
      }
    }

    /** The non-empty branch of `delete_min`: the least key leaves with its cell and the rest is consolidated. */
    method DeleteRoot() returns (k: int)
      requires Valid() && min != null
      modifies this, NodesF(roots)
      ensures Valid()
      ensures k in old(Contents()) && (forall x | x in old(Contents()) :: k <= x)
      ensures Contents() == old(Contents()) - multiset{k} && size == old(size) - 1
      ensures |old(roots)| > 1 ==> DegreesApart(roots, ILog2(old(size)) + 1)
      ensures |old(roots)| == 1 ==> min == old(min.child) && roots == old(roots)[0].kids
      ensures NodesF(roots) == NodesF(old(roots)) - {old(min)}
    {
      LeastKey(roots);
      k := min.key;
      var m;
      ghost var rs;
      m, rs := RemoveMin(min, size, roots);
      Install(m, size - 1, rs);
      TakeOut(old(Contents()), Contents(), k);
    }
  }
}

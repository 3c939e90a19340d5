/**
 * The doubly linked list of `src/heap/cycliclist.rs`. Cells are linked forward
 * by `next` (empty after the tail) and backward by `prev` (empty before the
 * head); the list keeps `head`, `tail` and `size`, and reads the cells as a
 * cycle: the successor of the tail is the head and the predecessor of the
 * head is the tail. The ghost `cells` lists the cells from the head.
 */
module CyclicList {

  // Positions in a cycle of `n` cells

  /** The position after `i`, wrapping from the last to the first. */
  function Succ(i: nat, n: nat): (j: nat)
    requires i < n
    ensures j < n && (j == 0 <==> i == n - 1)
  {
    if i + 1 < n then i + 1 else 0
  }

  /** The position before `i`, wrapping from the first to the last. */
  function Pred(i: nat, n: nat): (j: nat)
    requires i < n
    ensures j < n && (j == n - 1 <==> i == 0)
  {
    if i > 0 then i - 1 else n - 1
  }

  /** Stepping forward then back, or back then forward, returns to the same position. */
  lemma {:induction false} SuccPred(i: nat, n: nat)
    requires i < n
    ensures Pred(Succ(i, n), n) == i && Succ(Pred(i, n), n) == i
  {
    if i + 1 < n {
      assert Succ(i, n) == i + 1;
    } else {
      assert Succ(i, n) == 0;
    }
  }

  // Sequence edits the list operations perform

  /** `x` placed right after position `i`. */
  function InsertedAfter<U>(s: seq<U>, i: nat, x: U): (r: seq<U>)
    requires i < |s|
    ensures |r| == |s| + 1 && r[i + 1] == x
    ensures forall j {:trigger r[j]} | 0 <= j <= i :: r[j] == s[j]
    ensures forall j | i + 1 < j < |r| :: r[j] == s[j - 1]
    ensures r[0] == s[0] && r[|r| - 1] == (if i + 1 == |s| then x else s[|s| - 1])
  {
    s[..i + 1] + [x] + s[i + 1..]
  }

  /** `x` placed right before position `i`. */
  function InsertedBefore<U>(s: seq<U>, i: nat, x: U): (r: seq<U>)
    requires i < |s|
    ensures |r| == |s| + 1 && r[i] == x
    ensures forall j {:trigger r[j]} | 0 <= j < i :: r[j] == s[j]
    ensures forall j | i < j < |r| :: r[j] == s[j - 1]
    ensures r[0] == (if i == 0 then x else s[0]) && r[|r| - 1] == s[|s| - 1]
  {
    s[..i] + [x] + s[i..]
  }

  /** The element at position `i` taken out. */
  function Removed<U>(s: seq<U>, i: nat): (r: seq<U>)
    requires i < |s|
    ensures |r| == |s| - 1
    ensures forall j {:trigger r[j]} | 0 <= j < i :: r[j] == s[j]
    ensures forall j | i <= j < |r| :: r[j] == s[j + 1]
    ensures |s| > 1 ==> r[0] == (if i == 0 then s[1] else s[0])
    ensures |s| > 1 ==> r[|r| - 1] == (if i == |s| - 1 then s[|s| - 2] else s[|s| - 1])
  {
    s[..i] + s[i + 1..]
  }

  /** Taking out what was inserted gives back the list: the other elements keep their order. */
  lemma {:induction false} RemoveInserted<U>(s: seq<U>, i: nat, x: U)
    requires i < |s|
    ensures Removed(InsertedAfter(s, i, x), i + 1) == s
    ensures Removed(InsertedBefore(s, i, x), i) == s
  {
    var a, b := Removed(InsertedAfter(s, i, x), i + 1), Removed(InsertedBefore(s, i, x), i);
    assert forall j | 0 <= j < |s| :: a[j] == s[j];
    assert forall j | 0 <= j < |s| :: b[j] == s[j];
  }

  /** An insertion adds one occurrence of the new element and keeps the others. */
  lemma {:induction false} InsertedMultiset<U>(s: seq<U>, i: nat, x: U)
    requires i < |s|
    ensures multiset(InsertedAfter(s, i, x)) == multiset(s) + multiset{x}
    ensures multiset(InsertedBefore(s, i, x)) == multiset(s) + multiset{x}
  {
    assert s == s[..i + 1] + s[i + 1..];
    assert s == s[..i] + s[i..];
  }

  // Cells

  /** A cell: a key and links to its neighbours. */
  class Cell<T> {
    const key: T
    var prev: Cell?<T>
    var next: Cell?<T>

    constructor (key: T, prev: Cell?<T>, next: Cell?<T>)
      ensures this.key == key && this.prev == prev && this.next == next
    {
      this.key := key;
      this.prev := prev;
      this.next := next;
    }
  }

  /** The keys of the cells, in order. */
  function Keys<T>(cs: seq<Cell<T>>): (ks: seq<T>)
    ensures |ks| == |cs| && forall i | 0 <= i < |cs| :: ks[i] == cs[i].key
  {
    if cs == [] then [] else Keys(cs[..|cs| - 1]) + [cs[|cs| - 1].key]
  }

  /** The keys follow the cells when a cell is placed after position `i`. */
  lemma {:induction false} KeysAfter<T>(cs: seq<Cell<T>>, i: nat, c: Cell<T>)
    requires i < |cs|
    ensures Keys(InsertedAfter(cs, i, c)) == InsertedAfter(Keys(cs), i, c.key)
  {
    var a, a' := Keys(InsertedAfter(cs, i, c)), InsertedAfter(Keys(cs), i, c.key);
    assert forall j | 0 <= j < |a| :: a[j] == a'[j];
  }

  /** The keys follow the cells when a cell is placed before position `i`. */
  lemma {:induction false} KeysBefore<T>(cs: seq<Cell<T>>, i: nat, c: Cell<T>)
    requires i < |cs|
    ensures Keys(InsertedBefore(cs, i, c)) == InsertedBefore(Keys(cs), i, c.key)
  {
    var b, b' := Keys(InsertedBefore(cs, i, c)), InsertedBefore(Keys(cs), i, c.key);
    assert forall j | 0 <= j < |b| :: b[j] == b'[j];
  }

  /** The keys follow the cells when the cell at position `i` is removed. */
  lemma {:induction false} KeysRemoved<T>(cs: seq<Cell<T>>, i: nat)
    requires i < |cs|
    ensures Keys(Removed(cs, i)) == Removed(Keys(cs), i)
  {
    var d, d' := Keys(Removed(cs, i)), Removed(Keys(cs), i);
    assert forall j | 0 <= j < |d| :: d[j] == d'[j];
  }

  /** The cell after position `i`, none after the last. */
  function After<T>(cs: seq<Cell<T>>, i: nat): Cell?<T>
    requires i < |cs|
  {
    if i + 1 < |cs| then cs[i + 1] else null
  }

  /** The cell before position `i`, none before the first. */
  function Before<T>(cs: seq<Cell<T>>, i: nat): Cell?<T>
    requires i < |cs|
  {
    if i > 0 then cs[i - 1] else null
  }

  /** The cell at position `i` links to its neighbours in `cs`. */
  ghost predicate LinkedAt<T>(cs: seq<Cell<T>>, i: nat)
    requires i < |cs|
    reads cs[i]
  {
    cs[i].next == After(cs, i) && cs[i].prev == Before(cs, i)
  }

  /**
   * Distinct cells linked in order: each `next` is the following cell (none
   * after the last), each `prev` the preceding one (none before the first).
   */
  ghost predicate Linked<T>(cs: seq<Cell<T>>)
    reads set c | c in cs
  {
    && (forall i, j | 0 <= i < j < |cs| :: cs[i] != cs[j])
    && (forall i | 0 <= i < |cs| :: LinkedAt(cs, i))
  }

  /**
   * A list with cursors `head` and `tail` and count `size` over the linked
   * cells `cells`.
   */
  ghost predicate ListState<T>(head: Cell<T>, tail: Cell<T>, size: nat, cells: seq<Cell<T>>)
    reads set c | c in cells
  {
    && size == |cells| && size >= 1
    && head == cells[0] && tail == cells[size - 1]
    && Linked(cells)
  }

  /**
   * A fresh cell linked in right after position `i`, every other link as
   * before, leaves the longer sequence linked in order.
   */
  twostate lemma {:induction false} LinkedAfter<T>(cs: seq<Cell<T>>, new i: nat, new c: Cell<T>)
    requires i < |cs| && old(Linked(cs)) && !old(allocated(c))
    requires cs[i].next == c && c.prev == cs[i] && c.next == After(cs, i)
    requires i + 1 < |cs| ==> cs[i + 1].prev == c
    requires forall j | 0 <= j < |cs| && j != i :: cs[j].next == old(cs[j].next)
    requires forall j | 0 <= j < |cs| && j != i + 1 :: cs[j].prev == old(cs[j].prev)
    ensures Linked(InsertedAfter(cs, i, c))
    ensures var r := InsertedAfter(cs, i, c); ListState(r[0], r[|r| - 1], |r|, r)
  {
    var r := InsertedAfter(cs, i, c);
    forall j | 0 <= j < |r|
      ensures LinkedAt(r, j)
    {
      if j <= i {
        assert r[j] == cs[j] && old(LinkedAt(cs, j));
      } else if j > i + 1 {
        assert r[j] == cs[j - 1] && old(LinkedAt(cs, j - 1));
      }
    }
  }

  /**
   * A fresh cell linked in right before position `i`, every other link as
   * before, leaves the longer sequence linked in order.
   */
  twostate lemma {:induction false} LinkedBefore<T>(cs: seq<Cell<T>>, new i: nat, new c: Cell<T>)
    requires i < |cs| && old(Linked(cs)) && !old(allocated(c))
    requires cs[i].prev == c && c.next == cs[i] && c.prev == Before(cs, i)
    requires i > 0 ==> cs[i - 1].next == c
    requires forall j | 0 <= j < |cs| && j != i :: cs[j].prev == old(cs[j].prev)
    requires forall j | 0 <= j < |cs| && j != i - 1 :: cs[j].next == old(cs[j].next)
    ensures Linked(InsertedBefore(cs, i, c))
    ensures var r := InsertedBefore(cs, i, c); ListState(r[0], r[|r| - 1], |r|, r)
  {
    var r := InsertedBefore(cs, i, c);
    forall j | 0 <= j < |r|
      ensures LinkedAt(r, j)
    {
      if j < i {
        assert r[j] == cs[j] && old(LinkedAt(cs, j));
      } else if j > i {
        assert r[j] == cs[j - 1] && old(LinkedAt(cs, j - 1));
      }
    }
  }

  /**
   * The cell at position `i` bypassed, its neighbours linked to each other
   * and every other link as before, leaves the shorter sequence linked in
   * order.
   */
  twostate lemma {:induction false} LinkedRemoved<T>(cs: seq<Cell<T>>, new i: nat)
    requires i < |cs| && old(Linked(cs))
    requires i > 0 ==> cs[i - 1].next == After(cs, i)
    requires i + 1 < |cs| ==> cs[i + 1].prev == Before(cs, i)
    requires forall j | 0 <= j < |cs| && j != i && j != i - 1 :: cs[j].next == old(cs[j].next)
    requires forall j | 0 <= j < |cs| && j != i && j != i + 1 :: cs[j].prev == old(cs[j].prev)
    ensures Linked(Removed(cs, i))
    ensures var r := Removed(cs, i); |r| > 0 ==> ListState(r[0], r[|r| - 1], |r|, r)
  {
    var r := Removed(cs, i);
    forall j | 0 <= j < |r|
      ensures LinkedAt(r, j)
    {
      if j < i {
        assert r[j] == cs[j] && old(LinkedAt(cs, j));
      } else {
        assert r[j] == cs[j + 1] && old(LinkedAt(cs, j + 1));
      }
    }
  }

  /** `CyclicList<T>`: the head and tail cursors and the number of cells. */
  class CyclicList<T> {
    var head: Cell<T>
    var tail: Cell<T>
    var size: nat
    ghost var cells: seq<Cell<T>>

    /** The cells are linked in order from `head` to `tail`, and `size` counts them. */
    ghost predicate Valid()
      reads this, set c | c in cells
    {
      ListState(head, tail, size, cells)
    }

    /** The keys held, from the head. */
    ghost function Contents(): seq<T>
      reads this
    {
      Keys(cells)
    }

    /** `new`: one cell, both head and tail. */
    constructor (key: T)
      ensures Valid() && cells == [head] && fresh(head) && Contents() == [key]
    {
      var c := new Cell(key, null, null);
      head, tail, size := c, c, 1;
      cells := [c];
    }

    /** `len`: the number of cells. */
    method Len() returns (n: nat)
      requires Valid()
      ensures n == |Contents()|
    {
      n := size;
    }

    /** `take_one`: a cursor on the head. */
    method TakeOne() returns (c: Cell<T>)
      requires Valid()
      ensures c == cells[0]
    {
      c := head;
    }

    /** `next`: the following cell, or the head after the tail. */
    method Next(c: Cell<T>, ghost i: nat) returns (d: Cell<T>)
      requires Valid() && i < |cells| && cells[i] == c
      ensures d == cells[Succ(i, |cells|)]
    {
      assert LinkedAt(cells, i);
      if c.next != null {
        d := c.next;
      } else {
        d := head;
      }
    }

    /** `prev`: the preceding cell, or the tail before the head. */
    method Prev(c: Cell<T>, ghost i: nat) returns (d: Cell<T>)
      requires Valid() && i < |cells| && cells[i] == c
      ensures d == cells[Pred(i, |cells|)]
    {
      assert LinkedAt(cells, i);
      if c.prev != null {
        d := c.prev;
      } else {
        d := tail;
      }
    }

    /**
     * `insert_next`: a new cell right after `pos`; after the tail it becomes
     * the tail. The new cell is returned.
     */
    method InsertNext(pos: Cell<T>, ghost i: nat, key: T) returns (c: Cell<T>)
      requires Valid() && i < |cells| && cells[i] == pos
      modifies this, pos`next, {pos.next}`prev
      ensures Valid() && fresh(c) && c.key == key
      ensures cells == InsertedAfter(old(cells), i, c) && Contents() == InsertedAfter(old(Contents()), i, key)
      ensures size == old(size) + 1 && head == old(head)
      ensures tail == if i == old(size) - 1 then c else old(tail)
    {
      if pos == tail {
        assert cells[i] == cells[size - 1];
        c := PushTail(i, key);
      } else {
        assert LinkedAt(cells, i);
        c := LinkAfter(pos, i, key);
      }
      KeysAfter(old(cells), i, c);
    }

    /** The tail branch of `insert_next`: the new cell becomes the tail. */
    method PushTail(ghost i: nat, key: T) returns (c: Cell<T>)
      requires Valid() && i == |cells| - 1
      modifies this, tail`next
      ensures Valid() && fresh(c) && c.key == key
      ensures cells == InsertedAfter(old(cells), i, c)
      ensures size == old(size) + 1 && head == old(head) && tail == c
    {
      ghost var cs := cells;
      label before:
      c := new Cell(key, tail, null);
      tail.next := c;
      tail, size, cells := c, size + 1, InsertedAfter(cs, i, c);
      LinkedAfter@before(cs, i, c);
    }

    /** The other branch of `insert_next`: the new cell goes between `pos` and its successor. */
    method LinkAfter(pos: Cell<T>, ghost i: nat, key: T) returns (c: Cell<T>)
      requires Valid() && i + 1 < |cells| && cells[i] == pos
      modifies this, pos`next, {pos.next}`prev
      ensures Valid() && fresh(c) && c.key == key
      ensures cells == InsertedAfter(old(cells), i, c)
      ensures size == old(size) + 1 && head == old(head) && tail == old(tail)
    {
      ghost var cs := cells;
      assert LinkedAt(cs, i);
      var after := pos.next;
      label before:
      c := new Cell(key, pos, after);
      pos.next := c;
      after.prev := c;
      size, cells := size + 1, InsertedAfter(cs, i, c);
      LinkedAfter@before(cs, i, c);
    }

    /**
     * `insert_prev`: a new cell right before `pos`; before the head it becomes
     * the head. The new cell is returned.
     */
    method InsertPrev(pos: Cell<T>, ghost i: nat, key: T) returns (c: Cell<T>)
      requires Valid() && i < |cells| && cells[i] == pos
      modifies this, pos`prev, {pos.prev}`next
      ensures Valid() && fresh(c) && c.key == key
      ensures cells == InsertedBefore(old(cells), i, c) && Contents() == InsertedBefore(old(Contents()), i, key)
      ensures size == old(size) + 1 && tail == old(tail)
      ensures head == if i == 0 then c else old(head)
    {
      if pos == head {
        assert cells[i] == cells[0];
        c := PushHead(i, key);
      } else {
        assert LinkedAt(cells, i);
        c := LinkBefore(pos, i, key);
      }
      KeysBefore(old(cells), i, c);
    }

    /** The head branch of `insert_prev`: the new cell becomes the head. */
    method PushHead(ghost i: nat, key: T) returns (c: Cell<T>)
      requires Valid() && i == 0
      modifies this, head`prev
      ensures Valid() && fresh(c) && c.key == key
      ensures cells == InsertedBefore(old(cells), i, c)
      ensures size == old(size) + 1 && tail == old(tail) && head == c
    {
      ghost var cs := cells;
      label before:
      c := new Cell(key, null, head);
      head.prev := c;
      head, size, cells := c, size + 1, InsertedBefore(cs, i, c);
      LinkedBefore@before(cs, i, c);
    }

    /** The other branch of `insert_prev`: the new cell goes between `pos` and its predecessor. */
    method LinkBefore(pos: Cell<T>, ghost i: nat, key: T) returns (c: Cell<T>)
      requires Valid() && 0 < i < |cells| && cells[i] == pos
      modifies this, pos`prev, {pos.prev}`next
      ensures Valid() && fresh(c) && c.key == key
      ensures cells == InsertedBefore(old(cells), i, c)
      ensures size == old(size) + 1 && head == old(head) && tail == old(tail)
    {
      ghost var cs := cells;
      assert LinkedAt(cs, i);
      var before := pos.prev;
      label before:
      c := new Cell(key, before, pos);
      before.next := c;
      pos.prev := c;
      size, cells := size + 1, InsertedBefore(cs, i, c);
      LinkedBefore@before(cs, i, c);
    }

    /**
     * `delete`: a one-cell list is left as it is and `pos` is returned.
     * Otherwise `pos` is unlinked and the cell now in its place, read
     * cyclically, is returned: the new head for the head, the head for the
     * tail, the successor otherwise.
     */
    method Delete(pos: Cell<T>, ghost i: nat) returns (r: Cell<T>)
      requires Valid() && i < |cells| && cells[i] == pos
      modifies this, (set c | c in cells)`next, (set c | c in cells)`prev
      ensures Valid()
      ensures old(size) == 1 ==> r == pos && cells == old(cells)
      ensures old(size) > 1 ==>
        && cells == Removed(old(cells), i) && Contents() == Removed(old(Contents()), i)
        && size == old(size) - 1 && pos.next == null && pos.prev == null
        && r == cells[if i < |cells| then i else 0]
        && r == (if i == 0 || i == old(size) - 1 then head else old(cells)[i + 1])
    {
      if size == 1 {
        r := pos;
      } else if head == pos {
        assert cells[i] == cells[0];
        r := UnlinkHead(i);
      } else if tail == pos {
        assert cells[i] == cells[size - 1];
        r := UnlinkTail(i);
      } else {
        assert LinkedAt(cells, i);
        r := UnlinkMiddle(pos, i);
      }
      KeysRemoved(old(cells), i);
    }

    /** The head branch of `delete`: the successor of the head becomes the head. */
    method UnlinkHead(ghost i: nat) returns (r: Cell<T>)
      requires Valid() && i == 0 && |cells| > 1
      modifies this, head`next, {cells[1]}`prev
      ensures Valid()
      ensures cells == Removed(old(cells), i)
      ensures size == old(size) - 1 && old(head).next == null && old(head).prev == null
      ensures r == head
    {
      ghost var cs := cells;
      assert LinkedAt(cs, i);
      label before:
      var h := head.next;
      head.next := null;
      h.prev := null;
      head, size, cells := h, size - 1, Removed(cs, i);
      LinkedRemoved@before(cs, i);
      r := h;
    }

    /** The tail branch of `delete`: the predecessor of the tail becomes the tail. */
    method UnlinkTail(ghost i: nat) returns (r: Cell<T>)
      requires Valid() && i == |cells| - 1 && |cells| > 1
      modifies this, tail`prev, {cells[i - 1]}`next
      ensures Valid()
      ensures cells == Removed(old(cells), i)
      ensures size == old(size) - 1 && old(tail).next == null && old(tail).prev == null
      ensures r == head
    {
      ghost var cs := cells;
      assert LinkedAt(cs, i);
      label before:
      var t := tail.prev;
      tail.prev := null;
      t.next := null;
      tail, size, cells := t, size - 1, Removed(cs, i);
      LinkedRemoved@before(cs, i);
      r := head;
    }

    /** The middle branch of `delete`: the neighbours of `pos` are joined. */
    method UnlinkMiddle(pos: Cell<T>, ghost i: nat) returns (r: Cell<T>)
      requires Valid() && 0 < i < |cells| - 1 && cells[i] == pos
      modifies this, pos`next, pos`prev, {pos.prev}`next, {pos.next}`prev
      ensures Valid()
      ensures cells == Removed(old(cells), i)
      ensures size == old(size) - 1 && pos.next == null && pos.prev == null
      ensures r == old(cells)[i + 1] && r == cells[i]
    {
      ghost var cs := cells;
      label before:
      var after := pos.next;
      var before := pos.prev;
      assert LinkedAt(cs, i);
      pos.next := null;
      pos.prev := null;
      before.next := after;
      after.prev := before;
      size, cells := size - 1, Removed(cs, i);
      LinkedRemoved@before(cs, i);
      r := after;
    }

    /**
     * The `Debug` rendering: `size` keys, read by `next` from the head. The
     * formatter's text around them is not modelled.
     */
    method Render() returns (keys: seq<T>)
      requires Valid()
      ensures keys == Contents() && |keys| == size
    {
      keys := [];
      var node := head;
      for k := 0 to size
        invariant k < size ==> node == cells[k]
        invariant keys == Keys(cells[..k])
      {
        assert cells[..k + 1] == cells[..k] + [cells[k]];
        keys := keys + [node.key];
        node := Next(node, k);
      }
      assert cells[..size] == cells;
    }
  }
}

// Tail queues: every element points back at the link cell that points at it.
module TailQueue {
  // The address of a link cell: the first field of a head, or the next field of an
  // element.
  datatype Cell = HeadCell(head: Queue) | NextCell(elem: Element)

  class Element {
    var next: Element?
    var prev: Cell

    constructor (anywhere: Cell) {
      next := null;
      prev := anywhere;
    }
  }

  // The word a cell holds.
  function Load(c: Cell): Element?
    reads if c.HeadCell? then {c.head as object} else {c.elem}
  {
    match c
    case HeadCell(h) => h.first
    case NextCell(e) => e.next
  }

  // The word behind a cell. Heads and elements lay out a forward link and then a
  // back link, so this reads last from a head and prev from an element.
  function LoadNext(c: Cell): Cell
    reads if c.HeadCell? then {c.head as object} else {c.elem}
  {
    match c
    case HeadCell(h) => h.last
    case NextCell(e) => e.prev
  }

  method Store(c: Cell, v: Element?)
    modifies if c.HeadCell? then {c.head as object} else {c.elem}
    ensures c.HeadCell? ==> c.head.first == v && c.head.last == old(c.head.last) && c.head.s == old(c.head.s)
    ensures c.NextCell? ==> c.elem.next == v && c.elem.prev == old(c.elem.prev)
  {
    match c
    case HeadCell(h) => h.first := v;
    case NextCell(e) => e.next := v;
  }

  ghost predicate Distinct(t: seq<Element>) {
    forall i, j | 0 <= i < j < |t| :: t[i] != t[j]
  }

  lemma DistinctConcat(t: seq<Element>, u: seq<Element>)
    requires Distinct(t) && Distinct(u) && forall e | e in t :: e !in u
    ensures Distinct(t + u)
    ensures forall i, j | 0 <= i < |t| && 0 <= j < |u| :: t[i] != u[j]
  {
    forall i, j | 0 <= i < |t| && 0 <= j < |u|
      ensures t[i] != u[j]
    {
      assert t[i] in t;
    }
  }

  lemma DistinctWithout(t: seq<Element>, k: int)
    requires Distinct(t) && 0 <= k < |t|
    ensures var u := t[..k] + t[k + 1..]; Distinct(u) && |u| == |t| - 1
    ensures var u := t[..k] + t[k + 1..];
      forall i | 0 <= i < |u| :: u[i] == t[if i < k then i else i + 1] && u[i] != t[k]
  {
  }

  class Queue {
    var first: Element?
    var last: Cell
    ghost var s: seq<Element>

    ghost function At(t: seq<Element>, i: int): Element? {
      if 0 <= i < |t| then t[i] else null
    }

    // The cell that holds the link to index i.
    ghost function CellOf(t: seq<Element>, i: int): Cell {
      if 0 < i <= |t| then NextCell(t[i - 1]) else HeadCell(this)
    }

    ghost predicate Linked(t: seq<Element>)
      reads this, t
    {
      && first == At(t, 0) && last == CellOf(t, |t|)
      && (forall i {:trigger Joined(t, i)} | 0 <= i < |t| :: Joined(t, i))
      && Distinct(t)
    }

    // Both links of the element at index i.
    ghost predicate Joined(t: seq<Element>, i: int)
      requires 0 <= i < |t|
      reads t
    {
      t[i].next == At(t, i + 1) && t[i].prev == CellOf(t, i)
    }

    ghost predicate Valid()
      reads this, s
    {
      Linked(s)
    }

    // TAILQ_INIT
    constructor ()
      ensures Valid() && s == []
    {
      first := null;
      s := [];
      last := HeadCell(this);
    }

    // TAILQ_INSERT_HEAD
    method InsertHead(elm: Element)
      requires Valid() && elm !in s
      modifies this, s, elm
      ensures Valid() && s == [elm] + old(s)
    {
      ghost var t := s;
      assert t != [] ==> Joined(t, 0);
      elm.next := first;
      if elm.next != null {
        first.prev := NextCell(elm);
      } else {
        last := NextCell(elm);
      }
      first := elm;
      elm.prev := HeadCell(this);
      s := [elm] + s;
      forall i {:trigger Joined(s, i)} | 0 <= i < |s|
        ensures Joined(s, i)
      {
        assert i > 0 ==> old(Joined(t, i - 1));
      }
    }

    // TAILQ_INSERT_TAIL
    method InsertTail(elm: Element)
      requires Valid() && elm !in s
      modifies this, s, elm
      ensures Valid() && s == old(s) + [elm]
    {
      ghost var t := s;
      elm.next := null;
      elm.prev := last;
      Store(last, elm);
      last := NextCell(elm);
      s := s + [elm];
      forall i {:trigger Joined(s, i)} | 0 <= i < |s|
        ensures Joined(s, i)
      {
        assert i < |t| ==> old(Joined(t, i));
      }
    }

    // TAILQ_INSERT_AFTER
    method InsertAfter(listelm: Element, elm: Element, ghost k: int)
      requires Valid() && elm !in s && 0 <= k < |s| && s[k] == listelm
      modifies this, s, elm
      ensures Valid() && s == old(s)[..k + 1] + [elm] + old(s)[k + 1..]
    {
      ghost var t := s;
      assert Joined(t, k) && (k + 1 < |t| ==> Joined(t, k + 1));
      elm.next := listelm.next;
      if elm.next != null {
        elm.next.prev := NextCell(elm);
      } else {
        last := NextCell(elm);
      }
      listelm.next := elm;
      elm.prev := NextCell(listelm);
      s := s[..k + 1] + [elm] + s[k + 1..];
      forall i {:trigger Joined(s, i)} | 0 <= i < |s|
        ensures Joined(s, i)
      {
        if i <= k {
          assert old(Joined(t, i)) && s[i] == t[i] && CellOf(s, i) == CellOf(t, i);
        } else if i > k + 1 {
          assert old(Joined(t, i - 1)) && s[i] == t[i - 1];
          assert i > k + 2 ==> CellOf(s, i) == CellOf(t, i - 1);
        }
      }
    }

    // TAILQ_REMOVE
    method Remove(elm: Element, ghost k: int)
      requires Valid() && 0 <= k < |s| && s[k] == elm
      modifies this, s
      ensures Valid() && s == old(s)[..k] + old(s)[k + 1..]
    {
      ghost var t := s;
      DistinctWithout(t, k);
      assert Joined(t, k) && (k + 1 < |t| ==> Joined(t, k + 1)) && (k > 0 ==> Joined(t, k - 1));
      if elm.next != null {
        elm.next.prev := elm.prev;
      } else {
        last := elm.prev;
      }
      Store(elm.prev, elm.next);
      s := s[..k] + s[k + 1..];
      forall i {:trigger Joined(s, i)} | 0 <= i < |s|
        ensures Joined(s, i)
      {
        if i < k {
          assert old(Joined(t, i)) && CellOf(s, i) == CellOf(t, i);
        } else {
          assert old(Joined(t, i + 1));
          assert i > k ==> CellOf(s, i) == CellOf(t, i + 1);
        }
      }
      assert k + 1 < |t| ==> CellOf(s, |s|) == CellOf(t, |t|);
    }

    // TAILQ_INSERT_BEFORE. The code sees the two elements only; the head is reached,
    // if at all, through the back link.
    static method InsertBefore(listelm: Element, elm: Element, ghost q: Queue, ghost k: int)
      requires q.Valid() && elm !in q.s && 0 <= k < |q.s| && q.s[k] == listelm
      modifies q, q.s, elm
      ensures q.Valid() && q.s == old(q.s)[..k] + [elm] + old(q.s)[k..]
    {
      ghost var t := q.s;
      assert q.Joined(t, k) && (k > 0 ==> q.Joined(t, k - 1));
      elm.prev := listelm.prev;
      elm.next := listelm;
      Store(listelm.prev, elm);
      listelm.prev := NextCell(elm);
      q.s := t[..k] + [elm] + t[k..];
      forall i {:trigger q.Joined(q.s, i)} | 0 <= i < |q.s|
        ensures q.Joined(q.s, i)
      {
        if i < k {
          assert old(q.Joined(t, i)) && q.s[i] == t[i] && q.CellOf(q.s, i) == q.CellOf(t, i);
        } else if i > k {
          assert old(q.Joined(t, i - 1)) && q.s[i] == t[i - 1];
          assert i > k + 1 ==> q.CellOf(q.s, i) == q.CellOf(t, i - 1);
        }
      }
      assert q.CellOf(q.s, |q.s|) == q.CellOf(t, |t|) && q.first == q.At(q.s, 0);
    }

    // TAILQ_REPLACE
    method Replace(elm: Element, elm2: Element, ghost k: int)
      requires Valid() && elm2 !in s && 0 <= k < |s| && s[k] == elm
      modifies this, s, elm2
      ensures Valid() && s == old(s)[k := elm2]
    {
      ghost var t := s;
      assert Joined(t, k) && (k + 1 < |t| ==> Joined(t, k + 1)) && (k > 0 ==> Joined(t, k - 1));
      elm2.next := elm.next;
      if elm2.next != null {
        elm2.next.prev := NextCell(elm2);
      } else {
        last := NextCell(elm2);
      }
      elm2.prev := elm.prev;
      Store(elm2.prev, elm2);
      s := s[k := elm2];
      forall i {:trigger Joined(s, i)} | 0 <= i < |s|
        ensures Joined(s, i)
      {
        assert i != k ==> old(Joined(t, i));
      }
    }

    // TAILQ_CONCAT
    method Concat(head2: Queue)
      requires Valid() && head2.Valid() && head2 != this && forall e | e in s :: e !in head2.s
      modifies this, s, head2, head2.s
      ensures Valid() && s == old(s) + old(head2.s)
      ensures head2.Valid() && head2.s == []
    {
      ghost var t, u := s, head2.s;
      DistinctConcat(t, u);
      assert t != [] ==> Joined(t, |t| - 1);
      if head2.first != null {
        assert u != [] && head2.Joined(u, 0);
        Store(last, head2.first);
        head2.first.prev := last;
        last := head2.last;
        head2.first := null;
        head2.last := HeadCell(head2);
        s := t + u;
        head2.s := [];
        forall i {:trigger Joined(s, i)} | 0 <= i < |s|
          ensures Joined(s, i)
        {
          if i < |t| {
            assert old(Joined(t, i));
          } else {
            assert old(head2.Joined(u, i - |t|));
            assert s[i] == u[i - |t|];
          }
        }
      } else {
        assert u == [];
        assert t + u == t;
      }
    }

    // TAILQ_FIRST and TAILQ_NEXT
    function First(): (r: Element?)
      requires Valid()
      reads this, s
      ensures r == At(s, 0)
    {
      first
    }

    function Next(elm: Element, ghost k: int): (r: Element?)
      requires Valid() && 0 <= k < |s| && s[k] == elm
      reads this, s
      ensures r == At(s, k + 1)
    {
      assert Joined(s, k);
      elm.next
    }

    // TAILQ_LAST: the tail cell read as if it were a head. The second word there
    // names the cell that points at the last element.
    function Last(): (r: Element?)
      requires Valid()
      reads this, s
      ensures r == At(s, |s| - 1)
    {
      assert s != [] ==> Joined(s, |s| - 1);
      assert |s| > 1 ==> Joined(s, |s| - 2);
      Load(LoadNext(last))
    }

    // TAILQ_PREV, by the same reading of the back link
    function Prev(elm: Element, ghost k: int): (r: Element?)
      requires Valid() && 0 <= k < |s| && s[k] == elm
      reads this, s
      ensures r == At(s, k - 1)
    {
      assert Joined(s, k);
      assert k > 0 ==> Joined(s, k - 1);
      assert k > 1 ==> Joined(s, k - 2);
      assert Joined(s, |s| - 1);
      Load(LoadNext(elm.prev))
    }

    // TAILQ_FOREACH
    method ForEach() returns (visited: seq<Element>)
      requires Valid()
      ensures visited == s
    {
      visited := [];
      var x := First();
      while x != null
        invariant |visited| <= |s| && visited == s[..|visited|] && x == At(s, |visited|)
        decreases |s| - |visited|
      {
        var y := Next(x, |visited|);
        visited := visited + [x];
        x := y;
      }
    }

    // TAILQ_FOREACH_REVERSE
    method ForEachReverse() returns (visited: seq<Element>)
      requires Valid()
      ensures |visited| == |s| && forall i | 0 <= i < |s| :: visited[i] == s[|s| - 1 - i]
    {
      visited := [];
      var x := Last();
      while x != null
        invariant |visited| <= |s| && x == At(s, |s| - 1 - |visited|)
        invariant forall i | 0 <= i < |visited| :: visited[i] == s[|s| - 1 - i]
        decreases |s| - |visited|
      {
        var y := Prev(x, |s| - 1 - |visited|);
        visited := visited + [x];
        x := y;
      }
    }
  }
}

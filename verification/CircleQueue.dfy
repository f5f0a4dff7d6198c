/**
  The circular queue of inc/list.h: a doubly linked ring in which the head itself is
  the sentinel, so that a link may point to the head.
 */
module CircleQueue {
  import opened Seqs

  datatype Ptr = ToHead(h: Ring) | ToElem(n: Entry)

  /** CIRCLEQ_ENTRY */
  class Entry {
    var next: Ptr
    var prev: Ptr

    constructor () {
      next, prev := ToElem(this), ToElem(this);
    }
  }

  /** CIRCLEQ_HEAD */
  class Ring {
    var first: Ptr
    var last: Ptr
    ghost var elems: seq<Entry>

    /** The ring position `i`; the head stands before the first and after the last. */
    ghost function At(i: int): Ptr
      reads this
    {
      PtrAt(elems, i)
    }

    ghost function PtrAt(s: seq<Entry>, i: int): Ptr {
      if 0 <= i < |s| then ToElem(s[i]) else ToHead(this)
    }

    ghost predicate Valid()
      reads this, elems
    {
      && (forall i, j :: 0 <= i < j < |elems| ==> elems[i] != elems[j])
      && first == At(0) && last == At(|elems| - 1)
      && (forall i {:trigger elems[i].next} :: 0 <= i < |elems| ==> elems[i].next == At(i + 1))
      && (forall i {:trigger elems[i].prev} :: 0 <= i < |elems| ==> elems[i].prev == At(i - 1))
    }

    ghost function Next(p: Ptr): Ptr
      requires p == ToHead(this) || (p.ToElem? && p.n in elems)
      reads this, elems
    {
      if p.ToHead? then first else p.n.next
    }

    ghost function Prev(p: Ptr): Ptr
      requires p == ToHead(this) || (p.ToElem? && p.n in elems)
      reads this, elems
    {
      if p.ToHead? then last else p.n.prev
    }

    /** Following next and then prev, or prev and then next, comes back, also through
        the head. */
    lemma MutualInverse(p: Ptr)
      requires Valid() && (p == ToHead(this) || (p.ToElem? && p.n in elems))
      ensures Next(p) == ToHead(this) || (Next(p).ToElem? && Next(p).n in elems)
      ensures Prev(p) == ToHead(this) || (Prev(p).ToElem? && Prev(p).n in elems)
      ensures Prev(Next(p)) == p && Next(Prev(p)) == p
    {
      if p.ToElem? {
        var i :| 0 <= i < |elems| && elems[i] == p.n;
        assert elems[i].next == At(i + 1) && elems[i].prev == At(i - 1);
        assert i + 1 < |elems| ==> elems[i + 1].prev == At(i);
        assert i > 0 ==> elems[i - 1].next == At(i);
      } else if |elems| > 0 {
        assert elems[0].prev == At(-1) && elems[|elems| - 1].next == At(|elems|);
      }
    }

    lemma RelinkedNext(s: seq<Entry>, i: nat, elm: Entry)
      requires i <= |s| && elems == Inserted(s, i, elm)
      requires elm.next == At(i + 1) && (i > 0 ==> s[i - 1].next == ToElem(elm))
      requires forall j {:trigger s[j].next} :: 0 <= j < |s| && j != i - 1 ==> s[j].next == PtrAt(s, j + 1)
      ensures forall j {:trigger elems[j].next} :: 0 <= j < |elems| ==> elems[j].next == At(j + 1)
    {
    }

    lemma RelinkedPrev(s: seq<Entry>, i: nat, elm: Entry)
      requires i <= |s| && elems == Inserted(s, i, elm)
      requires elm.prev == At(i - 1) && (i < |s| ==> s[i].prev == ToElem(elm))
      requires forall j {:trigger s[j].prev} :: 0 <= j < |s| && j != i ==> s[j].prev == PtrAt(s, j - 1)
      ensures forall j {:trigger elems[j].prev} :: 0 <= j < |elems| ==> elems[j].prev == At(j - 1)
    {
    }

    /** Links that show an insertion into a valid ring show a valid ring. */
    lemma Relinked(s: seq<Entry>, i: nat, elm: Entry)
      requires i <= |s| && elems == Inserted(s, i, elm) && elm !in s
      requires forall j, k :: 0 <= j < k < |s| ==> s[j] != s[k]
      requires first == At(0) && last == At(|elems| - 1)
      requires elm.next == At(i + 1) && elm.prev == At(i - 1)
      requires i > 0 ==> s[i - 1].next == ToElem(elm)
      requires i < |s| ==> s[i].prev == ToElem(elm)
      requires forall j {:trigger s[j].next} :: 0 <= j < |s| && j != i - 1 ==> s[j].next == PtrAt(s, j + 1)
      requires forall j {:trigger s[j].prev} :: 0 <= j < |s| && j != i ==> s[j].prev == PtrAt(s, j - 1)
      ensures Valid()
    {
      RelinkedNext(s, i, elm);
      RelinkedPrev(s, i, elm);
    }

    lemma UnlinkedNext(s: seq<Entry>, i: nat)
      requires i < |s| && elems == Removed(s, i)
      requires i > 0 ==> s[i - 1].next == PtrAt(s, i + 1)
      requires forall j {:trigger s[j].next} :: 0 <= j < |s| && j != i - 1 ==> s[j].next == PtrAt(s, j + 1)
      ensures forall j {:trigger elems[j].next} :: 0 <= j < |elems| ==> elems[j].next == At(j + 1)
    {
      RemovedIndex(s, i);
    }

    lemma UnlinkedPrev(s: seq<Entry>, i: nat)
      requires i < |s| && elems == Removed(s, i)
      requires i + 1 < |s| ==> s[i + 1].prev == PtrAt(s, i - 1)
      requires forall j {:trigger s[j].prev} :: 0 <= j < |s| && j != i + 1 ==> s[j].prev == PtrAt(s, j - 1)
      ensures forall j {:trigger elems[j].prev} :: 0 <= j < |elems| ==> elems[j].prev == At(j - 1)
    {
      RemovedIndex(s, i);
    }

    /** CIRCLEQ_INIT */
    constructor ()
      ensures Valid() && elems == []
    {
      first := ToHead(this);
      last := ToHead(this);
      elems := [];
    }

    /** CIRCLEQ_INSERT_AFTER */
    method InsertAfter(listelm: Entry, elm: Entry, ghost i: nat)
      requires Valid() && elm !in elems && i < |elems| && elems[i] == listelm
      modifies this, elems, elm
      ensures Valid() && elems == Inserted(old(elems), i + 1, elm)
    {
      elm.next := listelm.next;
      elm.prev := ToElem(listelm);
      if listelm.next == ToHead(this) {
        last := ToElem(elm);
      } else {
        listelm.next.n.prev := ToElem(elm);
      }
      listelm.next := ToElem(elm);
      ghost var s := elems;
      elems := Inserted(s, i + 1, elm);
      Relinked(s, i + 1, elm);
    }

    /** CIRCLEQ_INSERT_BEFORE */
    method InsertBefore(listelm: Entry, elm: Entry, ghost i: nat)
      requires Valid() && elm !in elems && i < |elems| && elems[i] == listelm
      modifies this, elems, elm
      ensures Valid() && elems == Inserted(old(elems), i, elm)
    {
      elm.next := ToElem(listelm);
      elm.prev := listelm.prev;
      if listelm.prev == ToHead(this) {
        first := ToElem(elm);
      } else {
        listelm.prev.n.next := ToElem(elm);
      }
      listelm.prev := ToElem(elm);
      ghost var s := elems;
      elems := Inserted(s, i, elm);
      Relinked(s, i, elm);
    }

    /** CIRCLEQ_INSERT_HEAD */
    method InsertHead(elm: Entry)
      requires Valid() && elm !in elems
      modifies this, elems, elm
      ensures Valid() && elems == Inserted(old(elems), 0, elm)
    {
      elm.next := first;
      elm.prev := ToHead(this);
      if last == ToHead(this) {
        last := ToElem(elm);
      } else {
        first.n.prev := ToElem(elm);
      }
      first := ToElem(elm);
      ghost var s := elems;
      elems := Inserted(s, 0, elm);
      Relinked(s, 0, elm);
    }

    /** CIRCLEQ_INSERT_TAIL */
    method InsertTail(elm: Entry)
      requires Valid() && elm !in elems
      modifies this, elems, elm
      ensures Valid() && elems == Inserted(old(elems), |old(elems)|, elm)
    {
      elm.next := ToHead(this);
      elm.prev := last;
      if first == ToHead(this) {
        first := ToElem(elm);
      } else {
        last.n.next := ToElem(elm);
      }
      last := ToElem(elm);
      elems := Inserted(elems, |elems|, elm);
    }

    /** CIRCLEQ_REMOVE */
    method Remove(elm: Entry, ghost i: nat)
      requires Valid() && i < |elems| && elems[i] == elm
      modifies this, elems
      ensures Valid() && elems == Removed(old(elems), i)
      ensures elm.next == old(elm.next) && elm.prev == old(elm.prev)
    {
      if elm.next == ToHead(this) {
        last := elm.prev;
      } else {
        elm.next.n.prev := elm.prev;
      }
      if elm.prev == ToHead(this) {
        first := elm.next;
      } else {
        elm.prev.n.next := elm.next;
      }
      ghost var s := elems;
      elems := Removed(s, i);
      RemovedIndex(s, i);
      UnlinkedNext(s, i);
      UnlinkedPrev(s, i);
    }

    /** CIRCLEQ_FOREACH */
    method ForEach() returns (visited: seq<Entry>)
      requires Valid()
      ensures visited == elems
    {
      visited := [];
      var x := first;
      while x != ToHead(this)
        invariant |visited| <= |elems| && visited == elems[..|visited|] && x == At(|visited|)
        decreases |elems| - |visited|
      {
        visited := visited + [x.n];
        x := x.n.next;
      }
    }

    /** CIRCLEQ_FOREACH_REVERSE yields the reverse of CIRCLEQ_FOREACH. */
    method ForEachReverse() returns (visited: seq<Entry>)
      requires Valid()
      ensures visited == Reversed(elems)
    {
      visited := [];
      var x := last;
      while x != ToHead(this)
        invariant |visited| <= |elems| && visited == Reversed(elems)[..|visited|]
        invariant x == At(|elems| - 1 - |visited|)
        decreases |elems| - |visited|
      {
        visited := visited + [x.n];
        x := x.n.prev;
      }
    }
  }
}

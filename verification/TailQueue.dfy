/**
  The tail queue of inc/list.h. A back pointer holds the address of the previous
  next field, which is either the head's first field or the next field of an entry.
 */
module TailQueue {
  import opened Seqs

  /** The address of a pointer to an entry. */
  datatype Slot = HeadSlot(h: Queue) | NextOf(n: Entry)

  /** TAILQ_ENTRY */
  class Entry {
    var next: Entry?
    var prev: Slot

    constructor () {
      next := null;
      prev := NextOf(this);
    }
  }

  function Owner(s: Slot): object {
    match s
    case HeadSlot(h) => h
    case NextOf(n) => n
  }

  /** What the slot points to. */
  function Star(s: Slot): Entry?
    reads Owner(s)
  {
    match s
    case HeadSlot(h) => h.first
    case NextOf(n) => n.next
  }

  /** The field behind the slot: an entry read as a head has its prev as tqh_last. */
  function AsHeadLast(s: Slot): Slot
    reads Owner(s)
  {
    match s
    case HeadSlot(h) => h.last
    case NextOf(n) => n.prev
  }

  method Store(s: Slot, v: Entry?)
    modifies match s case HeadSlot(h) => {h as object} case NextOf(n) => {n}
    ensures s.HeadSlot? ==> s.h.first == v && s.h.last == old(s.h.last) && s.h.elems == old(s.h.elems)
    ensures s.NextOf? ==> s.n.next == v && s.n.prev == old(s.n.prev)
  {
    match s
    case HeadSlot(h) => h.first := v;
    case NextOf(n) => n.next := v;
  }

  datatype Place = AtHead | AtTail | After(i: nat) | Before(i: nat)

  /** Where an insertion puts its element. */
  function Index(p: Place, n: nat): nat {
    match p
    case AtHead => 0
    case AtTail => n
    case After(i) => i + 1
    case Before(i) => i
  }

  /** TAILQ_HEAD */
  class Queue {
    var first: Entry?
    var last: Slot
    ghost var elems: seq<Entry>

    ghost function Nth(i: int): Entry?
      reads this
    {
      if 0 <= i < |elems| then elems[i] else null
    }

    /** The slot that points at position `i`. */
    ghost function SlotAt(i: nat): Slot
      requires i <= |elems|
      reads this
    {
      if i == 0 then HeadSlot(this) else NextOf(elems[i - 1])
    }

    /** Every link is determined by the sequence of elements. */
    ghost predicate Valid()
      reads this, elems
    {
      && (forall i, j :: 0 <= i < j < |elems| ==> elems[i] != elems[j])
      && first == Nth(0) && last == SlotAt(|elems|)
      && (forall i {:trigger elems[i].next} :: 0 <= i < |elems| ==> elems[i].next == Nth(i + 1))
      && (forall i {:trigger elems[i].prev} :: 0 <= i < |elems| ==> elems[i].prev == SlotAt(i))
    }

    lemma RelinkedNext(s: seq<Entry>, i: nat, elm: Entry)
      requires i <= |s| && elems == Inserted(s, i, elm)
      requires elm.next == Nth(i + 1) && (i > 0 ==> s[i - 1].next == elm)
      requires forall j {:trigger s[j].next} :: 0 <= j < |s| && j != i - 1 ==>
                 s[j].next == if j + 1 < |s| then s[j + 1] else null
      ensures forall j {:trigger elems[j].next} :: 0 <= j < |elems| ==> elems[j].next == Nth(j + 1)
    {
    }

    lemma RelinkedPrev(s: seq<Entry>, i: nat, elm: Entry)
      requires i <= |s| && elems == Inserted(s, i, elm)
      requires elm.prev == SlotAt(i) && (i < |s| ==> s[i].prev == NextOf(elm))
      requires forall j {:trigger s[j].prev} :: 0 <= j < |s| && j != i ==>
                 s[j].prev == if j == 0 then HeadSlot(this) else NextOf(s[j - 1])
      ensures forall j {:trigger elems[j].prev} :: 0 <= j < |elems| ==> elems[j].prev == SlotAt(j)
    {
    }

    /** Links that show an insertion into a valid queue show a valid queue. */
    lemma Relinked(s: seq<Entry>, i: nat, elm: Entry)
      requires i <= |s| && elems == Inserted(s, i, elm) && elm !in s
      requires forall j, k :: 0 <= j < k < |s| ==> s[j] != s[k]
      requires first == elems[0] && last == SlotAt(|elems|)
      requires elm.next == Nth(i + 1) && elm.prev == SlotAt(i)
      requires i > 0 ==> s[i - 1].next == elm
      requires i < |s| ==> s[i].prev == NextOf(elm)
      requires forall j {:trigger s[j].next} :: 0 <= j < |s| && j != i - 1 ==>
                 s[j].next == if j + 1 < |s| then s[j + 1] else null
      requires forall j {:trigger s[j].prev} :: 0 <= j < |s| && j != i ==>
                 s[j].prev == if j == 0 then HeadSlot(this) else NextOf(s[j - 1])
      ensures Valid()
    {
      RelinkedNext(s, i, elm);
      RelinkedPrev(s, i, elm);
    }

    lemma UnlinkedNext(s: seq<Entry>, i: nat)
      requires i < |s| && elems == Removed(s, i)
      requires i > 0 ==> s[i - 1].next == if i + 1 < |s| then s[i + 1] else null
      requires forall j {:trigger s[j].next} :: 0 <= j < |s| && j != i - 1 ==>
                 s[j].next == if j + 1 < |s| then s[j + 1] else null
      ensures forall j {:trigger elems[j].next} :: 0 <= j < |elems| ==> elems[j].next == Nth(j + 1)
    {
      RemovedIndex(s, i);
    }

    lemma UnlinkedPrev(s: seq<Entry>, i: nat)
      requires i < |s| && elems == Removed(s, i)
      requires i + 1 < |s| ==> s[i + 1].prev == if i == 0 then HeadSlot(this) else NextOf(s[i - 1])
      requires forall j {:trigger s[j].prev} :: 0 <= j < |s| && j != i + 1 ==>
                 s[j].prev == if j == 0 then HeadSlot(this) else NextOf(s[j - 1])
      ensures forall j {:trigger elems[j].prev} :: 0 <= j < |elems| ==> elems[j].prev == SlotAt(j)
    {
      RemovedIndex(s, i);
    }

    /** TAILQ_INIT */
    constructor ()
      ensures Valid() && elems == []
    {
      first := null;
      last := HeadSlot(this);
      elems := [];
    }

    /** TAILQ_INSERT_HEAD */
    method InsertHead(elm: Entry)
      requires Valid() && elm !in elems
      modifies this, elems, elm
      ensures Valid() && elems == Inserted(old(elems), 0, elm)
    {
      elm.next := first;
      if elm.next != null {
        first.prev := NextOf(elm);
      } else {
        last := NextOf(elm);
      }
      first := elm;
      elm.prev := HeadSlot(this);
      elems := Inserted(elems, 0, elm);
    }

    /** TAILQ_INSERT_TAIL */
    method InsertTail(elm: Entry)
      requires Valid() && elm !in elems
      modifies this, elems, elm
      ensures Valid() && elems == Inserted(old(elems), |old(elems)|, elm)
    {
      elm.next := null;
      elm.prev := last;
      Store(last, elm);
      last := NextOf(elm);
      elems := Inserted(elems, |elems|, elm);
    }

    /** TAILQ_INSERT_AFTER */
    method InsertAfter(listelm: Entry, elm: Entry, ghost i: nat)
      requires Valid() && elm !in elems && i < |elems| && elems[i] == listelm
      modifies this, elems, elm
      ensures Valid() && elems == Inserted(old(elems), i + 1, elm)
    {
      elm.next := listelm.next;
      if elm.next != null {
        elm.next.prev := NextOf(elm);
      } else {
        last := NextOf(elm);
      }
      listelm.next := elm;
      elm.prev := NextOf(listelm);
      ghost var s := elems;
      elems := Inserted(s, i + 1, elm);
      Relinked(s, i + 1, elm);
    }

    /** TAILQ_INSERT_BEFORE */
    method InsertBefore(listelm: Entry, elm: Entry, ghost i: nat)
      requires Valid() && elm !in elems && i < |elems| && elems[i] == listelm
      modifies this, elems, elm
      ensures Valid() && elems == Inserted(old(elems), i, elm)
    {
      elm.prev := listelm.prev;
      elm.next := listelm;
      Store(listelm.prev, elm);
      listelm.prev := NextOf(elm);
      ghost var s := elems;
      elems := Inserted(s, i, elm);
      Relinked(s, i, elm);
    }

    /** TAILQ_REMOVE */
    method Remove(elm: Entry, ghost i: nat)
      requires Valid() && i < |elems| && elems[i] == elm
      modifies this, elems
      ensures Valid() && elems == Removed(old(elems), i)
      ensures elm.next == old(elm.next) && elm.prev == old(elm.prev)
    {
      if elm.next != null {
        elm.next.prev := elm.prev;
      } else {
        last := elm.prev;
      }
      Store(elm.prev, elm.next);
      ghost var s := elems;
      elems := Removed(s, i);
      RemovedIndex(s, i);
      UnlinkedNext(s, i);
      UnlinkedPrev(s, i);
    }

    method InsertAt(p: Place, elm: Entry)
      requires Valid() && elm !in elems && (p.After? || p.Before? ==> p.i < |elems|)
      modifies this, elems, elm
      ensures Valid() && elems == Inserted(old(elems), Index(p, |old(elems)|), elm)
    {
      match p
      case AtHead => InsertHead(elm);
      case AtTail => InsertTail(elm);
      case After(i) =>
        var x := Walk(i);
        InsertAfter(x, elm, i);
      case Before(i) =>
        var x := Walk(i);
        InsertBefore(x, elm, i);
    }

    /** Removal of an element that has just been inserted at position `k`. */
    method RemoveInserted(ghost s: seq<Entry>, elm: Entry, ghost k: nat)
      requires Valid() && k <= |s| && elems == Inserted(s, k, elm)
      modifies this, elems
      ensures Valid() && elems == s
    {
      RemovedInserted(s, k, elm);
      Remove(elm, k);
    }

    /** Any insertion followed by the removal of the same element restores every other
        link. */
    method InsertThenRemove(p: Place, elm: Entry)
      requires Valid() && elm !in elems && (p.After? || p.Before? ==> p.i < |elems|)
      modifies this, elems, elm
      ensures Valid() && elems == old(elems) && first == old(first) && last == old(last)
      ensures forall j {:trigger elems[j].next} :: 0 <= j < |elems| ==> elems[j].next == old(elems[j].next)
      ensures forall j {:trigger elems[j].prev} :: 0 <= j < |elems| ==> elems[j].prev == old(elems[j].prev)
    {
      ghost var s, k := elems, Index(p, |elems|);
      InsertAt(p, elm);
      RemoveInserted(s, elm, k);
    }

    /** The element at a position, reached by TAILQ_NEXT. */
    method Walk(i: nat) returns (x: Entry)
      requires Valid() && i < |elems|
      ensures x == elems[i]
    {
      x := first;
      var j := 0;
      while j < i
        invariant j <= i && x == elems[j]
      {
        x := x.next;
        j := j + 1;
      }
    }

    /** TAILQ_LAST */
    method Last() returns (x: Entry?)
      requires Valid()
      ensures x == Nth(|elems| - 1)
    {
      assert last.NextOf? ==> last.n == elems[|elems| - 1];
      x := Star(AsHeadLast(last));
    }

    /** TAILQ_PREV */
    method Prev(elm: Entry, ghost i: nat) returns (x: Entry?)
      requires Valid() && i < |elems| && elems[i] == elm
      ensures x == Nth(i - 1)
    {
      assert i > 0 ==> elems[i - 1].prev == SlotAt(i - 1);
      x := Star(AsHeadLast(elm.prev));
    }

    /** TAILQ_FOREACH */
    method ForEach() returns (visited: seq<Entry>)
      requires Valid()
      ensures visited == elems
    {
      visited := [];
      var x := first;
      while x != null
        invariant |visited| <= |elems| && visited == elems[..|visited|] && x == Nth(|visited|)
        decreases |elems| - |visited|
      {
        var elm: Entry := x;
        visited := visited + [elm];
        x := elm.next;
      }
    }

    /** TAILQ_FOREACH_REVERSE yields the reverse of TAILQ_FOREACH. */
    method ForEachReverse() returns (visited: seq<Entry>)
      requires Valid()
      ensures visited == Reversed(elems)
    {
      visited := [];
      var x := Last();
      while x != null
        invariant |visited| <= |elems| && visited == Reversed(elems)[..|visited|]
        invariant x == Nth(|elems| - 1 - |visited|)
        decreases |elems| - |visited|
      {
        var elm: Entry := x;
        x := Prev(elm, |elems| - 1 - |visited|);
        visited := visited + [elm];
      }
    }
  }
}

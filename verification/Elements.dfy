/**
  Tree elements, sorted sequences of them, and the plain set that a tree stands for.
 */
module Elements {
  import opened Order
  import opened Seqs

  /** The mirrored halves of the source are written once, with a side. */
  datatype Side = L | R

  function Other(s: Side): Side {
    if s == L then R else L
  }

  datatype Color = Red | Black

  /** A tree element. The key never changes. It carries an RB_ENTRY and a
      SPLAY_ENTRY, so that it can be in one tree of each kind. */
  class Node {
    const key: Key

    var left: Node?      // RB_ENTRY
    var right: Node?
    var parent: Node?
    var color: Color

    var spLeft: Node?    // SPLAY_ENTRY
    var spRight: Node?

    constructor (key: Key)
      ensures this.key == key
    {
      this.key := key;
    }
  }

  /** The entries of elements outside `changed` are the same. */
  ghost predicate SameBut<Entry>(h: map<Node, Entry>, h': map<Node, Entry>, changed: set<Node>) {
    forall x :: x in h && x !in changed ==> x in h' && h'[x] == h[x]
  }

  // ----- sorted sequences -----

  ghost predicate Sorted(cmp: Cmp, s: seq<Node>) {
    forall i, j :: 0 <= i < j < |s| ==> Less(cmp, s[i].key, s[j].key)
  }

  predicate AllBelow(cmp: Cmp, s: seq<Node>, key: Key) {
    forall i :: 0 <= i < |s| ==> Less(cmp, s[i].key, key)
  }

  predicate AllAbove(cmp: Cmp, s: seq<Node>, key: Key) {
    forall i :: 0 <= i < |s| ==> Less(cmp, key, s[i].key)
  }

  lemma SortedParts(cmp: Cmp, a: seq<Node>, x: Node, b: seq<Node>)
    requires Sorted(cmp, a + [x] + b)
    ensures Sorted(cmp, a) && Sorted(cmp, b) && AllBelow(cmp, a, x.key) && AllAbove(cmp, b, x.key)
  {
    var s := a + [x] + b;
    assert forall i :: 0 <= i < |a| ==> s[i] == a[i];
    assert s[|a|] == x;
    assert forall i :: 0 <= i < |b| ==> s[|a| + 1 + i] == b[i];
  }

  lemma SortedInsert(cmp: Cmp, a: seq<Node>, x: Node, b: seq<Node>)
    requires Sorted(cmp, a + b) && AllBelow(cmp, a, x.key) && AllAbove(cmp, b, x.key)
    ensures Sorted(cmp, a + [x] + b)
  {
    var s := a + [x] + b;
    forall i, j | 0 <= i < j < |s| ensures Less(cmp, s[i].key, s[j].key) {
      var i' := if i > |a| then i - 1 else i;
      var j' := if j > |a| then j - 1 else j;
      if i != |a| { assert s[i] == (a + b)[i']; }
      if j != |a| { assert s[j] == (a + b)[j']; }
    }
  }

  lemma NoneBetween(cmp: Cmp, key: Key, a: seq<Node>, b: seq<Node>)
    requires TotalOrder(cmp) && AllBelow(cmp, a, key) && AllAbove(cmp, b, key)
    ensures forall y :: y in a + b ==> !Equal(cmp, key, y.key)
  {
  }

  lemma NothingAbove(cmp: Cmp, key: Key, a: seq<Node>, b: seq<Node>)
    requires TotalOrder(cmp) && AllBelow(cmp, a + b, key)
    ensures b != [] ==> !AllAbove(cmp, b, key)
  {
    if b != [] {
      assert (a + b)[|a|] == b[0];
    }
  }

  /** A sorted sequence holds a key at most once, and stays sorted without it. */
  lemma OnlyAt(cmp: Cmp, key: Key, s: seq<Node>, i: nat)
    requires TotalOrder(cmp) && Sorted(cmp, s) && i < |s| && Equal(cmp, key, s[i].key)
    ensures forall j :: 0 <= j < |s| ==> (Equal(cmp, key, s[j].key) <==> j == i)
    ensures forall y :: y in s ==> (Equal(cmp, key, y.key) <==> y == s[i])
    ensures Sorted(cmp, Removed(s, i))
  {
    forall j | 0 <= j < |s| && j != i ensures !Equal(cmp, key, s[j].key) {
      if j < i {
        LessTransitive(cmp, s[j].key, s[i].key, key);
      } else {
        LessTransitive(cmp, key, s[i].key, s[j].key);
      }
    }
  }

  // ----- contents -----

  function Members(s: seq<Node>): set<Node> {
    set x | x in s
  }

  lemma SomeMember(s: seq<Node>)
    ensures s != [] ==> exists y :: y in s
  {
    if s != [] {
      assert s[0] in s;
    }
  }

  lemma MembersInsert(a: seq<Node>, x: Node, b: seq<Node>)
    ensures Members(a + [x] + b) == Members(a + b) + {x}
  {
    forall y ensures y in a + [x] + b <==> y in a + b || y == x {
    }
  }

  /** Adding an element between the smaller and the larger ones is what insertion
      means on the set. */
  lemma InsertedSet(cmp: Cmp, a: seq<Node>, x: Node, b: seq<Node>)
    requires TotalOrder(cmp) && Sorted(cmp, a + b) && AllBelow(cmp, a, x.key) && AllAbove(cmp, b, x.key)
    ensures Sorted(cmp, a + [x] + b)
    ensures Members(a + [x] + b) == ApplySet(cmp, Members(a + b), OpInsert(x))
  {
    SortedInsert(cmp, a, x, b);
    MembersInsert(a, x, b);
    NoneBetween(cmp, x.key, a, b);
  }

  /** The same next to an element `z` that separates the smaller from the larger. */
  lemma InsertedAround(cmp: Cmp, a: seq<Node>, z: Node, b: seq<Node>, x: Node)
    requires TotalOrder(cmp) && Sorted(cmp, a + [z] + b) && AllBelow(cmp, a, x.key) && AllAbove(cmp, b, x.key)
    ensures var s := if cmp(x.key, z.key) < 0 then a + [x] + ([z] + b)
                     else if cmp(x.key, z.key) > 0 then (a + [z]) + [x] + b
                     else a + [z] + b;
            Sorted(cmp, s) && Members(s) == ApplySet(cmp, Members(a + [z] + b), OpInsert(x))
  {
    assert (a + [z] + b)[|a|] == z;
    if cmp(x.key, z.key) < 0 {
      assert a + [z] + b == a + ([z] + b);
      InsertedSet(cmp, a, x, [z] + b);
    } else if cmp(x.key, z.key) > 0 {
      InsertedSet(cmp, a + [z], x, b);
    }
  }

  /** Dropping the only element with a key is what removal means on the set. */
  lemma RemovedSet(cmp: Cmp, key: Key, s: seq<Node>, i: nat)
    requires TotalOrder(cmp) && Sorted(cmp, s) && i < |s| && Equal(cmp, key, s[i].key)
    ensures Members(Removed(s, i)) == ApplySet(cmp, Members(s), OpRemove(key))
  {
    OnlyAt(cmp, key, s, i);
    MembersWithout(cmp, s, i);
  }

  lemma MembersWithout(cmp: Cmp, s: seq<Node>, i: nat)
    requires TotalOrder(cmp) && Sorted(cmp, s) && i < |s|
    ensures Members(Removed(s, i)) == Members(s) - {s[i]}
  {
    var a, x, b := s[..i], s[i], s[i + 1..];
    assert s == a + [x] + b;
    SortedParts(cmp, a, x, b);
    NoneBetween(cmp, x.key, a, b);
    MembersInsert(a, x, b);
  }

  /** The element at a position, or NULL outside the sequence. */
  function Nth(s: seq<Node>, i: int): Node? {
    if 0 <= i < |s| then s[i] else null
  }

  // ----- whole runs -----

  datatype Op = OpInsert(x: Node) | OpRemove(key: Key) | OpFind(key: Key)

  /** The same operations on a plain set of elements. */
  ghost function ApplySet(cmp: Cmp, s: set<Node>, op: Op): set<Node> {
    match op
    case OpInsert(x) => if exists y :: y in s && Equal(cmp, x.key, y.key) then s else s + {x}
    case OpRemove(key) => set y | y in s && !Equal(cmp, key, y.key)
    case OpFind(_) => s
  }

  /** The elements that a run may link. */
  function Operands(ops: seq<Op>): set<Node> {
    set op | op in ops && op.OpInsert? :: op.x
  }

  ghost function RunSet(cmp: Cmp, ops: seq<Op>): set<Node> {
    if ops == [] then {} else ApplySet(cmp, RunSet(cmp, ops[..|ops| - 1]), ops[|ops| - 1])
  }

  lemma RunSetNext(cmp: Cmp, ops: seq<Op>, i: nat)
    requires i < |ops|
    ensures RunSet(cmp, ops[..i + 1]) == ApplySet(cmp, RunSet(cmp, ops[..i]), ops[i])
  {
    assert ops[..i + 1][..i] == ops[..i];
  }

  /** A step of a run links no other elements than the run may. */
  lemma OperandsStep(cmp: Cmp, s: set<Node>, ops: seq<Op>, i: nat)
    requires i < |ops| && s <= Operands(ops)
    ensures Operands([ops[i]]) <= Operands(ops) && ApplySet(cmp, s, ops[i]) <= Operands(ops)
  {
    assert ops[i] in ops;
  }
}

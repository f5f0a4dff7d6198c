/**
  What top-down splaying computes, as functions on tree shapes, and the promises of
  the SPLAY macros of utils/tree.h about it.
 */
module SplaySpec {
  import opened Order
  import opened Seqs
  import opened Elements

  datatype Tree =
    | Leaf
    | Bin(l: Tree, x: Node, r: Tree)

  /** A node whose child on side `s` is `near`. */
  function Mk(s: Side, near: Tree, x: Node, far: Tree): (t: Tree)
    ensures t.Bin? && t.x == x && Kid(s, t) == near && Kid(Other(s), t) == far
    ensures Inorder(t) == Cat(s, Inorder(near), [x], Inorder(far))
    ensures Size(t) == Size(near) + 1 + Size(far)
  {
    if s == L then Bin(near, x, far) else Bin(far, x, near)
  }

  function Kid(s: Side, t: Tree): Tree
    requires t.Bin?
  {
    if s == L then t.l else t.r
  }

  function Size(t: Tree): nat {
    if t.Leaf? then 0 else Size(t.l) + 1 + Size(t.r)
  }

  function Inorder(t: Tree): seq<Node> {
    if t.Leaf? then [] else Inorder(t.l) + [t.x] + Inorder(t.r)
  }

  function Cat(s: Side, near: seq<Node>, mid: seq<Node>, far: seq<Node>): seq<Node> {
    if s == L then near + mid + far else far + mid + near
  }

  // ----- what is sought -----

  /** SPLAY seeks the place of a key, SPLAY_MINMAX runs to one end. */
  datatype Probe = ByKey(key: Key) | ToEnd(comp: int)

  /** The source calls SPLAY_MINMAX with 1 or -1 only; 0 would loop for ever. */
  predicate Legal(p: Probe) {
    p.ToEnd? ==> p.comp != 0
  }

  function Dir(cmp: Cmp, p: Probe, x: Node): int {
    match p
    case ByKey(key) => cmp(key, x.key)
    case ToEnd(comp) => comp
  }

  /** Node `x` lies on side `s` of what is sought. */
  predicate Beyond(cmp: Cmp, p: Probe, s: Side, x: Node) {
    if s == L then Dir(cmp, p, x) > 0 else Dir(cmp, p, x) < 0
  }

  predicate AllBeyond(cmp: Cmp, p: Probe, s: Side, t: Tree) {
    t.Bin? ==> Beyond(cmp, p, s, t.x) && AllBeyond(cmp, p, s, t.l) && AllBeyond(cmp, p, s, t.r)
  }

  /** At every node the comparison excludes one subtree. */
  predicate Guided(cmp: Cmp, p: Probe, t: Tree) {
    t.Bin? ==>
      && Guided(cmp, p, t.l) && Guided(cmp, p, t.r)
      && (Dir(cmp, p, t.x) >= 0 ==> AllBeyond(cmp, p, L, t.l))
      && (Dir(cmp, p, t.x) <= 0 ==> AllBeyond(cmp, p, R, t.r))
  }

  lemma {:induction false} BeyondInorder(cmp: Cmp, p: Probe, s: Side, t: Tree)
    ensures AllBeyond(cmp, p, s, t) <==> forall y :: y in Inorder(t) ==> Beyond(cmp, p, s, y)
  {
    if t.Bin? {
      BeyondInorder(cmp, p, s, t.l);
      BeyondInorder(cmp, p, s, t.r);
      assert t.x in Inorder(t);
    }
  }

  lemma {:induction false} SortedGuided(cmp: Cmp, p: Probe, t: Tree)
    requires TotalOrder(cmp) && Legal(p) && Sorted(cmp, Inorder(t))
    ensures Guided(cmp, p, t)
  {
    if t.Bin? {
      SortedParts(cmp, Inorder(t.l), t.x, Inorder(t.r));
      SortedGuided(cmp, p, t.l);
      SortedGuided(cmp, p, t.r);
      BeyondInorder(cmp, p, L, t.l);
      BeyondInorder(cmp, p, R, t.r);
      forall y | y in Inorder(t.l) ensures Dir(cmp, p, t.x) >= 0 ==> Beyond(cmp, p, L, y) {
        Follows(cmp, p, y, t.x);
      }
      forall y | y in Inorder(t.r) ensures Dir(cmp, p, t.x) <= 0 ==> Beyond(cmp, p, R, y) {
        Follows(cmp, p, t.x, y);
      }
    }
  }

  lemma Follows(cmp: Cmp, p: Probe, x: Node, y: Node)
    requires TotalOrder(cmp) && Legal(p) && Less(cmp, x.key, y.key)
    ensures Dir(cmp, p, y) >= 0 ==> Dir(cmp, p, x) > 0
    ensures Dir(cmp, p, x) <= 0 ==> Dir(cmp, p, y) < 0
  {
    if p.ByKey? {
      if cmp(p.key, y.key) >= 0 { LessTransitive(cmp, x.key, y.key, p.key); }
      if cmp(p.key, x.key) <= 0 { LessTransitive(cmp, p.key, x.key, y.key); }
    }
  }

  // ----- the two side trees -----

  /** A side tree with a hole: the nodes linked so far, the last one outermost, each
      with its subtree away from the hole. */
  datatype Acc = Nil | Snoc(up: Acc, x: Node, sub: Tree)

  /** The side tree on side `o` with `t` in its hole. */
  function Fill(o: Side, acc: Acc, t: Tree): Tree {
    if acc.Nil? then t else Fill(o, acc.up, Mk(Other(o), t, acc.x, acc.sub))
  }

  function AccInorder(o: Side, acc: Acc): seq<Node> {
    if acc.Nil? then []
    else if o == L then AccInorder(o, acc.up) + Inorder(acc.sub) + [acc.x]
    else [acc.x] + Inorder(acc.sub) + AccInorder(o, acc.up)
  }

  predicate AccBeyond(cmp: Cmp, p: Probe, o: Side, acc: Acc) {
    acc.Snoc? ==> Beyond(cmp, p, o, acc.x) && AllBeyond(cmp, p, o, acc.sub) && AccBeyond(cmp, p, o, acc.up)
  }

  lemma Regroup(a: seq<Node>, b: seq<Node>, c: seq<Node>, d: seq<Node>)
    ensures a + (b + c + d) == a + b + c + d
    ensures (d + c + b) + a == d + (c + b + a)
  {
  }

  lemma {:induction false} FillInorder(o: Side, acc: Acc, t: Tree)
    ensures Inorder(Fill(o, acc, t))
            == if o == L then AccInorder(o, acc) + Inorder(t) else Inorder(t) + AccInorder(o, acc)
    decreases acc
  {
    if acc.Snoc? {
      FillInorder(o, acc.up, Mk(Other(o), t, acc.x, acc.sub));
      Regroup(AccInorder(o, acc.up), Inorder(acc.sub), [acc.x], Inorder(t));
    }
  }

  lemma {:induction false} FillBeyond(cmp: Cmp, p: Probe, o: Side, acc: Acc, t: Tree)
    requires AccBeyond(cmp, p, o, acc) && AllBeyond(cmp, p, o, t)
    ensures AllBeyond(cmp, p, o, Fill(o, acc, t))
    decreases acc
  {
    if acc.Snoc? {
      FillBeyond(cmp, p, o, acc.up, Mk(Other(o), t, acc.x, acc.sub));
    }
  }

  // ----- splaying -----

  /** SPLAY_ROTATE_RIGHT for `s == L`, SPLAY_ROTATE_LEFT for `s == R`. */
  function Rotated(s: Side, t: Tree): Tree
    requires t.Bin? && Kid(s, t).Bin?
  {
    var w := Kid(s, t);
    Mk(s, Kid(s, w), w.x, Mk(s, Kid(Other(s), w), t.x, Kid(Other(s), t)))
  }

  /** SPLAY_ASSEMBLE: `a` and `b` are the left and the right tree. */
  function Assemble(t: Tree, a: Acc, b: Acc): Tree
    requires t.Bin?
  {
    Bin(Fill(L, a, t.l), t.x, Fill(R, b, t.r))
  }

  /** The root of one iteration, after the zig-zig rotation if there is one. */
  function Zig(cmp: Cmp, p: Probe, s: Side, t: Tree): (t1: Tree)
    requires t.Bin? && Kid(s, t).Bin?
    ensures t1.Bin? && Size(t1) == Size(t)
  {
    assert t == Mk(s, Kid(s, t), t.x, Kid(Other(s), t));
    assert Kid(s, t) == Mk(s, Kid(s, Kid(s, t)), Kid(s, t).x, Kid(Other(s), Kid(s, t)));
    if Beyond(cmp, p, Other(s), Kid(s, t).x) then Rotated(s, t) else t
  }

  /** The main loop followed by SPLAY_ASSEMBLE. */
  function SplayLoop(cmp: Cmp, p: Probe, t: Tree, a: Acc, b: Acc): Tree
    requires t.Bin?
    decreases Size(t)
  {
    var c := Dir(cmp, p, t.x);
    var s := if c < 0 then L else R;
    if c == 0 || Kid(s, t).Leaf? then Assemble(t, a, b)
    else
      var t1 := Zig(cmp, p, s, t);
      if Kid(s, t1).Leaf? then Assemble(t1, a, b)
      else if s == L then SplayLoop(cmp, p, t1.l, a, Snoc(b, t1.x, t1.r))
      else SplayLoop(cmp, p, t1.r, Snoc(a, t1.x, t1.l), b)
  }

  function Splay(cmp: Cmp, p: Probe, t: Tree): Tree
    requires t.Bin?
  {
    SplayLoop(cmp, p, t, Nil, Nil)
  }

  lemma ZigKeeps(cmp: Cmp, p: Probe, s: Side, t: Tree)
    requires t.Bin? && Kid(s, t).Bin? && Guided(cmp, p, t) && Beyond(cmp, p, Other(s), t.x)
    ensures var t1 := Zig(cmp, p, s, t);
            && Inorder(t1) == Inorder(t) && Guided(cmp, p, t1)
            && Beyond(cmp, p, Other(s), t1.x)
  {
    var w := Kid(s, t);
    var a, b, d := Inorder(Kid(s, w)), Inorder(Kid(Other(s), w)), Inorder(Kid(Other(s), t));
    assert a + [w.x] + (b + [t.x] + d) == (a + [w.x] + b) + [t.x] + d;
    assert (d + [t.x] + b) + [w.x] + a == d + [t.x] + (b + [w.x] + a);
    assert w == Mk(s, Kid(s, w), w.x, Kid(Other(s), w)) && t == Mk(s, w, t.x, Kid(Other(s), t));
  }

  function Whole(t: Tree, a: Acc, b: Acc): seq<Node> {
    AccInorder(L, a) + Inorder(t) + AccInorder(R, b)
  }

  lemma LinkWhole(t: Tree, a: Acc, b: Acc)
    requires t.Bin?
    ensures Whole(t.l, a, Snoc(b, t.x, t.r)) == Whole(t, a, b)
    ensures Whole(t.r, Snoc(a, t.x, t.l), b) == Whole(t, a, b)
  {
    var a', l, r, b' := AccInorder(L, a), Inorder(t.l), Inorder(t.r), AccInorder(R, b);
    assert a' + l + ([t.x] + r + b') == a' + (l + [t.x] + r) + b';
    assert (a' + l + [t.x]) + r + b' == a' + (l + [t.x] + r) + b';
  }

  lemma AssembleInorder(t: Tree, a: Acc, b: Acc)
    requires t.Bin?
    ensures Inorder(Assemble(t, a, b)) == Whole(t, a, b)
  {
    FillInorder(L, a, t.l);
    FillInorder(R, b, t.r);
    AroundRoot(AccInorder(L, a), Inorder(t.l), t.x, Inorder(t.r), AccInorder(R, b));
  }

  lemma AroundRoot(a: seq<Node>, l: seq<Node>, x: Node, r: seq<Node>, b: seq<Node>)
    ensures (a + l) + [x] + (r + b) == a + (l + [x] + r) + b
  {
  }

  /** The loop invariant of splaying, followed to its end. */
  lemma {:induction false} SplayLoopCorrect(cmp: Cmp, p: Probe, t: Tree, a: Acc, b: Acc)
    requires t.Bin? && Guided(cmp, p, t) && AccBeyond(cmp, p, L, a) && AccBeyond(cmp, p, R, b)
    ensures var r := SplayLoop(cmp, p, t, a, b);
            && Inorder(r) == Whole(t, a, b)
            && r.Bin? && AllBeyond(cmp, p, L, r.l) && AllBeyond(cmp, p, R, r.r)
    decreases Size(t)
  {
    var c := Dir(cmp, p, t.x);
    var s := if c < 0 then L else R;
    if c == 0 || Kid(s, t).Leaf? {
      AssembleCorrect(cmp, p, t, a, b);
    } else {
      var t1 := Zig(cmp, p, s, t);
      ZigKeeps(cmp, p, s, t);
      if Kid(s, t1).Leaf? {
        AssembleCorrect(cmp, p, t1, a, b);
      } else if s == L {
        SplayLoopCorrect(cmp, p, t1.l, a, Snoc(b, t1.x, t1.r));
        LinkWhole(t1, a, b);
      } else {
        SplayLoopCorrect(cmp, p, t1.r, Snoc(a, t1.x, t1.l), b);
        LinkWhole(t1, a, b);
      }
    }
  }

  lemma AssembleCorrect(cmp: Cmp, p: Probe, t: Tree, a: Acc, b: Acc)
    requires t.Bin? && AccBeyond(cmp, p, L, a) && AccBeyond(cmp, p, R, b)
    requires AllBeyond(cmp, p, L, t.l) && AllBeyond(cmp, p, R, t.r)
    ensures var r := Assemble(t, a, b);
            && Inorder(r) == Whole(t, a, b)
            && AllBeyond(cmp, p, L, r.l) && AllBeyond(cmp, p, R, r.r)
  {
    AssembleInorder(t, a, b);
    FillBeyond(cmp, p, L, a, t.l);
    FillBeyond(cmp, p, R, b, t.r);
  }

  /** Splaying a search tree keeps the sequence of nodes and leaves at the root what
      separates the smaller keys from the larger ones. */
  lemma SplayCorrect(cmp: Cmp, p: Probe, t: Tree)
    requires TotalOrder(cmp) && Legal(p) && t.Bin? && Sorted(cmp, Inorder(t))
    ensures var r := Splay(cmp, p, t);
            && r.Bin? && Inorder(r) == Inorder(t)
            && (forall y :: y in Inorder(r.l) ==> Beyond(cmp, p, L, y))
            && (forall y :: y in Inorder(r.r) ==> Beyond(cmp, p, R, y))
  {
    SortedGuided(cmp, p, t);
    SplayLoopCorrect(cmp, p, t, Nil, Nil);
    var r := Splay(cmp, p, t);
    BeyondInorder(cmp, p, L, r.l);
    BeyondInorder(cmp, p, R, r.r);
  }

  /** The same by key: an equal key, if present, is at the root. */
  lemma SplayByKey(cmp: Cmp, key: Key, t: Tree)
    requires TotalOrder(cmp) && t.Bin? && Sorted(cmp, Inorder(t))
    ensures var r := Splay(cmp, ByKey(key), t);
            && r.Bin? && Inorder(r) == Inorder(t)
            && AllBelow(cmp, Inorder(r.l), key) && AllAbove(cmp, Inorder(r.r), key)
    ensures var r := Splay(cmp, ByKey(key), t);
            forall y :: y in Inorder(t) && Equal(cmp, key, y.key) ==> y == r.x
  {
    var r := Splay(cmp, ByKey(key), t);
    SplayCorrect(cmp, ByKey(key), t);
    var a, b := Inorder(r.l), Inorder(r.r);
    forall i | 0 <= i < |a| ensures Less(cmp, a[i].key, key) {
      assert Beyond(cmp, ByKey(key), L, a[i]);
    }
    forall i | 0 <= i < |b| ensures Less(cmp, key, b[i].key) {
      assert Beyond(cmp, ByKey(key), R, b[i]);
    }
    assert forall y :: y in a + [r.x] + b ==> y in a || y == r.x || y in b;
  }

  // ----- SPLAY_INSERT, SPLAY_REMOVE, SPLAY_FIND -----

  function Insert(cmp: Cmp, t: Tree, x: Node): Tree {
    if t.Leaf? then Bin(Leaf, x, Leaf)
    else InsertRoot(cmp, Splay(cmp, ByKey(x.key), t), x)
  }

  /** The new node becomes the root above the splayed one. */
  function InsertRoot(cmp: Cmp, r: Tree, x: Node): Tree {
    if r.Leaf? then r
    else if cmp(x.key, r.x.key) < 0 then Bin(r.l, x, Bin(Leaf, r.x, r.r))
    else if cmp(x.key, r.x.key) > 0 then Bin(Bin(r.l, r.x, Leaf), x, r.r)
    else r
  }

  function Remove(cmp: Cmp, t: Tree, key: Key): Tree {
    if t.Leaf? then t
    else RemoveRoot(cmp, Splay(cmp, ByKey(key), t), key)
  }

  /** The right subtree is hung below the splayed left subtree, replacing whatever
      right child the new root has. */
  function RemoveRoot(cmp: Cmp, r: Tree, key: Key): Tree {
    if r.Leaf? || !Equal(cmp, key, r.x.key) then r
    else if r.l.Leaf? then r.r
    else
      var m := Splay(cmp, ByKey(key), r.l);
      if m.Leaf? then m else Bin(m.l, m.x, r.r)
  }

  function Find(cmp: Cmp, t: Tree, key: Key): Tree {
    if t.Leaf? then t else Splay(cmp, ByKey(key), t)
  }

  lemma InsertCorrect(cmp: Cmp, t: Tree, x: Node)
    requires TotalOrder(cmp) && Sorted(cmp, Inorder(t))
    ensures Sorted(cmp, Inorder(Insert(cmp, t, x)))
    ensures Members(Inorder(Insert(cmp, t, x))) == ApplySet(cmp, Members(Inorder(t)), OpInsert(x))
  {
    if t.Bin? {
      var r := Splay(cmp, ByKey(x.key), t);
      SplayByKey(cmp, x.key, t);
      InsertRootCorrect(cmp, r, x);
    }
  }

  lemma InsertRootCorrect(cmp: Cmp, r: Tree, x: Node)
    requires TotalOrder(cmp) && r.Bin? && Sorted(cmp, Inorder(r))
    requires AllBelow(cmp, Inorder(r.l), x.key) && AllAbove(cmp, Inorder(r.r), x.key)
    ensures Sorted(cmp, Inorder(InsertRoot(cmp, r, x)))
    ensures Members(Inorder(InsertRoot(cmp, r, x))) == ApplySet(cmp, Members(Inorder(r)), OpInsert(x))
  {
    InsertedAround(cmp, Inorder(r.l), r.x, Inorder(r.r), x);
    assert Inorder(Bin(Leaf, r.x, r.r)) == [r.x] + Inorder(r.r);
    assert Inorder(Bin(r.l, r.x, Leaf)) == Inorder(r.l) + [r.x];
  }

  /** The inserted element, or the one with an equal key that was there, is at the root. */
  lemma InsertAtRoot(cmp: Cmp, t: Tree, x: Node)
    requires TotalOrder(cmp) && Sorted(cmp, Inorder(t))
    ensures var r := Insert(cmp, t, x);
            && r.Bin?
            && ((forall y :: y in Inorder(t) ==> !Equal(cmp, x.key, y.key)) ==> r.x == x)
            && (forall y :: y in Inorder(t) && Equal(cmp, x.key, y.key) ==> r.x == y)
  {
    if t.Bin? {
      var r := Splay(cmp, ByKey(x.key), t);
      SplayByKey(cmp, x.key, t);
      RootIn(r);
    }
  }

  lemma RootIn(t: Tree)
    requires t.Bin?
    ensures t.x in Inorder(t)
  {
    assert Inorder(t)[|Inorder(t.l)|] == t.x;
  }

  /** The second splay of SPLAY_REMOVE leaves a root without right child. */
  lemma SecondSplay(cmp: Cmp, key: Key, t: Tree)
    requires TotalOrder(cmp) && t.Bin? && Sorted(cmp, Inorder(t)) && AllBelow(cmp, Inorder(t), key)
    ensures var m := Splay(cmp, ByKey(key), t); m.Bin? && m.r.Leaf? && Inorder(m.l) + [m.x] == Inorder(t)
  {
    var m := Splay(cmp, ByKey(key), t);
    SplayByKey(cmp, key, t);
    NothingAbove(cmp, key, Inorder(m.l) + [m.x], Inorder(m.r));
  }

  lemma RemoveCorrect(cmp: Cmp, t: Tree, key: Key)
    requires TotalOrder(cmp) && Sorted(cmp, Inorder(t))
    ensures Sorted(cmp, Inorder(Remove(cmp, t, key)))
    ensures Members(Inorder(Remove(cmp, t, key))) == ApplySet(cmp, Members(Inorder(t)), OpRemove(key))
  {
    if t.Bin? {
      var r := Splay(cmp, ByKey(key), t);
      SplayByKey(cmp, key, t);
      if Equal(cmp, key, r.x.key) {
        RemoveRootInorder(cmp, r, key);
        var i := |Inorder(r.l)|;
        assert Inorder(r)[i] == r.x;
        OnlyAt(cmp, key, Inorder(r), i);
        RemovedSet(cmp, key, Inorder(r), i);
      }
    }
  }

  /** After a removal everything right of the root is above the key; if the key was there
      and something was below it, the root is the last element below. */
  lemma RemoveAtRoot(cmp: Cmp, t: Tree, key: Key, y: Node)
    requires TotalOrder(cmp) && Sorted(cmp, Inorder(t))
    requires y in Inorder(t) && Less(cmp, y.key, key)
    ensures var r := Remove(cmp, t, key);
            && r.Bin? && AllBelow(cmp, Inorder(r.l), key) && AllAbove(cmp, Inorder(r.r), key)
            && ((exists z :: z in Inorder(t) && Equal(cmp, key, z.key)) ==> Less(cmp, r.x.key, key))
  {
    var r := Splay(cmp, ByKey(key), t);
    SplayByKey(cmp, key, t);
    var a, b := Inorder(r.l), Inorder(r.r);
    if Equal(cmp, key, r.x.key) {
      SortedParts(cmp, a, r.x, b);
      assert y in a + [r.x] + b;
      assert y !in b && y != r.x;
      SecondSplay(cmp, key, r.l);
      BelowParts(cmp, key, Splay(cmp, ByKey(key), r.l));
    } else {
      assert forall z :: z in Inorder(t) && Equal(cmp, key, z.key) ==> z == r.x;
    }
  }

  lemma BelowParts(cmp: Cmp, key: Key, m: Tree)
    requires m.Bin? && AllBelow(cmp, Inorder(m.l) + [m.x], key)
    ensures AllBelow(cmp, Inorder(m.l), key) && Less(cmp, m.x.key, key)
  {
    var s := Inorder(m.l) + [m.x];
    assert s[|s| - 1] == m.x;
    assert forall i :: 0 <= i < |s| - 1 ==> s[i] == Inorder(m.l)[i];
  }

  lemma RemoveRootInorder(cmp: Cmp, r: Tree, key: Key)
    requires TotalOrder(cmp) && r.Bin? && Sorted(cmp, Inorder(r)) && Equal(cmp, key, r.x.key)
    requires AllBelow(cmp, Inorder(r.l), key)
    ensures Inorder(RemoveRoot(cmp, r, key)) == Removed(Inorder(r), |Inorder(r.l)|)
  {
    var a, b := Inorder(r.l), Inorder(r.r);
    SortedParts(cmp, a, r.x, b);
    assert Removed(a + [r.x] + b, |a|) == a + b;
    if r.l.Bin? {
      SecondSplay(cmp, key, r.l);
    }
  }

  // ----- whole runs -----

  function Apply(cmp: Cmp, t: Tree, op: Op): Tree {
    match op
    case OpInsert(x) => Insert(cmp, t, x)
    case OpRemove(key) => Remove(cmp, t, key)
    case OpFind(key) => Find(cmp, t, key)
  }

  function Run(cmp: Cmp, ops: seq<Op>): Tree {
    if ops == [] then Leaf else Apply(cmp, Run(cmp, ops[..|ops| - 1]), ops[|ops| - 1])
  }

  lemma RunNext(cmp: Cmp, ops: seq<Op>, i: nat)
    requires i < |ops|
    ensures Run(cmp, ops[..i + 1]) == Apply(cmp, Run(cmp, ops[..i]), ops[i])
  {
    assert ops[..i + 1][..i] == ops[..i];
  }

  /** After any operations from the empty tree the splay tree is sorted and holds
      exactly the elements it should. */
  lemma {:induction false} RunCorrect(cmp: Cmp, ops: seq<Op>)
    requires TotalOrder(cmp)
    ensures Sorted(cmp, Inorder(Run(cmp, ops)))
    ensures Members(Inorder(Run(cmp, ops))) == RunSet(cmp, ops)
  {
    if ops != [] {
      var t := Run(cmp, ops[..|ops| - 1]);
      RunCorrect(cmp, ops[..|ops| - 1]);
      match ops[|ops| - 1]
      case OpInsert(x) => InsertCorrect(cmp, t, x);
      case OpRemove(key) => RemoveCorrect(cmp, t, key);
      case OpFind(key) => if t.Bin? { SplayByKey(cmp, key, t); }
    }
  }
}

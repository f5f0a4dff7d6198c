/**
  What RB_INSERT, RB_REMOVE and RB_FIND compute, as functions on tree shapes, and
  the promises of the header comment of utils/tree.h about them.
 */
module RbSpec {
  import opened Order
  import opened Seqs
  import opened Elements
  import opened RbShape

  /** A valid red-black search tree. */
  ghost predicate SearchTree(cmp: Cmp, t: Tree) {
    RedBlack(t) && Sorted(cmp, Inorder(t))
  }

  // ----- descending by key -----

  datatype Focus = Focus(t: Tree, k: Ctx)

  /** The descent shared by RB_FIND and RB_INSERT. */
  function Locate(cmp: Cmp, key: Key, t: Tree, k: Ctx): (f: Focus)
    ensures Plug(f.k, f.t) == Plug(k, t)
    ensures f.t.Bin? ==> Equal(cmp, key, f.t.x.key)
    decreases t
  {
    if t.Leaf? then Focus(t, k)
    else if cmp(key, t.x.key) < 0 then Locate(cmp, key, t.l, In(L, k, t.x, t.c, t.r))
    else if cmp(key, t.x.key) > 0 then Locate(cmp, key, t.r, In(R, k, t.x, t.c, t.l))
    else Focus(t, k)
  }

  /** In a sorted tree the descent ends where the key belongs. */
  lemma {:induction false} LocateSplits(cmp: Cmp, key: Key, t: Tree, k: Ctx)
    requires TotalOrder(cmp) && Sorted(cmp, Inorder(t))
    requires AllBelow(cmp, Before(k), key) && AllAbove(cmp, After(k), key)
    ensures var f := Locate(cmp, key, t, k);
            AllBelow(cmp, Before(f.k), key) && AllAbove(cmp, After(f.k), key)
    decreases t
  {
    if t.Bin? {
      var l, r := Inorder(t.l), Inorder(t.r);
      SortedParts(cmp, l, t.x, r);
      if cmp(key, t.x.key) < 0 {
        forall i | 0 <= i < |r| ensures Less(cmp, key, r[i].key) {
          LessTransitive(cmp, key, t.x.key, r[i].key);
        }
        LocateSplits(cmp, key, t.l, In(L, k, t.x, t.c, t.r));
      } else if cmp(key, t.x.key) > 0 {
        forall i | 0 <= i < |l| ensures Less(cmp, l[i].key, key) {
          LessTransitive(cmp, l[i].key, t.x.key, key);
        }
        LocateSplits(cmp, key, t.r, In(R, k, t.x, t.c, t.l));
      }
    }
  }

  /** RB_FIND is exact: it stops at a node iff an equal key is present, and at the
      only such node. */
  lemma LocateExact(cmp: Cmp, key: Key, t: Tree)
    requires TotalOrder(cmp) && Sorted(cmp, Inorder(t))
    ensures var f := Locate(cmp, key, t, Top);
            forall y :: y in Inorder(t) ==> (Equal(cmp, key, y.key) <==> f.t.Bin? && f.t.x == y)
  {
    var f := Locate(cmp, key, t, Top);
    if f.t.Bin? {
      var i := FocusIndex(f.t, f.k);
      OnlyAt(cmp, key, Inorder(t), i);
    } else {
      LocateSplits(cmp, key, t, Top);
      EmptyInorder(f.k);
      NoneBetween(cmp, key, Before(f.k), After(f.k));
    }
  }

  /** Equal keys lead to the same place. */
  lemma {:induction false} LocateEqual(cmp: Cmp, a: Key, b: Key, t: Tree, k: Ctx)
    requires TotalOrder(cmp) && Equal(cmp, a, b)
    ensures Locate(cmp, a, t, k) == Locate(cmp, b, t, k)
    decreases t
  {
    if t.Bin? {
      SameSign(cmp, a, b, t.x.key);
      LocateEqual(cmp, a, b, t.l, In(L, k, t.x, t.c, t.r));
      LocateEqual(cmp, a, b, t.r, In(R, k, t.x, t.c, t.l));
    }
  }

  // ----- RB_INSERT -----

  function Insert(cmp: Cmp, t: Tree, x: Node): Tree {
    var f := Locate(cmp, x.key, t, Top);
    if f.t.Bin? then t else InsertFix(Bin(Leaf, x, Red, Leaf), f.k)
  }

  lemma EmptyInorder(k: Ctx)
    ensures Inorder(Plug(k, Leaf)) == Before(k) + After(k)
  {
    PlugInorder(k, Leaf);
    NilBetween(Before(k), After(k));
  }

  lemma NilBetween(a: seq<Node>, b: seq<Node>)
    ensures a + [] + b == a + b
  {
  }

  lemma LeafInorder(x: Node, k: Ctx)
    ensures Inorder(Plug(k, Bin(Leaf, x, Red, Leaf))) == Before(k) + [x] + After(k)
  {
    PlugInorder(k, Bin(Leaf, x, Red, Leaf));
    assert Inorder(Bin(Leaf, x, Red, Leaf)) == [x];
  }

  lemma InsertFresh(cmp: Cmp, t: Tree, x: Node)
    requires TotalOrder(cmp) && SearchTree(cmp, t)
    requires Locate(cmp, x.key, t, Top).t.Leaf?
    ensures SearchTree(cmp, Insert(cmp, t, x))
    ensures var k := Locate(cmp, x.key, t, Top).k;
            && Inorder(t) == Before(k) + After(k)
            && Inorder(Insert(cmp, t, x)) == Before(k) + [x] + After(k)
  {
    var k := Locate(cmp, x.key, t, Top).k;
    var leaf := Bin(Leaf, x, Red, Leaf);
    PlugRedBlack(k, Leaf);
    InsertFixRedBlack(leaf, k);
    InsertFixInorder(leaf, k);
    EmptyInorder(k);
    LeafInorder(x, k);
    LocateSplits(cmp, x.key, t, Top);
    SortedInsert(cmp, Before(k), x, After(k));
  }

  /** Inserting into a valid tree yields a valid tree. If an equal key is present
      nothing changes; otherwise the new node is added and no other one is. */
  lemma InsertCorrect(cmp: Cmp, t: Tree, x: Node)
    requires TotalOrder(cmp) && SearchTree(cmp, t)
    ensures SearchTree(cmp, Insert(cmp, t, x))
    ensures (exists y :: y in Inorder(t) && Equal(cmp, x.key, y.key)) ==> Insert(cmp, t, x) == t
    ensures Members(Inorder(Insert(cmp, t, x))) == ApplySet(cmp, Members(Inorder(t)), OpInsert(x))
  {
    var f := Locate(cmp, x.key, t, Top);
    LocateExact(cmp, x.key, t);
    if f.t.Bin? {
      var i := FocusIndex(f.t, f.k);
      assert f.t.x in Inorder(t);
    } else {
      InsertFresh(cmp, t, x);
      MembersInsert(Before(f.k), x, After(f.k));
    }
  }

  lemma FocusIndex(t: Tree, k: Ctx) returns (i: nat)
    requires t.Bin?
    ensures i < |Inorder(Plug(k, t))| && Inorder(Plug(k, t))[i] == t.x
  {
    FocusInorder(t, k);
    i := |Before(k)| + |Inorder(t.l)|;
  }

  /** Where a focused node stands in the whole sequence. */
  lemma FocusInorder(t: Tree, k: Ctx)
    requires t.Bin?
    ensures var s, i := Inorder(Plug(k, t)), |Before(k)| + |Inorder(t.l)|;
            && i < |s| && s[i] == t.x
            && s[..i] == Before(k) + Inorder(t.l)
            && s[i + 1..] == Inorder(t.r) + After(k)
  {
    PlugInorder(k, t);
    Around(Inorder(Plug(k, t)), Before(k), Inorder(t.l), t.x, Inorder(t.r), After(k));
  }

  lemma Around(s: seq<Node>, a: seq<Node>, l: seq<Node>, x: Node, r: seq<Node>, d: seq<Node>)
    requires s == a + (l + [x] + r) + d
    ensures var i := |a| + |l|;
            i < |s| && s[i] == x && s[..i] == a + l && s[i + 1..] == r + d
  {
    assert s == (a + l) + [x] + (r + d);
  }

  lemma RemovedFrom(s: seq<Node>, s': seq<Node>, a: seq<Node>, m: seq<Node>, d: seq<Node>,
                    l: seq<Node>, x: Node, r: seq<Node>) returns (i: nat)
    requires s == a + m + d && m == l + [x] + r && s' == a + (l + r) + d
    ensures i < |s| && s[i] == x && s' == Removed(s, i)
  {
    i := |a| + |l|;
    Around(s, a, l, x, r, d);
    assert a + (l + r) + d == (a + l) + (r + d);
  }

  // ----- RB_REMOVE -----

  /** The leftmost node of `t` with its right subtree. */
  function Leftmost(t: Tree): (m: Tree)
    requires t.Bin?
    ensures m.Bin? && m.l.Leaf?
  {
    if t.l.Leaf? then t else Leftmost(t.l)
  }

  /** The context of that node. */
  function Spine(t: Tree, k: Ctx): (k': Ctx)
    requires t.Bin?
    ensures Plug(k', Leftmost(t)) == Plug(k, t)
    decreases t
  {
    if t.l.Leaf? then k else Spine(t.l, In(L, k, t.x, t.c, t.r))
  }

  /** The tree without its leftmost node. */
  function WithoutLeftmost(t: Tree): Tree
    requires t.Bin?
  {
    if t.l.Leaf? then t.r else Bin(WithoutLeftmost(t.l), t.x, t.c, t.r)
  }

  lemma {:induction false} SpinePlug(t: Tree, k: Ctx)
    requires t.Bin?
    ensures Plug(Spine(t, k), Leftmost(t).r) == Plug(k, WithoutLeftmost(t))
    decreases t
  {
    if t.l.Bin? {
      SpinePlug(t.l, In(L, k, t.x, t.c, t.r));
    }
  }

  /** `child` takes the place of an unlinked node of colour `c`. */
  function Splice(child: Tree, k: Ctx, c: Color): Tree {
    if c == Black then RemoveFix(child, k) else Plug(k, child)
  }

  /** A node of colour `c` has been unlinked; `child` is in its place. */
  datatype Removal = Removal(child: Tree, k: Ctx, c: Color)

  /** The pointer work of RB_REMOVE on the root of `t` at `k`; a node with two
      children is replaced by its successor, relinked in its place. */
  function Unlinked(t: Tree, k: Ctx): Removal
    requires t.Bin?
  {
    if t.l.Leaf? then Removal(t.r, k, t.c)
    else if t.r.Leaf? then Removal(t.l, k, t.c)
    else
      var y := Leftmost(t.r);
      Removal(y.r, Spine(t.r, In(R, k, y.x, t.c, t.l)), y.c)
  }

  /** The tree that RB_REMOVE leaves. */
  function RemoveAt(t: Tree, k: Ctx): Tree
    requires t.Bin?
  {
    var r := Unlinked(t, k);
    Splice(r.child, r.k, r.c)
  }

  lemma {:induction false} LeftmostInorder(t: Tree)
    requires t.Bin?
    ensures Inorder(t) == [Leftmost(t).x] + Inorder(WithoutLeftmost(t))
  {
    if t.l.Bin? {
      LeftmostInorder(t.l);
      var y, rest := Leftmost(t).x, Inorder(WithoutLeftmost(t.l));
      assert ([y] + rest) + [t.x] + Inorder(t.r) == [y] + (rest + [t.x] + Inorder(t.r));
    } else {
      assert Inorder(t) == [t.x] + Inorder(t.r);
    }
  }

  /** The subtree at `t` once its root is unlinked. */
  function Rest(t: Tree): Tree
    requires t.Bin?
  {
    if t.l.Leaf? then t.r
    else if t.r.Leaf? then t.l
    else Bin(t.l, Leftmost(t.r).x, t.c, WithoutLeftmost(t.r))
  }

  lemma RestInorder(t: Tree)
    requires t.Bin?
    ensures Inorder(Rest(t)) == Inorder(t.l) + Inorder(t.r)
  {
    if t.l.Bin? && t.r.Bin? {
      LeftmostInorder(t.r);
    }
  }

  lemma UnlinkedPlug(t: Tree, k: Ctx)
    requires t.Bin?
    ensures var r := Unlinked(t, k); Plug(r.k, r.child) == Plug(k, Rest(t))
  {
    if t.l.Bin? && t.r.Bin? {
      SpinePlug(t.r, In(R, k, Leftmost(t.r).x, t.c, t.l));
    }
  }

  /** A node with two children is replaced by its in-order successor, which takes over its
      colour and its left subtree; the colour that leaves the tree is the successor's own. */
  lemma SuccessorReplaces(t: Tree, k: Ctx)
    requires t.Bin? && t.l.Bin? && t.r.Bin?
    ensures var r, t' := Unlinked(t, k), Rest(t);
            && Plug(r.k, r.child) == Plug(k, t') && t'.Bin?
            && t'.c == t.c && t'.l == t.l && [t'.x] + Inorder(t'.r) == Inorder(t.r)
            && r.c == Leftmost(t.r).c && Leftmost(t.r).x == t'.x
  {
    UnlinkedPlug(t, k);
    LeftmostInorder(t.r);
  }

  lemma RemoveAtInorder(t: Tree, k: Ctx)
    requires t.Bin?
    ensures Inorder(RemoveAt(t, k)) == Before(k) + (Inorder(t.l) + Inorder(t.r)) + After(k)
  {
    var r := Unlinked(t, k);
    UnlinkedPlug(t, k);
    RemoveFixInorder(r.child, r.k);
    RestInorder(t);
    PlugInorder(k, Rest(t));
  }

  lemma {:induction false} SpineAccepts(t: Tree, k: Ctx)
    requires t.Bin? && Balanced(t) && Accepts(k, BlackHeight(t), IsRed(t))
    ensures Balanced(Leftmost(t)) && Accepts(Spine(t, k), BlackHeight(Leftmost(t)), IsRed(Leftmost(t)))
    decreases t
  {
    if t.l.Bin? {
      SpineAccepts(t.l, In(L, k, t.x, t.c, t.r));
    }
  }

  /** A removal that recolouring can repair, or that needs none. */
  predicate Repairable(r: Removal) {
    if r.c == Black then Deficit(r.child, r.k)
    else Balanced(r.child) && Accepts(r.k, BlackHeight(r.child), IsRed(r.child))
  }

  lemma OnlyChildRepairable(t: Tree, k: Ctx, child: Tree)
    requires t.Bin? && Balanced(t) && Accepts(k, BlackHeight(t), IsRed(t))
    requires (t.l.Leaf? && child == t.r) || (t.r.Leaf? && child == t.l)
    ensures Repairable(Removal(child, k, t.c))
  {
  }

  /** Unlinking a node leaves one black missing at one place, or nothing to repair. */
  lemma UnlinkedDeficit(t: Tree, k: Ctx)
    requires t.Bin? && RedBlack(Plug(k, t))
    ensures Repairable(Unlinked(t, k))
  {
    PlugRedBlack(k, t);
    if t.l.Leaf? {
      OnlyChildRepairable(t, k, t.r);
    } else if t.r.Leaf? {
      OnlyChildRepairable(t, k, t.l);
    } else {
      var y := Leftmost(t.r);
      var k' := In(R, k, y.x, t.c, t.l);
      SpineAccepts(t.r, k');
      OnlyChildRepairable(y, Spine(t.r, k'), y.r);
    }
  }

  /** Removing any node of a valid tree leaves a valid tree. */
  lemma RemoveAtRedBlack(t: Tree, k: Ctx)
    requires t.Bin? && RedBlack(Plug(k, t))
    ensures RedBlack(RemoveAt(t, k))
  {
    var r := Unlinked(t, k);
    UnlinkedDeficit(t, k);
    if r.c == Black {
      RemoveFixRedBlack(r.child, r.k);
    } else {
      PlugRedBlack(r.k, r.child);
    }
  }

  lemma RemoveIndex(t: Tree, k: Ctx) returns (i: nat)
    requires t.Bin?
    ensures var s := Inorder(Plug(k, t));
            i < |s| && s[i] == t.x && Inorder(RemoveAt(t, k)) == Removed(s, i)
  {
    PlugInorder(k, t);
    RemoveAtInorder(t, k);
    i := RemovedFrom(Inorder(Plug(k, t)), Inorder(RemoveAt(t, k)), Before(k), Inorder(t), After(k),
                     Inorder(t.l), t.x, Inorder(t.r));
  }

  /** RB_REMOVE keeps the tree valid and takes one node out of the sequence. */
  lemma RemoveFocus(t: Tree, k: Ctx) returns (i: nat)
    requires t.Bin? && RedBlack(Plug(k, t))
    ensures RedBlack(RemoveAt(t, k))
    ensures var s := Inorder(Plug(k, t));
            i < |s| && s[i] == t.x && Inorder(RemoveAt(t, k)) == Removed(s, i)
  {
    RemoveAtRedBlack(t, k);
    i := RemoveIndex(t, k);
  }

  /** RB_FIND followed by RB_REMOVE of what it found. */
  function Remove(cmp: Cmp, t: Tree, key: Key): Tree {
    var f := Locate(cmp, key, t, Top);
    if f.t.Leaf? then t else RemoveAt(f.t, f.k)
  }

  lemma RemoveCorrect(cmp: Cmp, t: Tree, key: Key)
    requires TotalOrder(cmp) && SearchTree(cmp, t)
    ensures SearchTree(cmp, Remove(cmp, t, key))
    ensures forall i :: 0 <= i < |Inorder(t)| && Equal(cmp, key, Inorder(t)[i].key) ==>
              Inorder(Remove(cmp, t, key)) == Removed(Inorder(t), i)
    ensures Members(Inorder(Remove(cmp, t, key))) == ApplySet(cmp, Members(Inorder(t)), OpRemove(key))
  {
    var f := Locate(cmp, key, t, Top);
    if f.t.Bin? {
      var i := RemoveFocus(f.t, f.k);
      OnlyAt(cmp, key, Inorder(t), i);
      RemovedSet(cmp, key, Inorder(t), i);
    } else {
      LocateExact(cmp, key, t);
    }
  }

  // ----- height -----

  function Height(t: Tree): nat {
    if t.Leaf? then 0
    else 1 + if Height(t.l) > Height(t.r) then Height(t.l) else Height(t.r)
  }

  function Pow2(n: nat): nat {
    if n == 0 then 1 else 2 * Pow2(n - 1)
  }

  lemma {:induction false} BlackHeightBounds(t: Tree)
    requires Balanced(t)
    ensures Pow2(BlackHeight(t)) <= |Inorder(t)| + 1
    ensures Height(t) <= 2 * BlackHeight(t) + if IsRed(t) then 1 else 0
  {
    if t.Bin? {
      BlackHeightBounds(t.l);
      BlackHeightBounds(t.r);
    }
  }

  lemma {:induction false} Pow2Add(m: nat, n: nat)
    ensures Pow2(m + n) == Pow2(m) * Pow2(n)
  {
    if m > 0 { Pow2Add(m - 1, n); }
  }

  lemma {:induction false} Pow2Monotone(m: nat, n: nat)
    requires m <= n
    ensures Pow2(m) <= Pow2(n)
  {
    if m < n { Pow2Monotone(m, n - 1); }
  }

  lemma SquareMonotone(a: nat, b: nat)
    requires a <= b
    ensures a * a <= b * b
  {
    assert a * a <= a * b <= b * b;
  }

  function Square(n: nat): nat {
    n * n
  }

  /** At most 2 lg(n + 1), without logarithms. */
  predicate Logarithmic(h: nat, n: nat) {
    Pow2(h) <= Square(n + 1)
  }

  lemma LogarithmicBelow(g: nat, h: nat, n: nat)
    requires g <= h && Logarithmic(h, n)
    ensures Logarithmic(g, n)
  {
    Pow2Monotone(g, h);
  }

  /** The height of a red-black tree of n nodes is at most 2 lg(n + 1). */
  lemma HeightBound(t: Tree)
    requires RedBlack(t)
    ensures Logarithmic(Height(t), |Inorder(t)|)
  {
    var b := BlackHeight(t);
    var n := |Inorder(t)| + 1;
    BlackHeightBounds(t);
    Pow2Monotone(Height(t), b + b);
    Pow2Add(b, b);
    SquareMonotone(Pow2(b), n);
  }

  // ----- whole runs -----

  function Apply(cmp: Cmp, t: Tree, op: Op): Tree {
    match op
    case OpInsert(x) => Insert(cmp, t, x)
    case OpRemove(key) => Remove(cmp, t, key)
    case OpFind(_) => t
  }

  function Run(cmp: Cmp, ops: seq<Op>): Tree {
    if ops == [] then Leaf else Apply(cmp, Run(cmp, ops[..|ops| - 1]), ops[|ops| - 1])
  }

  lemma RunNext(cmp: Cmp, ops: seq<Op>, i: nat)
    requires i < |ops|
    ensures Run(cmp, ops[..i + 1]) == Apply(cmp, Run(cmp, ops[..i]), ops[i])
  {
    assert ops[..i + 1][..i] == ops[..i];
  }

  lemma ApplyAgrees(cmp: Cmp, t: Tree, op: Op)
    requires TotalOrder(cmp) && SearchTree(cmp, t)
    ensures SearchTree(cmp, Apply(cmp, t, op))
    ensures Members(Inorder(Apply(cmp, t, op))) == ApplySet(cmp, Members(Inorder(t)), op)
  {
    match op
    case OpInsert(x) => InsertCorrect(cmp, t, x);
    case OpRemove(key) => RemoveCorrect(cmp, t, key);
    case OpFind(_) =>
  }

  /** Every tree reachable from the empty one is a valid red-black search tree, of
      logarithmic height, and holds exactly the elements it should. */
  lemma {:induction false} RunCorrect(cmp: Cmp, ops: seq<Op>)
    requires TotalOrder(cmp)
    ensures SearchTree(cmp, Run(cmp, ops))
    ensures Members(Inorder(Run(cmp, ops))) == RunSet(cmp, ops)
    ensures Logarithmic(Height(Run(cmp, ops)), |Inorder(Run(cmp, ops))|)
  {
    if ops != [] {
      RunCorrect(cmp, ops[..|ops| - 1]);
      ApplyAgrees(cmp, Run(cmp, ops[..|ops| - 1]), ops[|ops| - 1]);
    }
    HeightBound(Run(cmp, ops));
  }
}

/**
  The red-black macros of utils/tree.h on linked nodes. Every operation is proved
  to turn the links of one tree shape into the links of the shape that RbSpec
  computes. Mirrored branches of the source are one branch with a side.
 */
module RbTree {
  import opened Order
  import opened Elements
  import opened RbShape
  import opened RbSpec
  import opened RbLinks

  function Get(s: Side, x: Node): Node?
    reads x`left, x`right
  {
    if s == L then x.left else x.right
  }

  /** A fresh insertion: what the recolouring starts from and what it ends in. */
  lemma InsertFreshNodes(cmp: Cmp, t: Tree, x: Node)
    requires TotalOrder(cmp) && SearchTree(cmp, t) && Locate(cmp, x.key, t, Top).t.Leaf?
    ensures InsertPending(Bin(Leaf, x, Red, Leaf), Locate(cmp, x.key, t, Top).k)
    ensures SearchTree(cmp, RbSpec.Insert(cmp, t, x)) && Nodes(RbSpec.Insert(cmp, t, x)) == Nodes(t) + {x}
  {
    var k := Locate(cmp, x.key, t, Top).k;
    PlugRedBlack(k, Leaf);
    InsertFresh(cmp, t, x);
    NodesInorder(t);
    NodesInorder(RbSpec.Insert(cmp, t, x));
    MembersInsert(Before(k), x, After(k));
  }

  /** Removing an element of the tree by the position that its key leads to. */
  lemma RemoveNodes(cmp: Cmp, t: Tree, x: Node)
    requires TotalOrder(cmp) && SearchTree(cmp, t) && x in Nodes(t) && Distinct(t)
    ensures var f := Locate(cmp, x.key, t, Top); f.t.Bin? && f.t.x == x
    ensures SearchTree(cmp, Remove(cmp, t, x.key)) && Nodes(Remove(cmp, t, x.key)) == Nodes(t) - {x}
  {
    NodesInorder(t);
    NodesInorder(Remove(cmp, t, x.key));
    LocateExact(cmp, x.key, t);
    var s := Inorder(t);
    var i :| 0 <= i < |s| && s[i] == x;
    RemoveCorrect(cmp, t, x.key);
    MembersWithout(cmp, s, i);
  }

  lemma ApplyNodes(cmp: Cmp, t: Tree, op: Op)
    requires TotalOrder(cmp) && SearchTree(cmp, t)
    ensures Nodes(Apply(cmp, t, op)) == ApplySet(cmp, Nodes(t), op)
  {
    ApplyAgrees(cmp, t, op);
    NodesInorder(t);
    NodesInorder(Apply(cmp, t, op));
  }

  /** Where the leftmost node of a subtree hangs. */
  lemma {:induction false} SpineNodes(t: Tree, k: Ctx, k': Ctx)
    requires t.Bin? && Distinct(t)
    ensures t.l.Leaf? ==> Spine(t, k) == k
    ensures t.l.Bin? ==> Par(Spine(t, k)) == Par(Spine(t, k')) && Par(Spine(t, k)) in Nodes(t)
    ensures Leftmost(t).x in Nodes(t) && Nodes(WithoutLeftmost(t)) == Nodes(t) - {Leftmost(t).x}
    decreases t
  {
    if t.l.Bin? {
      SpineNodes(t.l, In(L, k, t.x, t.c, t.r), In(L, k', t.x, t.c, t.r));
    }
  }

  lemma NotFound(cmp: Cmp, key: Key, t: Tree)
    requires TotalOrder(cmp) && Sorted(cmp, Inorder(t))
    ensures Locate(cmp, key, t, Top).t.Leaf? ==> forall y :: y in Nodes(t) ==> !Equal(cmp, key, y.key)
  {
    LocateExact(cmp, key, t);
    NodesInorder(t);
  }

  lemma StepsBound(t: Tree, steps: nat)
    requires RedBlack(t) && Distinct(t) && steps <= Height(t)
    ensures Logarithmic(steps, |Nodes(t)|)
  {
    HeightBound(t);
    LogarithmicBelow(steps, Height(t), |Inorder(t)|);
    NodesCount(t);
  }

  /** The descent leads to the i-th element, and what follows it in order is the rest of
      its subtree and then what follows the subtree. */
  lemma Successor(cmp: Cmp, t: Tree, i: nat)
    requires TotalOrder(cmp) && Sorted(cmp, Inorder(t)) && i < |Inorder(t)|
    ensures var f := Locate(cmp, Inorder(t)[i].key, t, Top);
            && f.t.Bin? && f.t.x == Inorder(t)[i]
            && Nth(Inorder(t), i + 1) == Nth(Inorder(f.t.r) + After(f.k), 0)
  {
    var s := Inorder(t);
    var f := Locate(cmp, s[i].key, t, Top);
    assert s[i] in s;
    LocateExact(cmp, s[i].key, t);
    FocusInorder(f.t, f.k);
    var j := |Before(f.k)| + |Inorder(f.t.l)|;
    OnlyAt(cmp, s[i].key, s, i);
    assert j == i;
    assert Nth(s, j + 1) == Nth(s[j + 1..], 0);
  }

  class Head {
    const cmp: Cmp
    var root: Node?

    ghost var all: set<Node>    // the elements of the tree
    ghost var tree: Tree        // its shape
    ghost var rotations: nat    // rotations done so far

    /** The entries of all elements. */
    ghost function H(): Links
      reads this`all
      reads all`left, all`right, all`parent, all`color
    {
      map x | x in all :: Cell(x.left, x.right, x.parent, x.color)
    }

    /** A valid red-black search tree with consistent links. */
    ghost predicate Valid()
      reads this
      reads all`left, all`right, all`parent, all`color
    {
      TotalOrder(cmp) && SearchTree(cmp, tree) && Holds(tree, Top) && Nodes(tree) == all
    }

    /** RB_INIT */
    constructor (cmp: Cmp)
      requires TotalOrder(cmp)
      ensures Valid() && all == {} && tree == Leaf && this.cmp == cmp
    {
      this.cmp := cmp;
      root := null;
      all, tree, rotations := {}, Leaf, 0;
    }

    ghost predicate Holds(t: Tree, k: Ctx)
      reads this`all, this`root
      reads all`left, all`right, all`parent, all`color
    {
      At(H(), root, t, k)
    }

    /** What the code reads at a focus. */
    lemma Fields(t: Tree, k: Ctx)
      requires Holds(t, k)
      ensures t.Bin? ==>
                && t.x in all && t.x.left == Root(t.l) && t.x.right == Root(t.r)
                && t.x.parent == Par(k) && t.x.color == t.c
      ensures k.In? ==>
                && k.x in all && k.x.parent == Par(k.up) && k.x.color == k.c
                && Get(k.side, k.x) == Root(t) && Get(Other(k.side), k.x) == Root(k.sib)
                && (t.Bin? || k.sib.Bin? ==> Root(t) != Root(k.sib))
                && (k.sib.Bin? ==>
                    && k.sib.x in all && k.sib.x.color == k.sib.c
                    && k.sib.x.left == Root(k.sib.l) && k.sib.x.right == Root(k.sib.r))
    {
      AtFocus(H(), root, t, k);
    }

    lemma Move(t: Tree, k: Ctx)
      requires k.In?
      ensures Holds(t, k) <==> Holds(Mk(k.side, t, k.x, k.c, k.sib), k.up)
    {
      Refocus(H(), root, t, k);
    }

    method SetColor(x: Node, c: Color, ghost t: Tree, ghost k: Ctx)
      requires Holds(t, k) && t.Bin? && t.x == x
      modifies all`color
      ensures Holds(Paint(t, c), k)
    {
      PaintAt(H(), root, t, k, c);
      x.color := c;
      assert H() == Recolored(old(H()), x, c);
    }

    method SetKidColor(ghost s: Side, x: Node, c: Color, ghost t: Tree, ghost k: Ctx)
      requires Holds(t, k) && t.Bin? && Kid(s, t).Bin? && Kid(s, t).x == x
      modifies all`color
      ensures Holds(Mk(s, Paint(Kid(s, t), c), t.x, t.c, Kid(Other(s), t)), k)
    {
      PaintKidAt(H(), root, t, k, s, c);
      x.color := c;
      assert H() == Recolored(old(H()), x, c);
    }

    /** RB_ROTATE_LEFT for `s == L`, RB_ROTATE_RIGHT for `s == R`: the pointers of
        elm, its child tmp, the moved grandchild b and the parent p. */
    method RotateLinks(s: Side, elm: Node, ghost b: Node?, ghost p: Node?) returns (tmp: Node)
      requires Get(Other(s), elm) != null && Get(Other(s), elm) != elm
      requires b == Get(s, Get(Other(s), elm)) && Opt(b) !! {elm, Get(Other(s), elm)}
      requires p == elm.parent && Opt(p) !! {elm, Get(Other(s), elm)} + Opt(b)
      requires p != null ==> (p.left == elm) != (p.right == elm)
      modifies this`root, this`rotations, elm`left, elm`right, elm`parent
      modifies Get(Other(s), elm)`left, Get(Other(s), elm)`right, Get(Other(s), elm)`parent
      modifies Opt(b)`parent, Opt(p)`left, Opt(p)`right
      ensures rotations == old(rotations) + 1 && tmp == old(Get(Other(s), elm))
      ensures Get(s, elm) == old(Get(s, elm)) && Get(Other(s), elm) == b && elm.parent == tmp
      ensures Get(s, tmp) == elm && Get(Other(s), tmp) == old(Get(Other(s), tmp)) && tmp.parent == p
      ensures b != null ==> b.parent == elm
      ensures p == null ==> root == tmp
      ensures p != null ==>
                && root == old(root)
                && p.left == (if old(p.left) == elm then tmp else old(p.left))
                && p.right == (if old(p.right) == elm then tmp else old(p.right))
    {
      rotations := rotations + 1;
      tmp := Get(Other(s), elm);
      var mid := Get(s, tmp);
      if s == L { elm.right := mid; } else { elm.left := mid; }
      if mid != null {
        mid.parent := elm;
      }
      tmp.parent := elm.parent;
      if tmp.parent != null {
        if elm == elm.parent.left {
          elm.parent.left := tmp;
        } else {
          elm.parent.right := tmp;
        }
      } else {
        root := tmp;
      }
      if s == L { tmp.left := elm; } else { tmp.right := elm; }
      elm.parent := tmp;
    }

    /** A rotation at the focus. */
    method Rotate(s: Side, elm: Node, ghost t: Tree, ghost k: Ctx) returns (tmp: Node)
      requires Holds(t, k) && t.Bin? && t.x == elm && Kid(Other(s), t).Bin?
      modifies this`root, this`rotations
      modifies all`left, all`right, all`parent, all`color
      ensures Holds(Rotated(s, t), k) && tmp == Kid(Other(s), t).x
      ensures rotations == old(rotations) + 1
    {
      RotateEntries(H(), root, s, t, k);
      tmp := RotateLinks(s, elm, Root(Kid(s, Kid(Other(s), t))), Par(k));
      RotateAt(old(H()), old(root), H(), root, s, t, k);
    }

    /** The red-uncle branch of RB_INSERT_COLOR. */
    method RecolorUncle(parent: Node, gparent: Node, uncle: Node, ghost t: Tree, ghost k: Ctx)
      requires Holds(t, k) && t.Bin? && RedParent(k) && IsRed(k.up.sib)
      requires parent == k.x && gparent == k.up.x && uncle == k.up.sib.x
      modifies all`color
      ensures Holds(InsertStep(t, k), k.up.up)
    {
      ghost var In(s, In(s2, up, _, gc, u), p, _, sib) := k;
      ghost var t1, u1 := Mk(s, t, p, Red, sib), Paint(u, Black);
      Move(t, k);
      Move(t1, k.up);
      SetKidColor(Other(s2), uncle, Black, Mk(s2, t1, gparent, gc, u), up);
      SetKidColor(s2, parent, Black, Mk(s2, t1, gparent, gc, u1), up);
      SetColor(gparent, Red, Mk(s2, Paint(t1, Black), gparent, gc, u1), up);
    }

    method RotateGrandparent(s2: Side, parent: Node, gparent: Node,
                             ghost a: Tree, ghost pc: Color, ghost d: Tree,
                             ghost gc: Color, ghost u: Tree, ghost up: Ctx)
      requires Holds(Mk(s2, Mk(s2, a, parent, pc, d), gparent, gc, u), up)
      modifies this`root, this`rotations
      modifies all`left, all`right, all`parent, all`color
      ensures Holds(Mk(s2, a, parent, Black, Mk(s2, d, gparent, Red, u)), up)
      ensures rotations == old(rotations) + 1
    {
      ghost var t1 := Mk(s2, a, parent, Black, d);
      SetKidColor(s2, parent, Black, Mk(s2, Mk(s2, a, parent, pc, d), gparent, gc, u), up);
      SetColor(gparent, Red, Mk(s2, t1, gparent, gc, u), up);
      ghost var t2 := Mk(s2, t1, gparent, Red, u);
      RotatedBack(s2, a, parent, Black, d, gparent, Red, u);
      var tmp := Rotate(Other(s2), gparent, t2, up);
    }

    /** The rotating branch of RB_INSERT_COLOR: afterwards the parent is black. */
    method RotateUncle(s2: Side, elm0: Node, parent0: Node, gparent: Node, ghost t: Tree, ghost k: Ctx)
      returns (elm: Node, ghost t': Tree, ghost k': Ctx)
      requires Holds(t, k) && t.Bin? && RedParent(k) && !IsRed(k.up.sib)
      requires elm0 == t.x && parent0 == k.x && gparent == k.up.x && s2 == k.up.side
      modifies this`root, this`rotations
      modifies all`left, all`right, all`parent, all`color
      ensures Holds(t', k') && t'.Bin? && t'.x == elm && k'.In? && k'.c == Black
      ensures Plug(k', t') == Plug(k.up.up, InsertStep(t, k)) && k'.up == k.up.up
      ensures rotations <= old(rotations) + 2
    {
      elm := elm0;
      var parent := parent0;
      ghost var In(s, In(_, up, g, gc, u), p, pc, sib) := k;
      ghost var t1, a, d := Mk(s, t, p, pc, sib), t, sib;
      Move(t, k);
      Fields(t, k);
      assert Get(s, p) == elm && Get(Other(s), p) == Root(sib) && Root(sib) != elm;
      var tmp;
      if Get(Other(s2), parent) == elm {
        tmp := Rotate(s2, parent, t1, k.up);
        a, d := Mk(s2, sib, p, pc, Kid(s2, t)), Kid(s, t);
        t1 := Rotated(s2, t1);
        tmp := parent;
        parent := elm;
        elm := tmp;
      }
      assert t1 == Mk(s2, a, parent, t1.c, d);
      Move(t1, k.up);
      RotateGrandparent(s2, parent, gparent, a, t1.c, d, gc, u, up);
      t', k' := a, In(s2, up, parent, Black, Mk(s2, d, gparent, Red, u));
      Move(t', k');
    }

    method BlackenRoot(ghost t: Tree, ghost k: Ctx)
      requires Holds(t, k) && t.Bin?
      modifies all`color
      ensures Holds(Paint(Plug(k, t), Black), Top)
    {
      PlugAt(H(), root, t, k);
      SetColor(root, Black, Plug(k, t), Top);
    }

    /** One iteration of RB_INSERT_COLOR. */
    method InsertIteration(elm0: Node, ghost t: Tree, ghost k: Ctx) returns (elm: Node, ghost t': Tree, ghost k': Ctx)
      requires Holds(t, k) && t.Bin? && t.x == elm0 && RedParent(k)
      modifies this`root, this`rotations
      modifies all`left, all`right, all`parent, all`color
      ensures Holds(t', k') && t'.Bin? && t'.x == elm
      ensures InsertMove(t, k, t', k')
      ensures rotations <= old(rotations) + if IsRed(k.up.sib) then 0 else 2
    {
      Fields(t, k);
      Move(t, k);
      Fields(Mk(k.side, t, k.x, k.c, k.sib), k.up);
      var parent := elm0.parent;
      var gparent := parent.parent;
      var s2 := if parent == gparent.left then L else R;
      var tmp := Get(Other(s2), gparent);
      if tmp != null && tmp.color == Red {
        RecolorUncle(parent, gparent, tmp, t, k);
        elm, t', k' := gparent, InsertStep(t, k), k.up.up;
      } else {
        elm, t', k' := RotateUncle(s2, elm0, parent, gparent, t, k);
      }
    }

    /** RB_INSERT_COLOR: the links become those of `InsertFix`, with at most two
        rotations. The grandparent is never NULL. */
    method InsertColor(elm0: Node, ghost t0: Tree, ghost k0: Ctx)
      requires Holds(t0, k0) && InsertPending(t0, k0) && t0.x == elm0
      modifies this`root, this`rotations
      modifies all`left, all`right, all`parent, all`color
      ensures Holds(InsertFix(t0, k0), Top)
      ensures rotations <= old(rotations) + 2
    {
      var elm := elm0;
      ghost var t, k := t0, k0;
      Fields(t, k);
      while elm.parent != null && elm.parent.color == Red
        invariant t.Bin? && t.x == elm && Holds(t, k)
        invariant elm.parent == Par(k) && (k.In? ==> k.x.color == k.c)
        invariant InsertFix(t, k) == InsertFix(t0, k0)
        invariant InsertPending(t, k) || BlackParent(k)
        invariant rotations <= old(rotations) + if BlackParent(k) then 2 else 0
        decreases Depth(k)
      {
        PendingGrandparent(t, k);
        ghost var t1, k1 := t, k;
        elm, t, k := InsertIteration(elm, t, k);
        InsertProgress(t1, k1, t, k);
        Fields(t, k);
      }
      BlackenRoot(t, k);
    }

    // ----- RB_REMOVE_COLOR -----

    /** The red-sibling rotation: afterwards the parent is red. */
    method RotateSibling(s: Side, parent: Node, tmp: Node, ghost t: Tree, ghost k: Ctx)
      requires Holds(t, k) && k.In? && IsRed(k.sib) && parent == k.x && tmp == k.sib.x && s == k.side
      modifies this`root, this`rotations
      modifies all`left, all`right, all`parent, all`color
      ensures Holds(t, BlackSibling(k))
      ensures rotations == old(rotations) + 1
    {
      ghost var w := k.sib;
      Move(t, k);
      SetKidColor(Other(s), tmp, Black, Mk(s, t, parent, k.c, w), k.up);
      SetColor(parent, Red, Mk(s, t, parent, k.c, Paint(w, Black)), k.up);
      var tmp' := Rotate(s, parent, Mk(s, t, parent, Red, Paint(w, Black)), k.up);
      ghost var k1 := BlackSibling(k);
      Move(Mk(s, t, parent, Red, Kid(s, w)), k1.up);
      Move(t, k1);
    }

    /** The near child of the sibling moves up between parent and sibling. */
    method RotateNear(s: Side, parent: Node, tmp0: Node, ghost t: Tree, ghost k: Ctx)
      returns (tmp: Node, ghost w': Tree)
      requires Holds(t, k) && k.In? && k.sib.Bin? && parent == k.x && tmp0 == k.sib.x && s == k.side
      requires IsRed(Kid(s, k.sib))
      modifies this`root, this`rotations
      modifies all`left, all`right, all`parent, all`color
      ensures var near, far := Kid(s, k.sib), Kid(Other(s), k.sib);
              w' == Mk(s, Kid(s, near), near.x, Black, Mk(s, Kid(Other(s), near), tmp0, Red, far))
      ensures Holds(t, k.(sib := w')) && tmp == w'.x && rotations == old(rotations) + 1
    {
      ghost var In(_, up, p, pc, w) := k;
      ghost var o := Other(s);
      ghost var kw := In(o, up, p, pc, t);
      ghost var near, far := Kid(s, w), Kid(o, w);
      Move(t, k);
      Move(w, kw);
      Fields(w, kw);
      var oleft := Get(s, tmp0);
      if oleft != null {
        SetKidColor(s, oleft, Black, w, kw);
      }
      ghost var w1 := Mk(s, Paint(near, Black), tmp0, w.c, far);
      SetColor(tmp0, Red, w1, kw);
      oleft := Rotate(Other(s), tmp0, Paint(w1, Red), kw);
      w' := Rotated(o, Paint(w1, Red));
      Move(w', kw);
      Move(t, k.(sib := w'));
      Fields(t, k.(sib := w'));
      tmp := Get(Other(s), parent);
    }

    /** The rotation that ends the loop: the sibling takes the parent's place. */
    method RotateParent(s: Side, parent: Node, tmp0: Node, ghost t: Tree, ghost k: Ctx)
      requires Holds(t, k) && k.In? && k.sib.Bin? && parent == k.x && tmp0 == k.sib.x && s == k.side
      requires Kid(Other(s), k.sib).Bin?
      modifies this`root, this`rotations
      modifies all`left, all`right, all`parent, all`color
      ensures var near, far := Kid(s, k.sib), Kid(Other(s), k.sib);
              Holds(Mk(s, Mk(s, t, parent, Black, near), tmp0, k.c, Paint(far, Black)), k.up)
      ensures rotations == old(rotations) + 1
    {
      ghost var In(_, up, _, pc, w) := k;
      ghost var o := Other(s);
      ghost var near, far := Kid(s, w), Kid(o, w);
      Move(t, k);
      Fields(t, k);
      SetKidColor(o, tmp0, parent.color, Mk(s, t, parent, pc, w), up);
      ghost var w2 := Paint(w, pc);
      SetColor(parent, Black, Mk(s, t, parent, pc, w2), up);
      ghost var kw := In(o, up, parent, Black, t);
      Move(w2, kw);
      Fields(w2, kw);
      var tmp := Get(Other(s), tmp0);
      if tmp != null {
        SetKidColor(o, tmp, Black, w2, kw);
      }
      ghost var w3 := Mk(s, near, tmp0, pc, Paint(far, Black));
      Move(w3, kw);
      tmp := Rotate(s, parent, Mk(s, t, parent, Black, w3), up);
    }

    /** A sibling with a red child: one or two rotations supply the missing black. */
    method Restore(s: Side, parent: Node, tmp0: Node, ghost t: Tree, ghost k: Ctx)
      requires Holds(t, k) && k.In? && k.sib.Bin? && parent == k.x && tmp0 == k.sib.x && s == k.side
      requires IsRed(k.sib.l) || IsRed(k.sib.r)
      modifies this`root, this`rotations
      modifies all`left, all`right, all`parent, all`color
      ensures Holds(Restored(s, t, k.x, k.c, k.sib), k.up)
      ensures rotations <= old(rotations) + 2
    {
      var tmp := tmp0;
      ghost var w := k.sib;
      SiblingFields(t, k);
      var far := Get(Other(s), tmp);
      if far == null || far.color == Black {
        tmp, w := RotateNear(s, parent, tmp, t, k);
      }
      RotateParent(s, parent, tmp, t, k.(sib := w));
    }

    lemma SiblingFields(t: Tree, k: Ctx)
      requires Holds(t, k) && k.In? && k.sib.Bin?
      ensures var w := k.sib;
              && w.x in all && w.x.left == Root(w.l) && w.x.right == Root(w.r)
              && (w.l.Bin? ==> w.l.x in all && w.l.x.color == w.l.c)
              && (w.r.Bin? ==> w.r.x in all && w.r.x.color == w.r.c)
    {
      assert Linked(H(), k.sib, k.x);
      assert Linked(H(), k.sib.l, k.sib.x) && Linked(H(), k.sib.r, k.sib.x);
    }

    /** A sibling with no red child: it turns red and the deficit moves up. */
    method RecolorSibling(s: Side, tmp: Node, ghost t: Tree, ghost k: Ctx)
      requires Holds(t, k) && k.In? && k.sib.Bin? && tmp == k.sib.x && s == k.side
      modifies all`color
      ensures Holds(Mk(s, t, k.x, k.c, Paint(k.sib, Red)), k.up)
    {
      Move(t, k);
      SetKidColor(Other(s), tmp, Red, Mk(s, t, k.x, k.c, k.sib), k.up);
    }

    /** The part of an iteration that follows the red-sibling rotation. `last` says
        that the loop breaks. */
    method RepairIteration(s: Side, parent0: Node, tmp: Node, ghost t: Tree, ghost k: Ctx)
      returns (parent: Node?, elm: Node?, last: bool, ghost t': Tree, ghost k': Ctx)
      requires Holds(t, k) && k.In? && parent0 == k.x && k.sib.Bin? && tmp == k.sib.x && s == k.side
      modifies this`root, this`rotations
      modifies all`left, all`right, all`parent, all`color
      ensures Holds(t', k') && parent == Par(k') && elm == Root(t')
      ensures last == (IsRed(k.sib.l) || IsRed(k.sib.r))
      ensures last ==>
                && k'.Top? && t' == Plug(k.up, Restored(s, t, k.x, k.c, k.sib))
                && rotations <= old(rotations) + 2
      ensures !last ==>
                && k' == k.up && t' == Mk(s, t, k.x, k.c, Paint(k.sib, Red))
                && rotations == old(rotations)
    {
      SiblingFields(t, k);
      if (tmp.left == null || tmp.left.color == Black) && (tmp.right == null || tmp.right.color == Black) {
        RecolorSibling(s, tmp, t, k);
        t', k' := Mk(s, t, k.x, k.c, Paint(k.sib, Red)), k.up;
        Fields(t', k');
        elm := parent0;
        parent := elm.parent;
        last := false;
      } else {
        Restore(s, parent0, tmp, t, k);
        t', k' := Plug(k.up, Restored(s, t, k.x, k.c, k.sib)), Top;
        PlugAt(H(), root, Restored(s, t, k.x, k.c, k.sib), k.up);
        elm := root;
        parent := null;
        last := true;
      }
    }

    /** One iteration of RB_REMOVE_COLOR; the sibling is never NULL. */
    method RemoveIteration(parent0: Node, elm0: Node?, ghost t: Tree, ghost k0: Ctx)
      returns (parent: Node?, elm: Node?, last: bool, ghost t': Tree, ghost k': Ctx)
      requires Holds(t, k0) && Deficit(t, k0) && k0.In? && !IsRed(t)
      requires parent0 == k0.x && elm0 == Root(t)
      modifies this`root, this`rotations
      modifies all`left, all`right, all`parent, all`color
      ensures Holds(t', k') && RemoveFix(t', k') == RemoveFix(t, k0)
      ensures parent == Par(k') && elm == Root(t')
      ensures last ==> k'.Top? && rotations <= old(rotations) + 3
      ensures !last ==>
                && Deficit(t', k')
                && (Depth(k') < Depth(k0) || (Depth(k') == Depth(k0) && IsRed(t')))
                && rotations <= old(rotations) + if IsRed(t') then 1 else 0
    {
      ghost var k := k0;
      DeficitSibling(t, k0);
      Fields(t, k);
      var s := if parent0.left == elm0 then L else R;
      var tmp := Get(Other(s), parent0);
      if tmp.color == Red {
        RotateSibling(s, parent0, tmp, t, k0);
        k := BlackSibling(k0);
        BlackSiblingDeficit(t, k0);
        Fields(t, k);
        tmp := Get(Other(s), parent0);
      }
      parent, elm, last, t', k' := RepairIteration(s, parent0, tmp, t, k);
      RepairProgress(t, k);
    }

    /** RB_REMOVE_COLOR: the links become those of `RemoveFix`, with at most three
        rotations. */
    method RemoveColor(parent0: Node?, elm0: Node?, ghost t0: Tree, ghost k0: Ctx)
      requires Holds(t0, k0) && Deficit(t0, k0) && parent0 == Par(k0) && elm0 == Root(t0)
      modifies this`root, this`rotations
      modifies all`left, all`right, all`parent, all`color
      ensures Holds(RemoveFix(t0, k0), Top)
      ensures rotations <= old(rotations) + 3
    {
      var parent, elm := parent0, elm0;
      ghost var t, k := t0, k0;
      FocusIsRoot(t, k);
      Fields(t, k);
      while (elm == null || elm.color == Black) && elm != root
        invariant Holds(t, k) && Deficit(t, k) && parent == Par(k) && elm == Root(t)
        invariant elm == root <==> k.Top?
        invariant elm != null ==> elm.color == t.c
        invariant RemoveFix(t, k) == RemoveFix(t0, k0)
        invariant rotations <= old(rotations) + if IsRed(t) then 1 else 0
        decreases Depth(k), if IsRed(t) then 0 else 1
      {
        var last;
        parent, elm, last, t, k := RemoveIteration(parent, elm, t, k);
        FocusIsRoot(t, k);
        Fields(t, k);
        if last { break; }
      }
      if elm != null {
        SetColor(elm, Black, t, k);
      }
      PlugAt(H(), root, Paint(t, Black), k);
    }

    lemma FocusIsRoot(t: Tree, k: Ctx)
      requires Holds(t, k)
      ensures root == Root(t) <==> k.Top?
    {
      if k.In? { CtxRootIn(k, Root(t)); }
    }

    // ----- RB_INSERT and RB_REMOVE -----

    /** RB_SET and the pointer to the new element. */
    method Link(elm: Node, parent: Node?, comp: int, ghost k: Ctx)
      requires Holds(Leaf, k) && parent == Par(k) && elm !in all
      requires k.In? ==> comp != 0 && (comp < 0 <==> k.side == L)
      modifies this`root, this`all
      modifies all`left, all`right, all`parent, all`color
      modifies elm`left, elm`right, elm`parent, elm`color
      ensures all == old(all) + {elm} && Holds(Bin(Leaf, elm, Red, Leaf), k)
    {
      Fields(Leaf, k);
      Inside(Leaf, k);
      elm.parent := parent;
      elm.left, elm.right := null, null;
      elm.color := Red;
      all := all + {elm};
      if parent != null {
        if comp < 0 {
          parent.left := elm;
        } else {
          parent.right := elm;
        }
      } else {
        root := elm;
      }
      LinkAt(old(H()), old(root), H(), root, k, elm);
    }

    lemma Inside(t: Tree, k: Ctx)
      requires Holds(t, k)
      ensures Nodes(t) + CtxNodes(k) <= all
    {
      LinkedNodes(H(), t, Par(k));
      LinkedCtxNodes(H(), k, Root(t));
    }

    /** Where the descent finds no equal key, the element is not in the tree. */
    lemma ElementIsNew(elm: Node)
      requires Valid() && Locate(cmp, elm.key, tree, Top).t.Leaf?
      ensures elm !in all && forall y :: y in all ==> !Equal(cmp, elm.key, y.key)
    {
      LocateExact(cmp, elm.key, tree);
      NodesInorder(tree);
    }

    /** The descent of RB_INSERT: `tmp` is the node with an equal key, if any. */
    method Descend(key: Key) returns (tmp: Node?, parent: Node?, comp: int, ghost t: Tree, ghost k: Ctx)
      requires Valid()
      ensures Holds(t, k) && RbSpec.Focus(t, k) == Locate(cmp, key, tree, Top)
      ensures tmp == Root(Locate(cmp, key, tree, Top).t) && parent == Par(Locate(cmp, key, tree, Top).k)
      ensures t.Leaf? && k.In? ==> comp != 0 && (comp < 0 <==> k.side == L)
    {
      tmp := root;
      parent := null;
      comp := 0;
      t, k := tree, Top;
      while tmp != null
        invariant Holds(t, k) && tmp == Root(t) && parent == Par(k)
        invariant Locate(cmp, key, t, k) == Locate(cmp, key, tree, Top)
        invariant k.In? ==> comp != 0 && (comp < 0 <==> k.side == L)
        decreases t
      {
        Fields(t, k);
        comp := cmp(key, tmp.key);
        if comp == 0 {
          return;
        }
        parent := tmp;
        var s := if comp < 0 then L else R;
        tmp := Get(s, tmp);
        k := In(s, k, t.x, t.c, Kid(Other(s), t));
        t := Kid(s, t);
        Move(t, k);
      }
    }

    /** RB_INSERT. An element with an equal key is returned and nothing changes;
        otherwise the new element is linked in and the tree rebalanced. */
    method Insert(elm: Node) returns (r: Node?)
      requires Valid()
      modifies this`root, this`all, this`tree, this`rotations
      modifies all`left, all`right, all`parent, all`color
      modifies elm`left, elm`right, elm`parent, elm`color
      ensures Valid() && tree == RbSpec.Insert(cmp, old(tree), elm)
      ensures r != null ==>
                r in all && Equal(cmp, elm.key, r.key) && unchanged(this) && unchanged(elm) && H() == old(H())
      ensures r == null ==> elm !in old(all) && all == old(all) + {elm}
      ensures r != null <==> exists y :: y in old(all) && Equal(cmp, elm.key, y.key)
      ensures rotations <= old(rotations) + 2
    {
      var tmp, parent, comp; ghost var t, k;
      tmp, parent, comp, t, k := Descend(elm.key);
      if tmp != null {
        Fields(t, k);
        return tmp;
      }
      ElementIsNew(elm);
      InsertAt(elm, parent, comp, k);
      r := null;
    }

    method InsertAt(elm: Node, parent: Node?, comp: int, ghost k: Ctx)
      requires Valid() && Holds(Leaf, k) && parent == Par(k) && elm !in all
      requires RbSpec.Focus(Leaf, k) == Locate(cmp, elm.key, tree, Top)
      requires k.In? ==> comp != 0 && (comp < 0 <==> k.side == L)
      modifies this`root, this`all, this`tree, this`rotations
      modifies all`left, all`right, all`parent, all`color
      modifies elm`left, elm`right, elm`parent, elm`color
      ensures Valid() && tree == RbSpec.Insert(cmp, old(tree), elm) && all == old(all) + {elm}
      ensures rotations <= old(rotations) + 2
    {
      Link(elm, parent, comp, k);
      InsertFreshNodes(cmp, tree, elm);
      tree := InsertFix(Bin(Leaf, elm, Red, Leaf), k);
      InsertColor(elm, Bin(Leaf, elm, Red, Leaf), k);
    }

    /** `child` takes the place of `elm`, which has no other child. */
    method Unlink(elm: Node, child: Node?, parent: Node?, ghost t: Tree, ghost k: Ctx)
      requires Holds(t, k) && t.Bin? && t.x == elm && (t.l.Leaf? || t.r.Leaf?)
      requires child == Root(Only(t)) && parent == Par(k)
      modifies this`root
      modifies all`left, all`right, all`parent, all`color
      ensures Holds(Only(t), k) && elm.parent == old(elm.parent)
    {
      UnlinkEntries(H(), root, t, k);
      Fields(t, k);
      if child != null {
        child.parent := parent;
      }
      if parent != null {
        if parent.left == elm {
          parent.left := child;
        } else {
          parent.right := child;
        }
      } else {
        root := child;
      }
      UnlinkAt(old(H()), old(root), H(), root, t, k);
    }

    /** `elm` takes over the entry of `old0` and every pointer to it. */
    method ReplaceLinks(old0: Node, elm: Node)
      requires old0.left != null && elm !in {old0, old0.left, old0.right, old0.parent}
      requires old0.left !in {old0, old0.right, old0.parent} && old0 !in {old0.right, old0.parent}
      requires old0.right != null ==> old0.right != old0.parent
      requires old0.parent != null ==> (old0.parent.left == old0) != (old0.parent.right == old0)
      modifies this`root, old0.left`parent, Opt(old0.right)`parent, Opt(old0.parent)`left, Opt(old0.parent)`right
      modifies elm`left, elm`right, elm`parent, elm`color
      ensures elm.left == old0.left && elm.right == old0.right && elm.parent == old0.parent && elm.color == old0.color
      ensures old0.left.parent == elm && (old0.right != null ==> old0.right.parent == elm)
      ensures old0.parent == null ==> root == elm
      ensures old0.parent != null ==>
                var p := old0.parent;
                && root == old(root)
                && p.left == (if old(p.left) == old0 then elm else old(p.left))
                && p.right == (if old(p.right) == old0 then elm else old(p.right))
    {
      elm.left, elm.right, elm.parent, elm.color := old0.left, old0.right, old0.parent, old0.color;
      if old0.parent != null {
        if old0.parent.left == old0 {
          old0.parent.left := elm;
        } else {
          old0.parent.right := elm;
        }
      } else {
        root := elm;
      }
      old0.left.parent := elm;
      if old0.right != null {
        old0.right.parent := elm;
      }
    }

    /** `elm`, already unlinked, takes the place of the focused `old0`. */
    method Replace(old0: Node, elm: Node, ghost t: Tree, ghost k: Ctx)
      requires Holds(t, k) && t.Bin? && t.x == old0 && t.l.Bin?
      requires elm in all && elm !in Nodes(t) + CtxNodes(k)
      modifies this`root
      modifies all`left, all`right, all`parent, all`color
      ensures Holds(Bin(t.l, elm, t.c, t.r), k)
    {
      ReplaceEntries(H(), root, t, k);
      Fields(t, k);
      ReplaceLinks(old0, elm);
      ReplaceAt(old(H()), old(root), H(), root, t, k, elm);
    }

    /** The successor of `old0` is unlinked from the right subtree. */
    method UnlinkSuccessor(old0: Node, ghost t: Tree, ghost k: Ctx)
      returns (elm: Node, parent: Node?, child: Node?, color: Color)
      requires Holds(t, k) && t.Bin? && t.x == old0 && t.l.Bin? && t.r.Bin?
      modifies this`root
      modifies all`left, all`right, all`parent, all`color
      ensures Holds(Bin(t.l, old0, t.c, WithoutLeftmost(t.r)), k)
      ensures elm == Leftmost(t.r).x && child == Root(Leftmost(t.r).r) && color == Leftmost(t.r).c
      ensures parent == if t.r.l.Leaf? then elm else Par(Spine(t.r, k))
    {
      ghost var k0, y := In(R, k, old0, t.c, t.l), Leftmost(t.r);
      ghost var ky := Spine(t.r, k0);
      Fields(t, k);
      Move(t.r, k0);
      SpineNodes(t.r, k0, k);
      elm := LeftmostOf(old0.right, t.r, k0);
      Fields(y, ky);
      child := elm.right;
      parent := elm.parent;
      color := elm.color;
      Unlink(elm, child, parent, y, ky);
      if elm.parent == old0 {
        parent := elm;
      }
      SpinePlug(t.r, k0);
      PlugAt(H(), root, y.r, ky);
      PlugAt(H(), root, Bin(t.l, old0, t.c, WithoutLeftmost(t.r)), k);
    }

    /** The two-children case of RB_REMOVE. */
    method RemoveTwo(old0: Node, ghost t: Tree, ghost k: Ctx) returns (parent: Node?, child: Node?, color: Color)
      requires Holds(t, k) && t.Bin? && t.x == old0 && t.l.Bin? && t.r.Bin?
      modifies this`root
      modifies all`left, all`right, all`parent, all`color
      ensures var r := Unlinked(t, k);
              Holds(r.child, r.k) && parent == Par(r.k) && child == Root(r.child) && color == r.c
    {
      ghost var y := Leftmost(t.r);
      ghost var k1 := In(R, k, y.x, t.c, t.l);
      Inside(t, k);
      SpineNodes(t.r, k, k1);
      var elm;
      elm, parent, child, color := UnlinkSuccessor(old0, t, k);
      Replace(old0, elm, Bin(t.l, old0, t.c, WithoutLeftmost(t.r)), k);
      SpinePlug(t.r, k1);
      PlugAt(H(), root, Bin(t.l, elm, t.c, WithoutLeftmost(t.r)), k);
      PlugAt(H(), root, y.r, Spine(t.r, k1));
    }

    method LeftmostOf(elm0: Node, ghost t0: Tree, ghost k0: Ctx) returns (elm: Node)
      requires Holds(t0, k0) && t0.Bin? && t0.x == elm0
      ensures elm == Leftmost(t0).x && Holds(Leftmost(t0), Spine(t0, k0))
    {
      elm := elm0;
      ghost var t, k := t0, k0;
      Fields(t, k);
      while elm.left != null
        invariant Holds(t, k) && t.Bin? && t.x == elm && elm.left == Root(t.l)
        invariant Leftmost(t) == Leftmost(t0) && Spine(t, k) == Spine(t0, k0)
        decreases t
      {
        elm := elm.left;
        k, t := In(L, k, t.x, t.c, t.r), t.l;
        Move(t, k);
        Fields(t, k);
      }
    }

    /** RB_REMOVE: the removed element leaves the tree and no other one does. */
    method Remove(elm: Node)
      requires Valid() && elm in all
      modifies this`root, this`all, this`tree, this`rotations
      modifies all`left, all`right, all`parent, all`color
      ensures Valid() && tree == RbSpec.Remove(cmp, old(tree), elm.key)
      ensures all == old(all) - {elm}
      ensures rotations <= old(rotations) + 3
    {
      ghost var f := Locate(cmp, elm.key, tree, Top);
      RemoveNodes(cmp, tree, elm);
      PlugAt(H(), root, f.t, f.k);
      tree := RemoveAt(f.t, f.k);
      RemoveFocused(elm, f.t, f.k);
      Forget(elm);
    }

    method RemoveFocused(elm: Node, ghost t: Tree, ghost k: Ctx)
      requires Holds(t, k) && t.Bin? && t.x == elm && RedBlack(Plug(k, t))
      modifies this`root, this`rotations
      modifies all`left, all`right, all`parent, all`color
      ensures Holds(RemoveAt(t, k), Top)
      ensures rotations <= old(rotations) + 3
    {
      UnlinkedDeficit(t, k);
      var parent, child, color := UnlinkElement(elm, t, k);
      Recolor(parent, child, color, Unlinked(t, k));
    }

    method Recolor(parent: Node?, child: Node?, color: Color, ghost r: Removal)
      requires Holds(r.child, r.k) && parent == Par(r.k) && child == Root(r.child) && color == r.c
      requires r.c == Black ==> Deficit(r.child, r.k)
      modifies this`root, this`rotations
      modifies all`left, all`right, all`parent, all`color
      ensures Holds(Splice(r.child, r.k, r.c), Top)
      ensures rotations <= old(rotations) + 3
    {
      PlugAt(H(), root, r.child, r.k);
      if color == Black {
        RemoveColor(parent, child, r.child, r.k);
      }
    }

    /** The pointer work of RB_REMOVE, before any recolouring. */
    method UnlinkElement(elm: Node, ghost t: Tree, ghost k: Ctx) returns (parent: Node?, child: Node?, color: Color)
      requires Holds(t, k) && t.Bin? && t.x == elm
      modifies this`root
      modifies all`left, all`right, all`parent, all`color
      ensures var r := Unlinked(t, k);
              Holds(r.child, r.k) && parent == Par(r.k) && child == Root(r.child) && color == r.c
    {
      Fields(t, k);
      if elm.left == null {
        child := elm.right;
      } else if elm.right == null {
        child := elm.left;
      } else {
        parent, child, color := RemoveTwo(elm, t, k);
        return;
      }
      parent := elm.parent;
      color := elm.color;
      Unlink(elm, child, parent, t, k);
    }

    ghost method Forget(elm: Node)
      requires Holds(tree, Top) && Nodes(tree) == all - {elm}
      modifies this`all
      ensures Holds(tree, Top) && all == old(all) - {elm}
    {
      all := all - {elm};
      KeepLinked(old(H()), H(), {elm}, tree, null);
    }

    // ----- reading the tree -----

    /** RB_FIND: finds an equal key iff there is one, in at most 2 lg(n + 1) steps. */
    method Find(key: Key) returns (r: Node?, ghost steps: nat)
      requires Valid()
      ensures r != null ==> r in all && Equal(cmp, key, r.key)
      ensures r == null ==> forall y :: y in all ==> !Equal(cmp, key, y.key)
      ensures Logarithmic(steps, |all|)
    {
      r, steps := FindLoop(key);
      NotFound(cmp, key, tree);
      StepsBound(tree, steps);
    }

    /** The loop of RB_FIND follows the descent and takes at most one step a level. */
    method FindLoop(key: Key) returns (r: Node?, ghost steps: nat)
      requires Valid()
      ensures r == Root(Locate(cmp, key, tree, Top).t) && steps <= Height(tree)
      ensures r != null ==> r in all && Equal(cmp, key, r.key)
    {
      r := root;
      steps := 0;
      ghost var t, k := tree, Top;
      while r != null
        invariant Holds(t, k) && r == Root(t) && steps + Height(t) <= Height(tree)
        invariant Locate(cmp, key, t, k) == Locate(cmp, key, tree, Top)
        decreases t
      {
        Fields(t, k);
        steps := steps + 1;
        var comp := cmp(key, r.key);
        if comp == 0 {
          return;
        }
        var s := if comp < 0 then L else R;
        r := Get(s, r);
        k := In(s, k, t.x, t.c, Kid(Other(s), t));
        t := Kid(s, t);
        Move(t, k);
      }
    }

    /** RB_NEXT of the i-th element: its in-order successor, below or above it. */
    method Next(elm0: Node, ghost i: nat) returns (elm: Node?)
      requires Valid() && i < |Inorder(tree)| && Inorder(tree)[i] == elm0
      ensures elm == Nth(Inorder(tree), i + 1)
    {
      ghost var f := Locate(cmp, elm0.key, tree, Top);
      Successor(cmp, tree, i);
      PlugAt(H(), root, f.t, f.k);
      Fields(f.t, f.k);
      if elm0.right != null {
        ghost var k := In(R, f.k, f.t.x, f.t.c, f.t.l);
        Move(f.t.r, k);
        elm := LeftmostOf(elm0.right, f.t.r, k);
        LeftmostInorder(f.t.r);
      } else {
        elm := ClimbNext(elm0, f.t, f.k);
      }
    }

    /** The parent-climbing branch of RB_NEXT. */
    method ClimbNext(elm0: Node, ghost t0: Tree, ghost k0: Ctx) returns (elm: Node?)
      requires Holds(t0, k0) && t0.Bin? && t0.x == elm0
      ensures elm == Nth(After(k0), 0)
    {
      ghost var t, k := t0, k0;
      Fields(t, k);
      if elm0.parent != null && elm0 == elm0.parent.left {
        return elm0.parent;
      }
      var cur := elm0;
      while cur.parent != null && cur == cur.parent.right
        invariant Holds(t, k) && t.Bin? && t.x == cur && After(k) == After(k0)
        invariant cur.parent == Par(k) && (k.In? ==> Get(k.side, k.x) == cur && Get(Other(k.side), k.x) != cur)
        decreases k
      {
        cur := cur.parent;
        Move(t, k);
        t, k := Mk(k.side, t, k.x, k.c, k.sib), k.up;
        Fields(t, k);
      }
      elm := cur.parent;
    }

    /** RB_MIN for a negative argument, RB_MAX otherwise. */
    method MinMax(val: int) returns (parent: Node?)
      requires Valid()
      ensures parent == if val < 0 then Nth(Inorder(tree), 0) else Nth(Inorder(tree), |Inorder(tree)| - 1)
    {
      var tmp := root;
      parent := null;
      ghost var t, k := tree, Top;
      while tmp != null
        invariant Holds(t, k) && tmp == Root(t) && parent == Par(k) && Plug(k, t) == tree
        invariant k.In? ==> k.side == if val < 0 then L else R
        invariant if val < 0 then Before(k) == [] else After(k) == []
        decreases t
      {
        Fields(t, k);
        parent := tmp;
        var s := if val < 0 then L else R;
        tmp := Get(s, tmp);
        k := In(s, k, t.x, t.c, Kid(Other(s), t));
        t := Kid(s, t);
        Move(t, k);
      }
      PlugInorder(k, t);
    }

    /** RB_FOREACH visits every element once, in increasing order. */
    method ForEach() returns (visited: seq<Node>)
      requires Valid()
      ensures visited == Inorder(tree) && Sorted(cmp, visited) && Members(visited) == all
    {
      visited := [];
      var x := MinMax(-1);
      while x != null
        invariant |visited| <= |Inorder(tree)| && visited == Inorder(tree)[..|visited|]
        invariant x == Nth(Inorder(tree), |visited|)
        decreases |Inorder(tree)| - |visited|
      {
        var elm: Node := x;
        x := Next(elm, |visited|);
        visited := visited + [elm];
      }
      NodesInorder(tree);
    }

    // ----- whole runs -----

    /** One operation: RB_INSERT, RB_FIND followed by RB_REMOVE of what it found, or RB_FIND. */
    method Perform(op: Op)
      requires Valid()
      modifies this`root, this`all, this`tree, this`rotations
      modifies all`left, all`right, all`parent, all`color
      modifies Operands([op])`left, Operands([op])`right, Operands([op])`parent, Operands([op])`color
      ensures Valid() && tree == Apply(cmp, old(tree), op) && all == ApplySet(cmp, old(all), op)
      ensures rotations <= old(rotations) + 3
    {
      ApplyNodes(cmp, tree, op);
      match op
      case OpInsert(x) =>
        assert op in [op];
        var r := Insert(x);
      case OpRemove(key) =>
        RemoveKey(key);
      case OpFind(key) =>
        var r, _ := Find(key);
    }

    method RemoveKey(key: Key)
      requires Valid()
      modifies this`root, this`all, this`tree, this`rotations
      modifies all`left, all`right, all`parent, all`color
      ensures Valid() && tree == RbSpec.Remove(cmp, old(tree), key)
      ensures rotations <= old(rotations) + 3
    {
      var r, _ := FindLoop(key);
      if r != null {
        LocateEqual(cmp, key, r.key, tree, Top);
        Remove(r);
      }
    }

    /** Any run on the linked tree from RB_INIT: a valid tree with consistent links that
        holds exactly the elements that the plain set holds. */
    method RunOps(ops: seq<Op>)
      requires Valid() && tree == Leaf
      modifies this`root, this`all, this`tree, this`rotations
      modifies Operands(ops)`left, Operands(ops)`right, Operands(ops)`parent, Operands(ops)`color
      ensures Valid() && tree == Run(cmp, ops) && all == RunSet(cmp, ops)
      ensures rotations <= old(rotations) + 3 * |ops|
    {
      for i := 0 to |ops|
        invariant Valid() && tree == Run(cmp, ops[..i]) && all == RunSet(cmp, ops[..i])
        invariant all <= Operands(ops) && rotations <= old(rotations) + 3 * i
      {
        RunNext(cmp, ops, i);
        RunSetNext(cmp, ops, i);
        OperandsStep(cmp, all, ops, i);
        Perform(ops[i]);
      }
      assert ops[..|ops|] == ops;
    }
  }
}

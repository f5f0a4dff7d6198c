/**
  The mathematics of the red-black macros of utils/tree.h: the shape that a
  linked tree has, the focus-plus-context view that parent pointers give of it,
  and what the two recolouring loops compute on such a view. The mirrored halves
  of the source are written once, with the side as a parameter.
 */
module RbShape {
  import opened Elements

  datatype Tree =
    | Leaf
    | Bin(l: Tree, x: Node, c: Color, r: Tree)

  /** The path from a focus up to the root: the focus is child `side` of `x`. */
  datatype Ctx =
    | Top
    | In(side: Side, up: Ctx, x: Node, c: Color, sib: Tree)

  /** A node whose child on side `s` is `near`. */
  function Mk(s: Side, near: Tree, x: Node, c: Color, far: Tree): (t: Tree)
    ensures t.Bin? && t.x == x && t.c == c && Kid(s, t) == near && Kid(Other(s), t) == far
    ensures Inorder(t) == Cat(s, Inorder(near), x, Inorder(far))
    ensures Balanced(t) <==>
              && Balanced(near) && Balanced(far) && BlackHeight(near) == BlackHeight(far)
              && (c == Red ==> !IsRed(near) && !IsRed(far))
    ensures Balanced(t) ==> BlackHeight(t) == BlackHeight(near) + Weight(c)
  {
    if s == L then Bin(near, x, c, far) else Bin(far, x, c, near)
  }

  function Kid(s: Side, t: Tree): Tree
    requires t.Bin?
  {
    if s == L then t.l else t.r
  }

  function Plug(k: Ctx, t: Tree): Tree {
    if k.Top? then t else Plug(k.up, Mk(k.side, t, k.x, k.c, k.sib))
  }

  // ----- in-order contents -----

  function Inorder(t: Tree): seq<Node> {
    if t.Leaf? then [] else Inorder(t.l) + [t.x] + Inorder(t.r)
  }

  /** The nodes that precede the focus in order. */
  function Before(k: Ctx): seq<Node> {
    if k.Top? then []
    else if k.side == L then Before(k.up)
    else Before(k.up) + Inorder(k.sib) + [k.x]
  }

  /** The nodes that follow the focus in order. */
  function After(k: Ctx): seq<Node> {
    if k.Top? then []
    else if k.side == L then [k.x] + Inorder(k.sib) + After(k.up)
    else After(k.up)
  }

  lemma {:induction false} PlugInorder(k: Ctx, t: Tree)
    ensures Inorder(Plug(k, t)) == Before(k) + Inorder(t) + After(k)
  {
    if k.In? {
      PlugInorder(k.up, Mk(k.side, t, k.x, k.c, k.sib));
      Regroup(Before(k.up), Inorder(t), k.x, Inorder(k.sib), After(k.up));
    }
  }

  lemma Regroup(a: seq<Node>, m: seq<Node>, x: Node, b: seq<Node>, d: seq<Node>)
    ensures a + (m + [x] + b) + d == a + m + ([x] + b + d)
    ensures a + (b + [x] + m) + d == (a + b + [x]) + m + d
  {
  }

  lemma PlugSameInorder(k: Ctx, t: Tree, t': Tree)
    requires Inorder(t) == Inorder(t')
    ensures Inorder(Plug(k, t)) == Inorder(Plug(k, t'))
  {
    PlugInorder(k, t);
    PlugInorder(k, t');
  }

  function Cat(s: Side, near: seq<Node>, x: Node, far: seq<Node>): seq<Node> {
    if s == L then near + [x] + far else far + [x] + near
  }

  lemma CatAssociative(s: Side, a: seq<Node>, x: Node, b: seq<Node>, y: Node, d: seq<Node>)
    ensures Cat(s, Cat(s, a, x, b), y, d) == Cat(s, a, x, Cat(s, b, y, d))
  {
    assert (a + [x] + b) + [y] + d == a + [x] + (b + [y] + d);
    assert (d + [y] + b) + [x] + a == d + [y] + (b + [x] + a);
  }

  /** A rotation or recolouring keeps the in-order sequence. */
  lemma RotationInorder(s: Side, a: Tree, x: Node, b: Tree, y: Node, d: Tree)
    ensures Cat(s, Cat(s, Inorder(a), x, Inorder(b)), y, Inorder(d))
            == Cat(s, Inorder(a), x, Cat(s, Inorder(b), y, Inorder(d)))
  {
    CatAssociative(s, Inorder(a), x, Inorder(b), y, Inorder(d));
  }

  // ----- the red-black conditions -----

  predicate IsRed(t: Tree) {
    t.Bin? && t.c == Red
  }

  function Weight(c: Color): nat {
    if c == Black then 1 else 0
  }

  function Paint(t: Tree, c: Color): Tree {
    if t.Leaf? then Leaf else Bin(t.l, t.x, c, t.r)
  }

  /** Black nodes on the leftmost path. */
  function BlackHeight(t: Tree): nat {
    if t.Leaf? then 0 else BlackHeight(t.l) + Weight(t.c)
  }

  /** Same number of black nodes on every path, and no red node with a red child. */
  predicate Balanced(t: Tree) {
    t.Bin? ==>
      && Balanced(t.l) && Balanced(t.r)
      && BlackHeight(t.l) == BlackHeight(t.r)
      && (t.c == Red ==> !IsRed(t.l) && !IsRed(t.r))
  }

  predicate RedBlack(t: Tree) {
    Balanced(t) && !IsRed(t)
  }

  /** The context completes to a red-black tree around any balanced subtree of
      black height `h`, which may be red only if `red` says so. */
  predicate Accepts(k: Ctx, h: nat, red: bool) {
    if k.Top? then !red
    else
      && Balanced(k.sib) && BlackHeight(k.sib) == h
      && (k.c == Red ==> !red && !IsRed(k.sib))
      && Accepts(k.up, h + Weight(k.c), k.c == Red)
  }

  lemma {:induction false} PlugRedBlack(k: Ctx, t: Tree)
    ensures RedBlack(Plug(k, t)) <==> Balanced(t) && Accepts(k, BlackHeight(t), IsRed(t))
  {
    if k.In? {
      PlugRedBlack(k.up, Mk(k.side, t, k.x, k.c, k.sib));
    }
  }

  // ----- RB_INSERT_COLOR -----

  /** A red parent that has itself a parent: the case the loop works on. */
  predicate RedParent(k: Ctx) {
    k.In? && k.c == Red && k.up.In?
  }

  /** What one iteration puts in the grandparent's place. */
  function InsertStep(t: Tree, k: Ctx): Tree
    requires t.Bin? && RedParent(k)
  {
    var In(s, In(s2, _, g, _, u), p, _, sib) := k;
    if IsRed(u) then Mk(s2, Mk(s, t, p, Black, sib), g, Red, Paint(u, Black))
    else if s == s2 then Mk(s2, t, p, Black, Mk(s2, sib, g, Red, u))
    else Mk(s2, Mk(s2, sib, p, Red, Kid(s2, t)), t.x, Black, Mk(s2, Kid(s, t), g, Red, u))
  }

  /** The tree that RB_INSERT_COLOR leaves when it is called on the root of `t`
      at position `k`. */
  function InsertFix(t: Tree, k: Ctx): Tree
    requires t.Bin?
    decreases k
  {
    if !RedParent(k) then Paint(Plug(k, t), Black)
    else if IsRed(k.up.sib) then InsertFix(InsertStep(t, k), k.up.up)
    else Paint(Plug(k.up.up, InsertStep(t, k)), Black)
  }

  predicate BlackParent(k: Ctx) {
    k.In? && k.c == Black
  }

  /** The focus after one iteration of the loop. */
  predicate InsertMove(t: Tree, k: Ctx, t': Tree, k': Ctx)
    requires t.Bin? && RedParent(k)
  {
    if IsRed(k.up.sib) then t' == InsertStep(t, k) && k' == k.up.up
    else BlackParent(k') && k'.up == k.up.up && Plug(k', t') == Plug(k.up.up, InsertStep(t, k))
  }

  lemma InsertProgress(t: Tree, k: Ctx, t': Tree, k': Ctx)
    requires InsertPending(t, k) && RedParent(k) && t'.Bin? && InsertMove(t, k, t', k')
    ensures InsertFix(t', k') == InsertFix(t, k) && Depth(k') < Depth(k)
    ensures if IsRed(k.up.sib) then InsertPending(t', k') else BlackParent(k')
  {
    InsertStepBalanced(t, k);
  }

  lemma InsertStepInorder(t: Tree, k: Ctx)
    requires t.Bin? && RedParent(k)
    ensures Inorder(Plug(k.up.up, InsertStep(t, k))) == Inorder(Plug(k, t))
  {
    var In(s, In(s2, up, g, gc, u), p, pc, sib) := k;
    var t0 := Mk(s2, Mk(s, t, p, pc, sib), g, gc, u);
    if IsRed(u) {
    } else if s == s2 {
      RotationInorder(s, t, p, sib, g, u);
    } else {
      RotationInorder(s2, sib, p, Kid(s2, t), t.x, Kid(s, t));
      RotationInorder(s2, Mk(s2, sib, p, Red, Kid(s2, t)), t.x, Kid(s, t), g, u);
      assert t == Mk(s2, Kid(s2, t), t.x, t.c, Kid(s, t));
    }
    PlugSameInorder(up, InsertStep(t, k), t0);
  }

  lemma {:induction false} InsertFixInorder(t: Tree, k: Ctx)
    requires t.Bin?
    ensures Inorder(InsertFix(t, k)) == Inorder(Plug(k, t))
    decreases k
  {
    if RedParent(k) {
      InsertStepInorder(t, k);
      if IsRed(k.up.sib) {
        InsertFixInorder(InsertStep(t, k), k.up.up);
      }
    }
  }

  /** The only violation is that the red focus may have a red parent. */
  predicate InsertPending(t: Tree, k: Ctx) {
    IsRed(t) && Balanced(t) && Accepts(k, BlackHeight(t), false)
  }

  lemma PendingGrandparent(t: Tree, k: Ctx)
    requires InsertPending(t, k) && k.In? && k.c == Red
    ensures RedParent(k)
  {
    assert Accepts(k.up, BlackHeight(t), true);
  }

  lemma InsertStepBalanced(t: Tree, k: Ctx)
    requires InsertPending(t, k) && RedParent(k)
    ensures IsRed(k.up.sib) ==> InsertPending(InsertStep(t, k), k.up.up)
    ensures !IsRed(k.up.sib) ==>
              && Balanced(InsertStep(t, k)) && !IsRed(InsertStep(t, k))
              && Accepts(k.up.up, BlackHeight(InsertStep(t, k)), false)
  {
    assert Accepts(k.up, BlackHeight(t), true);
    assert t == Mk(k.side, Kid(k.side, t), t.x, Red, Kid(Other(k.side), t));
  }

  lemma {:induction false} InsertFixRedBlack(t: Tree, k: Ctx)
    requires InsertPending(t, k)
    ensures RedBlack(InsertFix(t, k))
    decreases k
  {
    if !RedParent(k) {
      if k.In? { PlugRedBlack(k, t); }
    } else {
      InsertStepBalanced(t, k);
      if IsRed(k.up.sib) {
        InsertFixRedBlack(InsertStep(t, k), k.up.up);
      } else {
        PlugRedBlack(k.up.up, InsertStep(t, k));
      }
    }
  }

  // ----- RB_REMOVE_COLOR -----

  /** The tree that RB_REMOVE_COLOR leaves when the subtree `t` at position `k`
      is one black node short. */
  function RemoveFix(t: Tree, k: Ctx): Tree
    decreases Depth(k), if IsRed(t) then 0 else 2
  {
    if k.Top? || IsRed(t) then Plug(k, Paint(t, Black))
    else if IsRed(k.sib) then
      var k' := BlackSibling(k);
      Repair(k.side, t, k'.up, k.x, Red, k'.sib)
    else Repair(k.side, t, k.up, k.x, k.c, k.sib)
  }

  /** The part of an iteration that follows the red-sibling rotation: the sibling
      `w` is black. It is never a leaf (the code would dereference NULL). */
  function Repair(s: Side, t: Tree, up: Ctx, p: Node, pc: Color, w: Tree): Tree
    decreases Depth(up), if pc == Red then 1 else 3
  {
    if w.Leaf? then Plug(up, Mk(s, t, p, pc, w))
    else
      var near, far := Kid(s, w), Kid(Other(s), w);
      if !IsRed(near) && !IsRed(far) then
        RemoveFix(Mk(s, t, p, pc, Paint(w, Red)), up)
      else
        Paint(Plug(up, Restored(s, t, p, pc, w)), Black)
  }

  /** The subtree after the closing rotations: no black is missing any more. */
  function Restored(s: Side, t: Tree, p: Node, pc: Color, w: Tree): Tree
    requires w.Bin? && (IsRed(w.l) || IsRed(w.r))
  {
    var near, far := Kid(s, w), Kid(Other(s), w);
    if !IsRed(far) then
      Mk(s, Mk(s, t, p, Black, Kid(s, near)), near.x, pc, Mk(s, Kid(Other(s), near), w.x, Black, far))
    else
      Mk(s, Mk(s, t, p, Black, near), w.x, pc, Paint(far, Black))
  }

  /** The context after the red-sibling rotation. */
  function BlackSibling(k: Ctx): Ctx
    requires k.In? && k.sib.Bin?
  {
    var In(s, up, p, _, w) := k;
    In(s, In(s, up, w.x, Black, Kid(Other(s), w)), p, Red, Kid(s, w))
  }

  function Depth(k: Ctx): nat {
    if k.Top? then 0 else 1 + Depth(k.up)
  }

  lemma {:induction false} RemoveFixInorder(t: Tree, k: Ctx)
    ensures Inorder(RemoveFix(t, k)) == Inorder(Plug(k, t))
    decreases Depth(k), if IsRed(t) then 0 else 2
  {
    if k.Top? || IsRed(t) {
      PlugSameInorder(k, t, Paint(t, Black));
    } else if IsRed(k.sib) {
      var In(s, up, p, pc, w) := k;
      RepairInorder(s, t, In(s, up, w.x, Black, Kid(Other(s), w)), p, Red, Kid(s, w));
      RotationInorder(s, t, p, Kid(s, w), w.x, Kid(Other(s), w));
      assert w == Mk(s, Kid(s, w), w.x, Red, Kid(Other(s), w));
      PlugSameInorder(up, Mk(s, Mk(s, t, p, Red, Kid(s, w)), w.x, Black, Kid(Other(s), w)), Mk(s, t, p, pc, w));
    } else {
      RepairInorder(k.side, t, k.up, k.x, k.c, k.sib);
    }
  }

  lemma RestoredInorder(s: Side, t: Tree, p: Node, pc: Color, w: Tree)
    requires w.Bin? && (IsRed(w.l) || IsRed(w.r))
    ensures Inorder(Restored(s, t, p, pc, w)) == Inorder(Mk(s, t, p, pc, w))
  {
    var near, far := Kid(s, w), Kid(Other(s), w);
    assert w == Mk(s, near, w.x, w.c, far);
    if IsRed(far) {
      RotationInorder(s, t, p, near, w.x, far);
    } else {
      RotationInorder(s, Kid(s, near), near.x, Kid(Other(s), near), w.x, far);
      RotationInorder(s, t, p, Kid(s, near), near.x, Mk(s, Kid(Other(s), near), w.x, Black, far));
      assert near == Mk(s, Kid(s, near), near.x, near.c, Kid(Other(s), near));
    }
  }

  lemma {:induction false} RepairInorder(s: Side, t: Tree, up: Ctx, p: Node, pc: Color, w: Tree)
    ensures Inorder(Repair(s, t, up, p, pc, w)) == Inorder(Plug(up, Mk(s, t, p, pc, w)))
    decreases Depth(up), if pc == Red then 1 else 3
  {
    if w.Leaf? {
    } else if !IsRed(w.l) && !IsRed(w.r) {
      RemoveFixInorder(Mk(s, t, p, pc, Paint(w, Red)), up);
      PlugSameInorder(up, Mk(s, t, p, pc, Paint(w, Red)), Mk(s, t, p, pc, w));
    } else {
      RestoredInorder(s, t, p, pc, w);
      PlugSameInorder(up, Restored(s, t, p, pc, w), Mk(s, t, p, pc, w));
    }
  }

  /** One black node is missing at the focus and nowhere else; a red focus may
      clash with its children until it is painted black. */
  predicate Deficit(t: Tree, k: Ctx) {
    Balanced(Paint(t, Black)) && Accepts(k, BlackHeight(t) + 1, false)
  }

  /** The sibling of a deficient black focus exists. */
  lemma DeficitSibling(t: Tree, k: Ctx)
    requires Deficit(t, k) && k.In? && !IsRed(t)
    ensures k.sib.Bin?
  {
  }

  lemma BlackSiblingDeficit(t: Tree, k: Ctx)
    requires Deficit(t, k) && k.In? && !IsRed(t) && IsRed(k.sib)
    ensures var k' := BlackSibling(k);
            Deficit(t, k') && k'.sib.Bin? && k'.sib.c == Black && RemoveFix(t, k') == RemoveFix(t, k)
  {
  }

  lemma {:induction false} RemoveFixRedBlack(t: Tree, k: Ctx)
    requires Deficit(t, k)
    ensures RedBlack(RemoveFix(t, k))
    decreases Depth(k), if IsRed(t) then 0 else 2
  {
    if k.Top? || IsRed(t) {
      PlugRedBlack(k, Paint(t, Black));
    } else if IsRed(k.sib) {
      var In(s, up, p, pc, w) := k;
      RepairRedBlack(s, t, In(s, up, w.x, Black, Kid(Other(s), w)), p, Red, Kid(s, w));
    } else {
      RepairRedBlack(k.side, t, k.up, k.x, k.c, k.sib);
    }
  }

  lemma RestoredBalanced(s: Side, t: Tree, p: Node, pc: Color, w: Tree)
    requires Balanced(t) && !IsRed(t) && Balanced(w) && !IsRed(w)
    requires BlackHeight(w) == BlackHeight(t) + 1 && w.Bin? && (IsRed(w.l) || IsRed(w.r))
    ensures Balanced(Restored(s, t, p, pc, w)) && Restored(s, t, p, pc, w).Bin? && Restored(s, t, p, pc, w).c == pc
    ensures BlackHeight(Restored(s, t, p, pc, w)) == BlackHeight(w) + Weight(pc)
  {
  }

  lemma RestoredRedBlack(s: Side, t: Tree, up: Ctx, p: Node, pc: Color, w: Tree)
    requires Balanced(t) && !IsRed(t) && Balanced(w) && !IsRed(w)
    requires BlackHeight(w) == BlackHeight(t) + 1 && w.Bin? && (IsRed(w.l) || IsRed(w.r))
    requires Accepts(up, BlackHeight(w) + Weight(pc), pc == Red)
    ensures RedBlack(Paint(Plug(up, Restored(s, t, p, pc, w)), Black))
  {
    RestoredBalanced(s, t, p, pc, w);
    PlugRedBlack(up, Restored(s, t, p, pc, w));
  }

  lemma RecolouredDeficit(s: Side, t: Tree, up: Ctx, p: Node, pc: Color, w: Tree)
    requires Balanced(t) && !IsRed(t) && Balanced(w) && w.Bin? && w.c == Black && !IsRed(w.l) && !IsRed(w.r)
    requires BlackHeight(w) == BlackHeight(t) + 1
    requires Accepts(up, BlackHeight(w) + Weight(pc), pc == Red)
    ensures Deficit(Mk(s, t, p, pc, Paint(w, Red)), up)
  {
    assert Paint(Mk(s, t, p, pc, Paint(w, Red)), Black) == Mk(s, t, p, Black, Paint(w, Red));
  }

  lemma {:induction false} RepairRedBlack(s: Side, t: Tree, up: Ctx, p: Node, pc: Color, w: Tree)
    requires Balanced(t) && !IsRed(t) && Balanced(w) && !IsRed(w)
    requires BlackHeight(w) == BlackHeight(t) + 1
    requires Accepts(up, BlackHeight(w) + Weight(pc), pc == Red)
    ensures w.Bin? && RedBlack(Repair(s, t, up, p, pc, w))
    decreases Depth(up), if pc == Red then 1 else 3
  {
    assert w.Bin? && w.c == Black;
    if !IsRed(w.l) && !IsRed(w.r) {
      RecolouredDeficit(s, t, up, p, pc, w);
      RemoveFixRedBlack(Mk(s, t, p, pc, Paint(w, Red)), up);
    } else {
      RestoredRedBlack(s, t, up, p, pc, w);
    }
  }

  /** What the rest of an iteration does to a black sibling. */
  lemma RepairProgress(t: Tree, k: Ctx)
    requires Deficit(t, k) && k.In? && !IsRed(t) && k.sib.Bin? && k.sib.c == Black
    ensures var w := k.sib;
            if IsRed(w.l) || IsRed(w.r) then
              RemoveFix(t, k) == RemoveFix(Plug(k.up, Restored(k.side, t, k.x, k.c, w)), Top)
            else
              var t' := Mk(k.side, t, k.x, k.c, Paint(w, Red));
              Deficit(t', k.up) && RemoveFix(t, k) == RemoveFix(t', k.up)
  {
    if !IsRed(k.sib.l) && !IsRed(k.sib.r) {
      RecolouredDeficit(k.side, t, k.up, k.x, k.c, k.sib);
    }
  }
}

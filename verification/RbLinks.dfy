/**
  Which pointers stand for which tree shape. A heap is described by the entry
  (left, right, parent, color) of each node.
 */
module RbLinks {
  import opened Elements
  import opened RbShape

  datatype Cell = Cell(left: Node?, right: Node?, parent: Node?, color: Color)

  type Links = map<Node, Cell>

  function MkCell(s: Side, near: Node?, far: Node?, parent: Node?, c: Color): Cell {
    if s == L then Cell(near, far, parent, c) else Cell(far, near, parent, c)
  }

  function Root(t: Tree): Node? {
    if t.Leaf? then null else t.x
  }

  function Par(k: Ctx): Node? {
    if k.Top? then null else k.x
  }

  function Opt(x: Node?): set<Node> {
    if x == null then {} else {x}
  }

  function CtxRoot(k: Ctx, hole: Node?): Node? {
    if k.Top? then hole else CtxRoot(k.up, k.x)
  }

  function Nodes(t: Tree): set<Node> {
    if t.Leaf? then {} else Nodes(t.l) + {t.x} + Nodes(t.r)
  }

  function CtxNodes(k: Ctx): set<Node> {
    if k.Top? then {} else CtxNodes(k.up) + {k.x} + Nodes(k.sib)
  }

  lemma {:induction false} LinkedNodes(h: Links, t: Tree, p: Node?)
    requires Linked(h, t, p)
    ensures Nodes(t) <= h.Keys
  {
    if t.Bin? {
      LinkedNodes(h, t.l, t.x);
      LinkedNodes(h, t.r, t.x);
    }
  }

  lemma {:induction false} LinkedCtxNodes(h: Links, k: Ctx, hole: Node?)
    requires LinkedCtx(h, k, hole)
    ensures CtxNodes(k) <= h.Keys
    decreases k
  {
    if k.In? {
      LinkedNodes(h, k.sib, k.x);
      LinkedCtxNodes(h, k.up, k.x);
    }
  }

  lemma {:induction false} CtxRootIn(k: Ctx, hole: Node?)
    requires k.In?
    ensures CtxRoot(k, hole) in CtxNodes(k)
    decreases k
  {
    if k.up.In? { CtxRootIn(k.up, k.x); }
  }

  /** No node occurs twice. */
  predicate Distinct(t: Tree) {
    t.Bin? ==>
      && Distinct(t.l) && Distinct(t.r)
      && t.x !in Nodes(t.l) && t.x !in Nodes(t.r) && Nodes(t.l) !! Nodes(t.r)
  }

  predicate DistinctCtx(k: Ctx) {
    k.In? ==>
      && DistinctCtx(k.up) && Distinct(k.sib)
      && k.x !in CtxNodes(k.up) && k.x !in Nodes(k.sib) && CtxNodes(k.up) !! Nodes(k.sib)
  }

  /** Child pointers, parent pointers and colours below `p` are those of `t`. */
  predicate Linked(h: Links, t: Tree, p: Node?) {
    t.Bin? ==>
      && t.x in h && h[t.x] == Cell(Root(t.l), Root(t.r), p, t.c)
      && Linked(h, t.l, t.x) && Linked(h, t.r, t.x)
  }

  /** The same for the nodes around a focus whose root is `hole`. */
  predicate LinkedCtx(h: Links, k: Ctx, hole: Node?) {
    k.In? ==>
      && k.x in h && h[k.x] == MkCell(k.side, hole, Root(k.sib), Par(k.up), k.c)
      && Linked(h, k.sib, k.x) && LinkedCtx(h, k.up, k.x)
  }

  /** The links are those of the tree `Plug(k, t)`. */
  predicate At(h: Links, root: Node?, t: Tree, k: Ctx) {
    && Distinct(t) && DistinctCtx(k) && Nodes(t) !! CtxNodes(k)
    && Linked(h, t, Par(k)) && LinkedCtx(h, k, Root(t))
    && root == CtxRoot(k, Root(t))
  }

  lemma {:induction false} KeepLinked(h: Links, h': Links, changed: set<Node>, t: Tree, p: Node?)
    requires Linked(h, t, p) && SameBut(h, h', changed) && Nodes(t) !! changed
    ensures Linked(h', t, p)
  {
    if t.Bin? {
      KeepLinked(h, h', changed, t.l, t.x);
      KeepLinked(h, h', changed, t.r, t.x);
    }
  }

  lemma {:induction false} KeepLinkedCtx(h: Links, h': Links, changed: set<Node>, k: Ctx, hole: Node?)
    requires LinkedCtx(h, k, hole) && SameBut(h, h', changed) && CtxNodes(k) !! changed
    ensures LinkedCtx(h', k, hole)
  {
    if k.In? {
      KeepLinked(h, h', changed, k.sib, k.x);
      KeepLinkedCtx(h, h', changed, k.up, k.x);
    }
  }

  /** A subtree may be handed to another parent: only its root notices. */
  lemma Reparent(h: Links, h': Links, changed: set<Node>, t: Tree, p: Node?, p': Node?)
    requires Linked(h, t, p) && SameBut(h, h', changed) && Distinct(t)
    requires Nodes(t) * changed <= Opt(Root(t))
    requires t.Bin? ==> t.x in h' && h'[t.x] == h[t.x].(parent := p')
    ensures Linked(h', t, p')
  {
    if t.Bin? {
      KeepLinked(h, h', changed, t.l, t.x);
      KeepLinked(h, h', changed, t.r, t.x);
    }
  }

  /** The focus may be replaced: only the innermost frame notices. */
  lemma Refill(h: Links, h': Links, changed: set<Node>, k: Ctx, hole: Node?, hole': Node?)
    requires LinkedCtx(h, k, hole) && SameBut(h, h', changed) && DistinctCtx(k)
    requires CtxNodes(k) * changed <= Opt(Par(k))
    requires k.In? ==> k.x in h' && h'[k.x] == MkCell(k.side, hole', Root(k.sib), Par(k.up), k.c)
    ensures LinkedCtx(h', k, hole')
  {
    if k.In? {
      KeepLinked(h, h', changed, k.sib, k.x);
      KeepLinkedCtx(h, h', changed, k.up, k.x);
    }
  }

  lemma Sides(s: Side, near: Tree, x: Node, c: Color, far: Tree)
    ensures var t := Mk(s, near, x, c, far);
            && Nodes(t) == Nodes(near) + {x} + Nodes(far)
            && (Distinct(t) <==>
                Distinct(near) && Distinct(far) && x !in Nodes(near) && x !in Nodes(far) && Nodes(near) !! Nodes(far))
            && forall h, p :: Linked(h, t, p) <==>
                  && x in h && h[x] == MkCell(s, Root(near), Root(far), p, c)
                  && Linked(h, near, x) && Linked(h, far, x)
  {
  }

  /** Moving the focus up or down one level. */
  lemma Refocus(h: Links, root: Node?, t: Tree, k: Ctx)
    requires k.In?
    ensures At(h, root, t, k) <==> At(h, root, Mk(k.side, t, k.x, k.c, k.sib), k.up)
    ensures Nodes(t) + CtxNodes(k) == Nodes(Mk(k.side, t, k.x, k.c, k.sib)) + CtxNodes(k.up)
  {
    Sides(k.side, t, k.x, k.c, k.sib);
  }

  lemma {:induction false} PlugAt(h: Links, root: Node?, t: Tree, k: Ctx)
    ensures At(h, root, t, k) <==> At(h, root, Plug(k, t), Top)
    ensures Nodes(Plug(k, t)) == Nodes(t) + CtxNodes(k)
    decreases k
  {
    if k.In? {
      Refocus(h, root, t, k);
      PlugAt(h, root, Mk(k.side, t, k.x, k.c, k.sib), k.up);
    }
  }

  lemma {:induction false} NodesInorder(t: Tree)
    ensures Nodes(t) == Members(Inorder(t))
  {
    if t.Bin? {
      NodesInorder(t.l);
      NodesInorder(t.r);
    }
  }

  // ----- rotation -----

  /** The focus after RB_ROTATE_LEFT (`s == L`) or RB_ROTATE_RIGHT (`s == R`). */
  function Rotated(s: Side, t: Tree): Tree
    requires t.Bin? && Kid(Other(s), t).Bin?
  {
    var w := Kid(Other(s), t);
    Mk(s, Mk(s, Kid(s, t), t.x, t.c, Kid(s, w)), w.x, w.c, Kid(Other(s), w))
  }

  lemma RotatedBack(s: Side, a: Tree, x: Node, c: Color, b: Tree, y: Node, d: Color, e: Tree)
    ensures Rotated(Other(s), Mk(s, Mk(s, a, x, c, b), y, d, e)) == Mk(s, a, x, c, Mk(s, b, y, d, e))
  {
  }

  /** The up to four entries that a rotation touches. */
  lemma RotateEntries(h: Links, root: Node?, s: Side, t: Tree, k: Ctx)
    requires t.Bin? && Kid(Other(s), t).Bin? && At(h, root, t, k)
    ensures var w := Kid(Other(s), t);
            var b, p := Root(Kid(s, w)), Par(k);
            && t.x in h && h[t.x] == MkCell(s, Root(Kid(s, t)), w.x, p, t.c)
            && w.x in h && h[w.x] == MkCell(s, b, Root(Kid(Other(s), w)), t.x, w.c)
            && (b != null ==> b in h && b !in {t.x, w.x})
            && (p != null ==> p in h && p !in {t.x, w.x, b} && h[p] == MkCell(k.side, t.x, Root(k.sib), Par(k.up), k.c))
            && t.x != w.x && (k.In? ==> Root(k.sib) != t.x)
  {
    var w, o := Kid(Other(s), t), Other(s);
    Sides(s, Kid(s, t), t.x, t.c, w);
    Sides(s, Kid(s, w), w.x, w.c, Kid(o, w));
  }

  lemma RotateAt(h: Links, root: Node?, h': Links, root': Node?, s: Side, t: Tree, k: Ctx)
    requires t.Bin? && Kid(Other(s), t).Bin? && At(h, root, t, k)
    requires var w := Kid(Other(s), t);
             var b, p := Root(Kid(s, w)), Par(k);
             && SameBut(h, h', {t.x, w.x} + Opt(b) + Opt(p))
             && t.x in h' && h'[t.x] == MkCell(s, Root(Kid(s, t)), b, w.x, t.c)
             && w.x in h' && h'[w.x] == MkCell(s, t.x, Root(Kid(Other(s), w)), p, w.c)
             && (b != null ==> b in h' && b in h && h'[b] == h[b].(parent := t.x))
             && (p == null ==> root' == w.x)
             && (p != null ==> root' == root && p in h' && h'[p] == MkCell(k.side, w.x, Root(k.sib), Par(k.up), k.c))
    ensures At(h', root', Rotated(s, t), k)
  {
    var w, o := Kid(Other(s), t), Other(s);
    var b := Kid(s, w);
    var changed := {t.x, w.x} + Opt(Root(b)) + Opt(Par(k));
    RotatedDistinct(s, t);
    Sides(s, Kid(s, t), t.x, t.c, w);
    Sides(s, b, w.x, w.c, Kid(o, w));
    KeepLinked(h, h', changed, Kid(s, t), t.x);
    KeepLinked(h, h', changed, Kid(o, w), w.x);
    Reparent(h, h', changed, b, w.x, t.x);
    assert Linked(h', Rotated(s, t), Par(k));
    Refill(h, h', changed, k, t.x, w.x);
  }

  lemma RotatedDistinct(s: Side, t: Tree)
    requires t.Bin? && Kid(Other(s), t).Bin? && Distinct(t)
    ensures Distinct(Rotated(s, t)) && Nodes(Rotated(s, t)) == Nodes(t)
  {
    var w, o := Kid(Other(s), t), Other(s);
    Sides(s, Kid(s, t), t.x, t.c, w);
    Sides(s, Kid(s, w), w.x, w.c, Kid(o, w));
    Sides(s, Kid(s, t), t.x, t.c, Kid(s, w));
    Sides(s, Mk(s, Kid(s, t), t.x, t.c, Kid(s, w)), w.x, w.c, Kid(o, w));
  }

  // ----- recolouring -----

  function Recolored(h: Links, x: Node, c: Color): Links
    requires x in h
  {
    h[x := h[x].(color := c)]
  }

  lemma PaintAt(h: Links, root: Node?, t: Tree, k: Ctx, c: Color)
    requires t.Bin? && At(h, root, t, k)
    ensures At(Recolored(h, t.x, c), root, Paint(t, c), k)
  {
    var h' := Recolored(h, t.x, c);
    KeepLinked(h, h', {t.x}, t.l, t.x);
    KeepLinked(h, h', {t.x}, t.r, t.x);
    KeepLinkedCtx(h, h', {t.x}, k, t.x);
  }

  lemma PaintKidAt(h: Links, root: Node?, t: Tree, k: Ctx, s: Side, c: Color)
    requires t.Bin? && Kid(s, t).Bin? && At(h, root, t, k)
    ensures Kid(s, t).x in h
    ensures At(Recolored(h, Kid(s, t).x, c), root, Mk(s, Paint(Kid(s, t), c), t.x, t.c, Kid(Other(s), t)), k)
  {
    var k' := In(s, k, t.x, t.c, Kid(Other(s), t));
    Refocus(h, root, Kid(s, t), k');
    PaintAt(h, root, Kid(s, t), k', c);
    Refocus(Recolored(h, Kid(s, t).x, c), root, Paint(Kid(s, t), c), k');
  }

  /** What can be read from a focused node and from its parent. */
  lemma AtFocus(h: Links, root: Node?, t: Tree, k: Ctx)
    requires At(h, root, t, k)
    ensures t.Bin? ==> t.x in h && h[t.x] == Cell(Root(t.l), Root(t.r), Par(k), t.c)
    ensures k.In? ==>
              && k.x in h && h[k.x] == MkCell(k.side, Root(t), Root(k.sib), Par(k.up), k.c)
              && (t.Bin? || k.sib.Bin? ==> Root(t) != Root(k.sib))
              && (k.sib.Bin? ==> k.sib.x in h && h[k.sib.x] == Cell(Root(k.sib.l), Root(k.sib.r), k.x, k.sib.c))
  {
  }

  // ----- replacing the focus -----

  /** A new subtree `t'` stands where `hole` stood. */
  lemma Plant(h: Links, root: Node?, h': Links, root': Node?, changed: set<Node>, k: Ctx, hole: Node?, t': Tree)
    requires LinkedCtx(h, k, hole) && root == CtxRoot(k, hole) && DistinctCtx(k)
    requires Distinct(t') && Linked(h', t', Par(k)) && Nodes(t') !! CtxNodes(k)
    requires SameBut(h, h', changed) && CtxNodes(k) * changed <= Opt(Par(k))
    requires k.Top? ==> root' == Root(t')
    requires k.In? ==> root' == root && k.x in h' && h'[k.x] == MkCell(k.side, Root(t'), Root(k.sib), Par(k.up), k.c)
    ensures At(h', root', t', k)
  {
    Refill(h, h', changed, k, hole, Root(t'));
  }

  /** The only child of a node, or a leaf. */
  function Only(t: Tree): Tree
    requires t.Bin?
  {
    if t.l.Leaf? then t.r else t.l
  }

  lemma UnlinkEntries(h: Links, root: Node?, t: Tree, k: Ctx)
    requires At(h, root, t, k) && t.Bin?
    ensures Only(t).Bin? ==> Only(t).x in h && Only(t).x != t.x && Only(t).x != Par(k)
    ensures k.In? ==> k.x != t.x
  {
    assert Linked(h, t.l, t.x) && Linked(h, t.r, t.x);
  }

  lemma ReplaceEntries(h: Links, root: Node?, t: Tree, k: Ctx)
    requires At(h, root, t, k) && t.Bin?
    ensures t.l.Bin? ==> t.l.x in h && t.l.x !in {t.x, Par(k), Root(t.r)}
    ensures t.r.Bin? ==> t.r.x in h && t.r.x !in {t.x, Par(k), Root(t.l)}
    ensures k.In? ==> k.x != t.x
  {
    assert Linked(h, t.l, t.x) && Linked(h, t.r, t.x);
    assert t.l.Bin? ==> t.l.x in Nodes(t.l);
    assert t.r.Bin? ==> t.r.x in Nodes(t.r);
  }

  lemma UnlinkAt(h: Links, root: Node?, h': Links, root': Node?, t: Tree, k: Ctx)
    requires At(h, root, t, k) && t.Bin? && (t.l.Leaf? || t.r.Leaf?)
    requires SameBut(h, h', Opt(Root(Only(t))) + Opt(Par(k)))
    requires Only(t).Bin? ==> Only(t).x in h && Only(t).x in h' && h'[Only(t).x] == h[Only(t).x].(parent := Par(k))
    requires k.Top? ==> root' == Root(Only(t))
    requires k.In? ==> root' == root
    requires k.In? ==> k.x in h' && h'[k.x] == MkCell(k.side, Root(Only(t)), Root(k.sib), Par(k.up), k.c)
    ensures At(h', root', Only(t), k)
  {
    var changed := Opt(Root(Only(t))) + Opt(Par(k));
    Reparent(h, h', changed, Only(t), t.x, Par(k));
    Plant(h, root, h', root', changed, k, t.x, Only(t));
  }

  lemma ReplaceAt(h: Links, root: Node?, h': Links, root': Node?, t: Tree, k: Ctx, y: Node)
    requires At(h, root, t, k) && t.Bin? && y !in Nodes(t) + CtxNodes(k)
    requires SameBut(h, h', {y} + Opt(Root(t.l)) + Opt(Root(t.r)) + Opt(Par(k)))
    requires y in h' && h'[y] == Cell(Root(t.l), Root(t.r), Par(k), t.c)
    requires t.l.Bin? ==> t.l.x in h && t.l.x in h' && h'[t.l.x] == h[t.l.x].(parent := y)
    requires t.r.Bin? ==> t.r.x in h && t.r.x in h' && h'[t.r.x] == h[t.r.x].(parent := y)
    requires k.Top? ==> root' == y
    requires k.In? ==> root' == root && k.x in h' && h'[k.x] == MkCell(k.side, y, Root(k.sib), Par(k.up), k.c)
    ensures At(h', root', Bin(t.l, y, t.c, t.r), k)
  {
    var changed := {y} + Opt(Root(t.l)) + Opt(Root(t.r)) + Opt(Par(k));
    Reparent(h, h', changed, t.l, t.x, y);
    Reparent(h, h', changed, t.r, t.x, y);
    Plant(h, root, h', root', changed, k, t.x, Bin(t.l, y, t.c, t.r));
  }

  lemma LinkAt(h: Links, root: Node?, h': Links, root': Node?, k: Ctx, y: Node)
    requires At(h, root, Leaf, k) && y !in CtxNodes(k)
    requires SameBut(h, h', {y} + Opt(Par(k)))
    requires y in h' && h'[y] == Cell(null, null, Par(k), Red)
    requires k.Top? ==> root' == y
    requires k.In? ==> root' == root && k.x in h' && h'[k.x] == MkCell(k.side, y, Root(k.sib), Par(k.up), k.c)
    ensures At(h', root', Bin(Leaf, y, Red, Leaf), k)
  {
    Plant(h, root, h', root', {y} + Opt(Par(k)), k, null, Bin(Leaf, y, Red, Leaf));
  }

  lemma {:induction false} NodesCount(t: Tree)
    requires Distinct(t)
    ensures |Nodes(t)| == |Inorder(t)|
  {
    if t.Bin? {
      NodesCount(t.l);
      NodesCount(t.r);
      assert Nodes(t) == Nodes(t.l) + {t.x} + Nodes(t.r);
    }
  }
}

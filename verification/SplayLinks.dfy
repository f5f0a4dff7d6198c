/**
  Which spe_left and spe_right pointers stand for which splay tree, also while the
  tree is taken apart into a left tree, a middle and a right tree.
 */
module SplayLinks {
  import opened Elements
  import opened SplaySpec

  datatype Cell = Cell(left: Node?, right: Node?)

  type Links = map<Node, Cell>

  function MkCell(s: Side, near: Node?, far: Node?): Cell {
    if s == L then Cell(near, far) else Cell(far, near)
  }

  function Child(s: Side, c: Cell): Node? {
    if s == L then c.left else c.right
  }

  function Root(t: Tree): Node? {
    if t.Leaf? then null else t.x
  }

  function Nodes(t: Tree): set<Node> {
    if t.Leaf? then {} else Nodes(t.l) + {t.x} + Nodes(t.r)
  }

  function AccNodes(acc: Acc): set<Node> {
    if acc.Nil? then {} else AccNodes(acc.up) + {acc.x} + Nodes(acc.sub)
  }

  predicate Distinct(t: Tree) {
    t.Bin? ==>
      && Distinct(t.l) && Distinct(t.r)
      && t.x !in Nodes(t.l) && t.x !in Nodes(t.r) && Nodes(t.l) !! Nodes(t.r)
  }

  predicate DistinctAcc(acc: Acc) {
    acc.Snoc? ==>
      && DistinctAcc(acc.up) && Distinct(acc.sub)
      && acc.x !in AccNodes(acc.up) && acc.x !in Nodes(acc.sub) && AccNodes(acc.up) !! Nodes(acc.sub)
  }

  predicate Linked(h: Links, t: Tree) {
    t.Bin? ==>
      && t.x in h && h[t.x] == Cell(Root(t.l), Root(t.r))
      && Linked(h, t.l) && Linked(h, t.r)
  }

  /** The node whose pointer is the hole; `d` is the dummy header. */
  function Last(acc: Acc, d: Node): Node {
    if acc.Nil? then d else acc.x
  }

  /** The chain from the header to the hole of the side tree on side `o`. */
  predicate AccLinked(h: Links, o: Side, acc: Acc, d: Node) {
    && Last(acc, d) in h
    && (acc.Snoc? ==>
        && Child(o, h[acc.x]) == Root(acc.sub) && Linked(h, acc.sub)
        && AccLinked(h, o, acc.up, d)
        && Child(Other(o), h[Last(acc.up, d)]) == acc.x)
  }

  /** Middle `t`, side trees `p` on side `o` and `q` on the other side, header `d`. */
  predicate Parts(h: Links, o: Side, t: Tree, p: Acc, q: Acc, d: Node) {
    && Distinct(t) && DistinctAcc(p) && DistinctAcc(q)
    && Nodes(t) !! AccNodes(p) && Nodes(t) !! AccNodes(q) && AccNodes(p) !! AccNodes(q)
    && d in h && d !in Nodes(t) + AccNodes(p) + AccNodes(q)
    && Linked(h, t) && AccLinked(h, o, p, d) && AccLinked(h, Other(o), q, d)
  }

  lemma {:induction false} KeepLinked(h: Links, h': Links, changed: set<Node>, t: Tree)
    requires Linked(h, t) && SameBut(h, h', changed) && Nodes(t) !! changed
    ensures Linked(h', t)
  {
    if t.Bin? {
      KeepLinked(h, h', changed, t.l);
      KeepLinked(h, h', changed, t.r);
    }
  }

  /** Inside a side tree on side `o` only the pointers to the subtrees and the chain
      matter: the hole itself may change. */
  lemma {:induction false} KeepAcc(h: Links, h': Links, changed: set<Node>, o: Side, acc: Acc, d: Node)
    requires AccLinked(h, o, acc, d) && SameBut(h, h', changed) && DistinctAcc(acc) && d !in AccNodes(acc)
    requires AccNodes(acc) * changed <= {Last(acc, d)}
    requires acc.Snoc? && d in changed ==> d in h && d in h' && Child(Other(o), h'[d]) == Child(Other(o), h[d])
    requires Last(acc, d) in h' && (acc.Snoc? ==> Child(o, h'[acc.x]) == Child(o, h[acc.x]))
    ensures AccLinked(h', o, acc, d)
    decreases acc
  {
    if acc.Snoc? {
      KeepLinked(h, h', changed, acc.sub);
      if acc.up.Snoc? {
        assert AccNodes(acc.up) !! changed;
        assert h'[acc.up.x] == h[acc.up.x];
      }
      KeepAcc(h, h', changed, o, acc.up, d);
    }
  }

  lemma Sides(s: Side, near: Tree, x: Node, far: Tree)
    ensures var t := Mk(s, near, x, far);
            && Nodes(t) == Nodes(near) + {x} + Nodes(far)
            && (Distinct(t) <==>
                Distinct(near) && Distinct(far) && x !in Nodes(near) && x !in Nodes(far) && Nodes(near) !! Nodes(far))
            && forall h :: Linked(h, t) <==>
                  && x in h && h[x] == MkCell(s, Root(near), Root(far))
                  && Linked(h, near) && Linked(h, far)
  {
  }

  // ----- the three macros of the loop -----

  lemma MiddleFields(h: Links, o: Side, t: Tree, p: Acc, q: Acc, d: Node)
    requires Parts(h, o, t, p, q, d) && t.Bin?
    ensures t.x in h && h[t.x] == Cell(Root(t.l), Root(t.r))
    ensures t.l.Bin? ==> t.l.x in h && h[t.l.x] == Cell(Root(t.l.l), Root(t.l.r)) && t.l.x != t.x
    ensures t.r.Bin? ==> t.r.x in h && h[t.r.x] == Cell(Root(t.r.l), Root(t.r.r)) && t.r.x != t.x
  {
    assert Linked(h, t.l) && Linked(h, t.r);
  }

  lemma RotatedDistinct(s: Side, t: Tree)
    requires t.Bin? && Kid(s, t).Bin? && Distinct(t)
    ensures Distinct(Rotated(s, t)) && Nodes(Rotated(s, t)) == Nodes(t)
  {
    var w, o := Kid(s, t), Other(s);
    Sides(s, w, t.x, Kid(o, t));
    Sides(s, Kid(s, w), w.x, Kid(o, w));
    Sides(s, Kid(o, w), t.x, Kid(o, t));
    Sides(s, Kid(s, w), w.x, Mk(s, Kid(o, w), t.x, Kid(o, t)));
  }

  lemma RotateParts(h: Links, h': Links, o: Side, t: Tree, p: Acc, q: Acc, d: Node)
    requires Parts(h, o, t, p, q, d) && t.Bin? && Kid(Other(o), t).Bin?
    requires var s := Other(o); var w := Kid(s, t);
             && SameBut(h, h', {t.x, w.x})
             && t.x in h' && h'[t.x] == MkCell(s, Root(Kid(o, w)), Root(Kid(o, t)))
             && w.x in h' && h'[w.x] == MkCell(s, Root(Kid(s, w)), t.x)
    ensures Parts(h', o, Rotated(Other(o), t), p, q, d)
  {
    var s := Other(o);
    var w := Kid(s, t);
    var changed := {t.x, w.x};
    RotatedDistinct(s, t);
    Sides(s, w, t.x, Kid(o, t));
    Sides(s, Kid(s, w), w.x, Kid(o, w));
    KeepLinked(h, h', changed, Kid(s, w));
    KeepLinked(h, h', changed, Kid(o, w));
    KeepLinked(h, h', changed, Kid(o, t));
    assert Linked(h', Rotated(s, t));
    KeepAcc(h, h', changed, o, p, d);
    KeepAcc(h, h', changed, s, q, d);
  }

  /** Writing the hole pointer of one side tree disturbs nothing. */
  lemma HoleParts(h: Links, h': Links, o: Side, t: Tree, p: Acc, q: Acc, d: Node, v: Node?)
    requires Parts(h, o, t, p, q, d)
    requires var m := Last(p, d);
             SameBut(h, h', {m}) && m in h && m in h' && h'[m] == MkCell(Other(o), v, Child(o, h[m]))
    ensures Parts(h', o, t, p, q, d)
    ensures Last(q, d) in h && Last(q, d) in h' && Child(o, h'[Last(q, d)]) == Child(o, h[Last(q, d)])
  {
    var m := Last(p, d);
    KeepLinked(h, h', {m}, t);
    KeepAcc(h, h', {m}, o, p, d);
    KeepAcc(h, h', {m}, Other(o), q, d);
  }

  /** SPLAY_LINKLEFT for `o == R`, SPLAY_LINKRIGHT for `o == L`. */
  lemma LinkParts(h: Links, o: Side, t: Tree, p: Acc, q: Acc, d: Node)
    requires Parts(h, o, t, p, q, d) && t.Bin? && Child(Other(o), h[Last(p, d)]) == t.x
    ensures Parts(h, o, Kid(Other(o), t), Snoc(p, t.x, Kid(o, t)), q, d)
  {
    Sides(Other(o), Kid(Other(o), t), t.x, Kid(o, t));
  }

  /** Once the hole is filled, the chain from the header is an ordinary tree. */
  lemma {:induction false} FillLinked(h: Links, o: Side, acc: Acc, d: Node, t: Tree)
    requires AccLinked(h, o, acc, d) && DistinctAcc(acc) && Linked(h, t) && Distinct(t) && d in h
    requires AccNodes(acc) !! Nodes(t) && Child(Other(o), h[Last(acc, d)]) == Root(t)
    ensures Linked(h, Fill(o, acc, t)) && Distinct(Fill(o, acc, t))
    ensures Nodes(Fill(o, acc, t)) == AccNodes(acc) + Nodes(t)
    ensures Child(Other(o), h[d]) == Root(Fill(o, acc, t))
    decreases acc
  {
    if acc.Snoc? {
      Sides(Other(o), t, acc.x, acc.sub);
      FillLinked(h, o, acc.up, d, Mk(Other(o), t, acc.x, acc.sub));
    }
  }

  /** A filled side tree does not notice a change at `x`. */
  lemma FillKept(h: Links, h': Links, x: Node, o: Side, acc: Acc, d: Node, t: Tree)
    requires AccLinked(h, o, acc, d) && DistinctAcc(acc) && Linked(h, t) && Distinct(t) && d in h
    requires AccNodes(acc) !! Nodes(t) && Child(Other(o), h[Last(acc, d)]) == Root(t)
    requires SameBut(h, h', {x}) && x !in AccNodes(acc) && x !in Nodes(t)
    ensures var r := Fill(o, acc, t);
            && Linked(h', r) && Distinct(r) && Nodes(r) == AccNodes(acc) + Nodes(t)
            && Child(Other(o), h[d]) == Root(r)
  {
    FillLinked(h, o, acc, d, t);
    KeepLinked(h, h', {x}, Fill(o, acc, t));
  }

  /** SPLAY_ASSEMBLE, after its first two assignments. */
  lemma AssembleParts(h: Links, h': Links, t: Tree, a: Acc, b: Acc, d: Node)
    requires Parts(h, L, t, a, b, d) && t.Bin?
    requires Child(R, h[Last(a, d)]) == Root(t.l) && Child(L, h[Last(b, d)]) == Root(t.r)
    requires SameBut(h, h', {t.x}) && t.x in h' && h'[t.x] == Cell(h[d].right, h[d].left)
    ensures Linked(h', Assemble(t, a, b)) && Distinct(Assemble(t, a, b))
  {
    FillKept(h, h', t.x, L, a, d, t.l);
    FillKept(h, h', t.x, R, b, d, t.r);
  }

  lemma {:induction false} NodesInorder(t: Tree)
    ensures Nodes(t) == Members(Inorder(t))
  {
    if t.Bin? {
      NodesInorder(t.l);
      NodesInorder(t.r);
    }
  }

  lemma {:induction false} LinkedNodes(h: Links, t: Tree)
    requires Linked(h, t)
    ensures Nodes(t) <= h.Keys
  {
    if t.Bin? {
      LinkedNodes(h, t.l);
      LinkedNodes(h, t.r);
    }
  }

  /** The new root of SPLAY_INSERT takes the subtree on side `s` from the splayed one. */
  lemma InsertLinked(h: Links, h': Links, s: Side, r: Tree, x: Node)
    requires r.Bin? && Linked(h, r) && Distinct(r) && x !in Nodes(r) && SameBut(h, h', {x, r.x})
    requires x in h' && h'[x] == MkCell(s, Root(Kid(s, r)), r.x)
    requires r.x in h' && h'[r.x] == MkCell(s, null, Root(Kid(Other(s), r)))
    ensures var t := Mk(s, Kid(s, r), x, Mk(s, Leaf, r.x, Kid(Other(s), r)));
            Linked(h', t) && Distinct(t) && Nodes(t) == Nodes(r) + {x}
  {
    var near, far := Kid(s, r), Kid(Other(s), r);
    Sides(s, near, r.x, far);
    Sides(s, Leaf, r.x, far);
    Sides(s, near, x, Mk(s, Leaf, r.x, far));
    KeepLinked(h, h', {x, r.x}, near);
    KeepLinked(h, h', {x, r.x}, far);
  }
}

/**
  How splaying rebalances: what lay on the search path ends at about half its depth, and
  nothing sinks by more than two levels.
 */
module SplayDepth {
  import opened Order
  import opened Elements
  import opened SplaySpec

  /** Node `y` is in the tree, at depth `n` at most; the root has depth 0. */
  predicate Within(t: Tree, y: Node, n: nat) {
    t.Bin? && (t.x == y || (n > 0 && (Within(t.l, y, n - 1) || Within(t.r, y, n - 1))))
  }

  /** The search for `p` meets node `y` at depth `d`. */
  predicate OnPath(cmp: Cmp, p: Probe, t: Tree, y: Node, d: nat) {
    t.Bin? &&
    if d == 0 then t.x == y
    else if Dir(cmp, p, t.x) < 0 then OnPath(cmp, p, t.l, y, d - 1)
    else Dir(cmp, p, t.x) > 0 && OnPath(cmp, p, t.r, y, d - 1)
  }

  function Len(acc: Acc): nat {
    if acc.Nil? then 0 else 1 + Len(acc.up)
  }

  /** The same as `Within` for a side tree, counted in the tree that will be assembled. */
  predicate AccWithin(acc: Acc, y: Node, n: nat) {
    acc.Snoc? &&
    (|| (acc.x == y && Len(acc) <= n)
     || (Len(acc) < n && Within(acc.sub, y, n - Len(acc) - 1))
     || AccWithin(acc.up, y, n))
  }

  lemma {:induction false} WithinMore(t: Tree, y: Node, n: nat, m: nat)
    requires Within(t, y, n) && n <= m
    ensures Within(t, y, m)
  {
    if t.x != y {
      if Within(t.l, y, n - 1) {
        WithinMore(t.l, y, n - 1, m - 1);
      } else {
        WithinMore(t.r, y, n - 1, m - 1);
      }
    }
  }

  lemma {:induction false} FillHole(o: Side, acc: Acc, t: Tree, y: Node, n: nat)
    requires Within(t, y, n)
    ensures Within(Fill(o, acc, t), y, n + Len(acc))
    decreases acc
  {
    if acc.Snoc? {
      FillHole(o, acc.up, Mk(Other(o), t, acc.x, acc.sub), y, n + 1);
    }
  }

  lemma {:induction false} FillWithin(o: Side, acc: Acc, t: Tree, y: Node, n: nat)
    requires AccWithin(acc, y, n)
    ensures n > 0 && Within(Fill(o, acc, t), y, n - 1)
    decreases acc
  {
    var t1 := Mk(Other(o), t, acc.x, acc.sub);
    if acc.x == y && Len(acc) <= n {
      FillHole(o, acc.up, t1, y, 0);
      WithinMore(Fill(o, acc, t), y, Len(acc) - 1, n - 1);
    } else if Len(acc) < n && Within(acc.sub, y, n - Len(acc) - 1) {
      FillHole(o, acc.up, t1, y, n - Len(acc));
    } else {
      FillWithin(o, acc.up, t1, y, n);
    }
  }

  lemma AssembleWithin(t: Tree, a: Acc, b: Acc, y: Node, n: nat)
    requires t.Bin? && (AccWithin(a, y, n) || AccWithin(b, y, n))
    ensures Within(Assemble(t, a, b), y, n)
  {
    if AccWithin(a, y, n) {
      FillWithin(L, a, t.l, y, n);
    } else {
      FillWithin(R, b, t.r, y, n);
    }
  }

  lemma AssembleMiddle(t: Tree, a: Acc, b: Acc, y: Node, n: nat)
    requires t.Bin? && Within(t, y, n)
    ensures Within(Assemble(t, a, b), y, n + if Len(a) > Len(b) then Len(a) else Len(b))
  {
    var m := n + if Len(a) > Len(b) then Len(a) else Len(b);
    if t.x != y {
      if Within(t.l, y, n - 1) {
        FillHole(L, a, t.l, y, n - 1);
        WithinMore(Fill(L, a, t.l), y, n - 1 + Len(a), m - 1);
      } else {
        FillHole(R, b, t.r, y, n - 1);
        WithinMore(Fill(R, b, t.r), y, n - 1 + Len(b), m - 1);
      }
    }
  }

  /** What has been linked into a side tree stays at its depth. */
  lemma {:induction false} LinkedStays(cmp: Cmp, p: Probe, t: Tree, a: Acc, b: Acc, y: Node, n: nat)
    requires t.Bin? && (AccWithin(a, y, n) || AccWithin(b, y, n))
    ensures Within(SplayLoop(cmp, p, t, a, b), y, n)
    decreases Size(t)
  {
    var c := Dir(cmp, p, t.x);
    var s := if c < 0 then L else R;
    if c == 0 || Kid(s, t).Leaf? {
      AssembleWithin(t, a, b, y, n);
    } else {
      var t1 := Zig(cmp, p, s, t);
      if Kid(s, t1).Leaf? {
        AssembleWithin(t1, a, b, y, n);
      } else if s == L {
        LinkedStays(cmp, p, t1.l, a, Snoc(b, t1.x, t1.r), y, n);
      } else {
        LinkedStays(cmp, p, t1.r, Snoc(a, t1.x, t1.l), b, y, n);
      }
    }
  }

  /** The side trees are at most half as long as the path walked so far, because only a
      rotation lets the search go on to the same side. */
  predicate Short(cmp: Cmp, p: Probe, t: Tree, a: Acc, b: Acc, d: nat)
    requires t.Bin?
  {
    && 2 * Len(a) <= d + 1 && 2 * Len(b) <= d + 1
    && (Dir(cmp, p, t.x) > 0 ==> 2 * Len(a) <= d)
    && (Dir(cmp, p, t.x) < 0 ==> 2 * Len(b) <= d)
  }

  /** How many nodes of the path an iteration towards side `s` leaves behind. */
  function Steps(cmp: Cmp, p: Probe, s: Side, t: Tree): nat
    requires t.Bin? && Kid(s, t).Bin?
  {
    if Beyond(cmp, p, Other(s), Kid(s, t).x) then 2 else 1
  }

  /** An iteration that links: the side trees `a'` and `b'` it goes on with, one of which
      has grown. */
  lemma LoopStep(cmp: Cmp, p: Probe, s: Side, t: Tree, a: Acc, b: Acc, d: nat) returns (q: Acc, a': Acc, b': Acc)
    requires t.Bin? && Kid(s, t).Bin? && Beyond(cmp, p, Other(s), t.x) && Short(cmp, p, t, a, b, d)
    requires Kid(s, Zig(cmp, p, s, t)).Bin?
    ensures var t1 := Zig(cmp, p, s, t);
            && SplayLoop(cmp, p, t, a, b) == SplayLoop(cmp, p, Kid(s, t1), a', b')
            && Size(Kid(s, t1)) < Size(t)
            && Short(cmp, p, Kid(s, t1), a', b', d + Steps(cmp, p, s, t))
            && 2 * Len(q) <= d && Snoc(q, t1.x, Kid(Other(s), t1)) in {a', b'}
  {
    var t1 := Zig(cmp, p, s, t);
    q, a', b' := if s == L then b else a, a, b;
    if s == L { b' := Snoc(b, t1.x, t1.r); } else { a' := Snoc(a, t1.x, t1.l); }
    assert t1 == Mk(s, Kid(s, t1), t1.x, Kid(Other(s), t1));
  }

  /** What one iteration towards side `s` links, and what is left of the path. */
  lemma PathStep(cmp: Cmp, p: Probe, s: Side, t: Tree, q: Acc, d: nat, y: Node, j: nat, n: nat)
    requires t.Bin? && Kid(s, t).Bin? && Beyond(cmp, p, Other(s), t.x) && 2 * Len(q) <= d
    requires OnPath(cmp, p, t, y, j) && d + j + 3 <= 2 * n
    ensures var t1, i := Zig(cmp, p, s, t), Steps(cmp, p, s, t);
            if j < i then
              AccWithin(Snoc(q, t1.x, Kid(Other(s), t1)), y, n) && Within(t1, y, 1)
            else
              OnPath(cmp, p, Kid(s, t1), y, j - i)
  {
    if j > 0 && Beyond(cmp, p, Other(s), Kid(s, t).x) {
      assert OnPath(cmp, p, Kid(s, t), y, j - 1);
    }
  }

  /** The longer side tree is what a node in the middle sinks by when the parts are put
      together. */
  lemma AssembleSinks(cmp: Cmp, p: Probe, t: Tree, t1: Tree, a: Acc, b: Acc, d: nat, y: Node, n: nat, m: nat)
    requires t.Bin? && t1.Bin? && Short(cmp, p, t, a, b, d) && Within(t1, y, n) && 2 * n + d + 1 <= 2 * m
    ensures Within(Assemble(t1, a, b), y, m)
  {
    AssembleMiddle(t1, a, b, y, n);
    WithinMore(Assemble(t1, a, b), y, n + if Len(a) > Len(b) then Len(a) else Len(b), m);
  }

  /** An iteration that links puts `y` into a side tree or leaves it on the path. */
  lemma LinkHalves(cmp: Cmp, p: Probe, s: Side, t: Tree, a: Acc, b: Acc, d: nat, y: Node, j: nat, n: nat)
    returns (a': Acc, b': Acc)
    requires t.Bin? && Kid(s, t).Bin? && Beyond(cmp, p, Other(s), t.x) && Short(cmp, p, t, a, b, d)
    requires Kid(s, Zig(cmp, p, s, t)).Bin? && OnPath(cmp, p, t, y, j) && d + j + 3 <= 2 * n
    ensures var t1, i := Zig(cmp, p, s, t), Steps(cmp, p, s, t);
            && SplayLoop(cmp, p, t, a, b) == SplayLoop(cmp, p, Kid(s, t1), a', b')
            && Size(Kid(s, t1)) < Size(t) && Short(cmp, p, Kid(s, t1), a', b', d + i)
            && if j < i then AccWithin(a', y, n) || AccWithin(b', y, n) else OnPath(cmp, p, Kid(s, t1), y, j - i)
  {
    var q;
    q, a', b' := LoopStep(cmp, p, s, t, a, b, d);
    PathStep(cmp, p, s, t, q, d, y, j, n);
  }

  lemma EndHalves(cmp: Cmp, p: Probe, s: Side, t: Tree, a: Acc, b: Acc, d: nat, y: Node, j: nat, n: nat)
    requires t.Bin? && Kid(s, t).Bin? && Beyond(cmp, p, Other(s), t.x) && Short(cmp, p, t, a, b, d)
    requires Kid(s, Zig(cmp, p, s, t)).Leaf? && OnPath(cmp, p, t, y, j) && d + j + 3 <= 2 * n
    ensures Within(Assemble(Zig(cmp, p, s, t), a, b), y, n)
  {
    PathStep(cmp, p, s, t, if s == L then b else a, d, y, j, n);
    AssembleSinks(cmp, p, t, Zig(cmp, p, s, t), a, b, d, y, 1, n);
  }

  /** Node `y` is at depth `d + j` of the whole search path, `d` of which is behind. */
  lemma {:induction false} PathHalved(cmp: Cmp, p: Probe, t: Tree, a: Acc, b: Acc, d: nat, y: Node, j: nat, n: nat)
    requires t.Bin? && Short(cmp, p, t, a, b, d) && OnPath(cmp, p, t, y, j) && d + j + 3 <= 2 * n
    ensures Within(SplayLoop(cmp, p, t, a, b), y, n)
    decreases Size(t)
  {
    var c := Dir(cmp, p, t.x);
    var s := if c < 0 then L else R;
    if c != 0 && Kid(s, t).Bin? {
      var t1, i := Zig(cmp, p, s, t), Steps(cmp, p, s, t);
      if Kid(s, t1).Leaf? {
        EndHalves(cmp, p, s, t, a, b, d, y, j, n);
      } else {
        var a', b' := LinkHalves(cmp, p, s, t, a, b, d, y, j, n);
        if j < i {
          LinkedStays(cmp, p, Kid(s, t1), a', b', y, n);
        } else {
          PathHalved(cmp, p, Kid(s, t1), a', b', d + i, y, j - i, n);
        }
      }
    }
  }

  /** What the search met at depth d is at depth d / 2 + 2 at most afterwards. */
  lemma SplayHalvesPath(cmp: Cmp, p: Probe, t: Tree, y: Node, d: nat)
    requires OnPath(cmp, p, t, y, d)
    ensures Within(Splay(cmp, p, t), y, d / 2 + 2)
  {
    PathHalved(cmp, p, t, Nil, Nil, 0, y, d, d / 2 + 2);
  }

  /** What a rotation puts beside the place that is sought. */
  lemma RotatedBeside(s: Side, t: Tree, y: Node, n: nat)
    requires t.Bin? && Kid(s, t).Bin? && Within(t, y, n)
    ensures var w, t1 := Kid(s, t), Rotated(s, t);
            || y == w.x || (n >= 2 && Within(Kid(s, w), y, n - 2)) || Within(Kid(Other(s), t1), y, n)
  {
    var w, o := Kid(s, t), Other(s);
    if t.x != y && Within(w, y, n - 1) && w.x != y && Within(Kid(o, w), y, n - 2) {
      WithinMore(Kid(o, w), y, n - 2, n - 1);
    }
  }

  lemma ZigSinks(cmp: Cmp, p: Probe, s: Side, t: Tree, y: Node, n: nat)
    requires t.Bin? && Kid(s, t).Bin? && Within(t, y, n)
    ensures Within(Zig(cmp, p, s, t), y, n + 1)
  {
    var w, t1 := Kid(s, t), Rotated(s, t);
    WithinMore(t, y, n, n + 1);
    RotatedBeside(s, t, y, n);
    assert Kid(s, t1) == Kid(s, w) && t1.x == w.x;
    if n >= 2 && Within(Kid(s, w), y, n - 2) {
      WithinMore(Kid(s, w), y, n - 2, n);
    }
    KidWithin(s, t1, y, n);
    KidWithin(Other(s), t1, y, n);
  }

  lemma KidWithin(s: Side, t: Tree, y: Node, n: nat)
    requires t.Bin?
    ensures Within(Kid(s, t), y, n) ==> Within(t, y, n + 1)
  {
  }

  lemma SinkStep(cmp: Cmp, p: Probe, s: Side, t: Tree, q: Acc, d: nat, y: Node, n: nat)
    requires t.Bin? && Kid(s, t).Bin? && 2 * Len(q) <= d && Within(t, y, n)
    ensures var t1, i := Zig(cmp, p, s, t), Steps(cmp, p, s, t);
            || AccWithin(Snoc(q, t1.x, Kid(Other(s), t1)), y, d + n + 2)
            || (i <= n && Within(Kid(s, t1), y, n - i))
  {
    var t1 := Zig(cmp, p, s, t);
    var sub := Kid(Other(s), t1);
    if t1 != t { RotatedBeside(s, t, y, n); }
    if Within(sub, y, n) {
      WithinMore(sub, y, n, d + n - Len(q));
    } else if n > 0 && Within(sub, y, n - 1) {
      WithinMore(sub, y, n - 1, d + n - Len(q));
    }
  }

  /** An iteration that links puts `y` into a side tree or leaves it in the middle. */
  lemma LinkSinks(cmp: Cmp, p: Probe, s: Side, t: Tree, a: Acc, b: Acc, d: nat, y: Node, n: nat)
    returns (a': Acc, b': Acc, linked: bool)
    requires t.Bin? && Kid(s, t).Bin? && Beyond(cmp, p, Other(s), t.x) && Short(cmp, p, t, a, b, d)
    requires Kid(s, Zig(cmp, p, s, t)).Bin? && Within(t, y, n)
    ensures var t1, i := Zig(cmp, p, s, t), Steps(cmp, p, s, t);
            && SplayLoop(cmp, p, t, a, b) == SplayLoop(cmp, p, Kid(s, t1), a', b')
            && Size(Kid(s, t1)) < Size(t) && Short(cmp, p, Kid(s, t1), a', b', d + i)
            && if linked then AccWithin(a', y, d + n + 2) || AccWithin(b', y, d + n + 2)
               else i <= n && Within(Kid(s, t1), y, n - i)
  {
    var q;
    q, a', b' := LoopStep(cmp, p, s, t, a, b, d);
    SinkStep(cmp, p, s, t, q, d, y, n);
    linked := AccWithin(a', y, d + n + 2) || AccWithin(b', y, d + n + 2);
  }

  lemma EndSinks(cmp: Cmp, p: Probe, s: Side, t: Tree, a: Acc, b: Acc, d: nat, y: Node, n: nat)
    requires t.Bin? && Kid(s, t).Bin? && Short(cmp, p, t, a, b, d) && Within(t, y, n)
    ensures Within(Assemble(Zig(cmp, p, s, t), a, b), y, d + n + 2)
  {
    ZigSinks(cmp, p, s, t, y, n);
    AssembleSinks(cmp, p, t, Zig(cmp, p, s, t), a, b, d, y, n + 1, d + n + 2);
  }

  /** The same for any node: what is left after `d` steps sinks by two levels at most. */
  lemma {:induction false} LoopSinks(cmp: Cmp, p: Probe, t: Tree, a: Acc, b: Acc, d: nat, y: Node, n: nat)
    requires t.Bin? && Short(cmp, p, t, a, b, d) && Within(t, y, n)
    ensures Within(SplayLoop(cmp, p, t, a, b), y, d + n + 2)
    decreases Size(t)
  {
    var c := Dir(cmp, p, t.x);
    var s := if c < 0 then L else R;
    if c == 0 || Kid(s, t).Leaf? {
      AssembleSinks(cmp, p, t, t, a, b, d, y, n, d + n + 2);
    } else {
      var t1, i := Zig(cmp, p, s, t), Steps(cmp, p, s, t);
      if Kid(s, t1).Leaf? {
        EndSinks(cmp, p, s, t, a, b, d, y, n);
      } else {
        var a', b', linked := LinkSinks(cmp, p, s, t, a, b, d, y, n);
        if linked {
          LinkedStays(cmp, p, Kid(s, t1), a', b', y, d + n + 2);
        } else {
          LoopSinks(cmp, p, Kid(s, t1), a', b', d + i, y, n - i);
        }
      }
    }
  }

  /** No node sinks by more than two levels. */
  lemma SplaySinks(cmp: Cmp, p: Probe, t: Tree, y: Node, n: nat)
    requires t.Bin? && Within(t, y, n)
    ensures Within(Splay(cmp, p, t), y, n + 2)
  {
    LoopSinks(cmp, p, t, Nil, Nil, 0, y, n);
  }

  // ----- whole operations -----

  function Sought(op: Op): Probe {
    match op
    case OpInsert(x) => ByKey(x.key)
    case OpRemove(key) => ByKey(key)
    case OpFind(key) => ByKey(key)
  }

  lemma InsertRootWithin(cmp: Cmp, r: Tree, x: Node, y: Node, n: nat)
    requires Within(r, y, n)
    ensures Within(InsertRoot(cmp, r, x), y, n + 1)
  {
    WithinMore(r, y, n, n + 1);
    if r.x != y {
      if Within(r.l, y, n - 1) {
        WithinMore(r.l, y, n - 1, n);
      } else {
        WithinMore(r.r, y, n - 1, n);
      }
    }
  }

  lemma RemoveRootWithin(cmp: Cmp, r: Tree, key: Key, y: Node, n: nat)
    requires TotalOrder(cmp) && r.Bin? && Sorted(cmp, Inorder(r)) && AllBelow(cmp, Inorder(r.l), key)
    requires Within(r, y, n) && !Equal(cmp, key, y.key)
    ensures Within(RemoveRoot(cmp, r, key), y, n + 1)
  {
    WithinMore(r, y, n, n + 1);
    if Equal(cmp, key, r.x.key) {
      SortedParts(cmp, Inorder(r.l), r.x, Inorder(r.r));
      if r.l.Bin? { SecondSplay(cmp, key, r.l); }
      if Within(r.r, y, n - 1) {
        WithinMore(r.r, y, n - 1, n);
        WithinMore(r.r, y, n - 1, n + 1);
      } else {
        SplaySinks(cmp, ByKey(key), r.l, y, n - 1);
      }
    }
  }

  /** After any operation an element that the search met at depth d, and that is still in
      the tree, is at depth d / 2 + 3 at most. */
  lemma AccessHalvesPath(cmp: Cmp, t: Tree, op: Op, y: Node, d: nat)
    requires TotalOrder(cmp) && Sorted(cmp, Inorder(t)) && OnPath(cmp, Sought(op), t, y, d)
    requires op.OpRemove? ==> !Equal(cmp, op.key, y.key)
    ensures Within(Apply(cmp, t, op), y, d / 2 + if op.OpFind? then 2 else 3)
  {
    var r, n := Splay(cmp, Sought(op), t), d / 2 + 2;
    SplayHalvesPath(cmp, Sought(op), t, y, d);
    match op
    case OpInsert(x) => InsertRootWithin(cmp, r, x, y, n);
    case OpRemove(key) =>
      SplayByKey(cmp, key, t);
      RemoveRootWithin(cmp, r, key, y, n);
    case OpFind(_) =>
  }
}

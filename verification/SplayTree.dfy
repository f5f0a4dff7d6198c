/**
  The SPLAY macros of utils/tree.h on linked nodes, proved to turn the links of one
  tree shape into the links of the shape that SplaySpec computes.
 */
module SplayTree {
  import opened Order
  import opened Elements
  import opened SplaySpec
  import opened SplayLinks

  function Get(s: Side, x: Node): Node?
    reads x`spLeft, x`spRight
  {
    if s == L then x.spLeft else x.spRight
  }

  /** The SPLAY_ENTRYs of a set of elements. */
  ghost function Snap(all: set<Node>): Links
    reads all`spLeft, all`spRight
  {
    map x | x in all :: Cell(x.spLeft, x.spRight)
  }

  method Set(s: Side, x: Node, v: Node?, ghost all: set<Node>)
    requires x in all
    modifies x`spLeft, x`spRight
    ensures Snap(all) == old(Snap(all))[x := MkCell(s, v, old(Get(Other(s), x)))]
  {
    if s == L { x.spLeft := v; } else { x.spRight := v; }
  }

  class Head {
    const cmp: Cmp
    var root: Node?

    ghost var all: set<Node>    // the elements of the tree
    ghost var tree: Tree        // its shape

    ghost predicate Valid()
      reads this, all`spLeft, all`spRight
    {
      && TotalOrder(cmp) && Sorted(cmp, Inorder(tree))
      && Distinct(tree) && Linked(Snap(all), tree) && root == Root(tree) && Nodes(tree) == all
    }

    /** SPLAY_INIT */
    constructor (cmp: Cmp)
      requires TotalOrder(cmp)
      ensures Valid() && all == {} && tree == Leaf && this.cmp == cmp
    {
      this.cmp := cmp;
      root := null;
      all, tree := {}, Leaf;
    }

    /** SPLAY_ROTATE_RIGHT for `s == L`, SPLAY_ROTATE_LEFT for `s == R`. */
    method Rotate(s: Side, tmp: Node, ghost t: Tree, ghost p: Acc, ghost q: Acc, ghost d: Node, ghost S: set<Node>)
      requires Parts(Snap(S), Other(s), t, p, q, d) && t.Bin? && root == t.x && Kid(s, t).Bin? && tmp == Kid(s, t).x
      modifies this`root, S`spLeft, S`spRight
      ensures Parts(Snap(S), Other(s), Rotated(s, t), p, q, d) && root == Rotated(s, t).x
    {
      MiddleFields(Snap(S), Other(s), t, p, q, d);
      Set(s, root, Get(Other(s), tmp), S);
      Set(Other(s), tmp, root, S);
      root := tmp;
      RotateParts(old(Snap(S)), Snap(S), Other(s), t, p, q, d);
    }

    /** SPLAY_LINKLEFT for `s == L`, SPLAY_LINKRIGHT for `s == R`; `m` is the last node
        of the side tree that grows. */
    method LinkTo(s: Side, m: Node, ghost t: Tree, ghost p: Acc, ghost q: Acc, ghost d: Node, ghost S: set<Node>)
      returns (m': Node)
      requires Parts(Snap(S), Other(s), t, p, q, d) && t.Bin? && root == t.x && m == Last(p, d)
      modifies this`root, S`spLeft, S`spRight
      ensures Parts(Snap(S), Other(s), Kid(s, t), Snoc(p, t.x, Kid(Other(s), t)), q, d)
      ensures m' == t.x && root == Root(Kid(s, t))
    {
      Set(s, m, root, S);
      HoleParts(old(Snap(S)), Snap(S), Other(s), t, p, q, d, t.x);
      LinkParts(Snap(S), Other(s), t, p, q, d);
      MiddleFields(Snap(S), Other(s), t, p, q, d);
      m' := root;
      root := Get(s, root);
    }

    /** The zig-zig rotation of an iteration, if the sought place lies beyond `tmp`. */
    method Turn(p: Probe, s: Side, tmp: Node, ghost t: Tree, ghost q: Acc, ghost q': Acc,
                ghost d: Node, ghost S: set<Node>)
      requires Parts(Snap(S), Other(s), t, q, q', d) && t.Bin? && root == t.x && Kid(s, t).Bin? && tmp == Kid(s, t).x
      modifies this`root, S`spLeft, S`spRight
      ensures Parts(Snap(S), Other(s), Zig(cmp, p, s, t), q, q', d)
      ensures root == Zig(cmp, p, s, t).x && Get(s, root) == Root(Kid(s, Zig(cmp, p, s, t)))
    {
      MiddleFields(Snap(S), Other(s), t, q, q', d);
      if Beyond(cmp, p, Other(s), tmp) {
        Rotate(s, tmp, t, q, q', d, S);
        MiddleFields(Snap(S), Other(s), Rotated(s, t), q, q', d);
      }
    }

    /** One iteration of the splay loop towards side `s`, growing the side tree `q0` on
        the other side, whose last node is `m0`; `last` says that the loop breaks. */
    method Iterate(p: Probe, s: Side, m0: Node, ghost t0: Tree, ghost q0: Acc, ghost q': Acc,
                   ghost d: Node, ghost S: set<Node>)
      returns (last: bool, m: Node, ghost t: Tree, ghost q: Acc)
      requires Parts(Snap(S), Other(s), t0, q0, q', d) && t0.Bin? && root == t0.x && m0 == Last(q0, d)
      requires Beyond(cmp, p, Other(s), t0.x)
      modifies this`root, S`spLeft, S`spRight
      ensures Parts(Snap(S), Other(s), t, q, q', d) && t.Bin? && root == t.x && m == Last(q, d)
      ensures last ==> q == q0 && t == if Kid(s, t0).Leaf? then t0 else Zig(cmp, p, s, t0)
      ensures last ==> Kid(s, t0).Leaf? || Kid(s, Zig(cmp, p, s, t0)).Leaf?
      ensures !last ==>
                && Kid(s, t0).Bin?
                && var t1 := Zig(cmp, p, s, t0); t == Kid(s, t1) && q == Snoc(q0, t1.x, Kid(Other(s), t1))
    {
      m, t, q, last := m0, t0, q0, true;
      MiddleFields(Snap(S), Other(s), t, q, q', d);
      var tmp := Get(s, root);
      if tmp == null { return; }
      Turn(p, s, tmp, t, q, q', d, S);
      t := Zig(cmp, p, s, t);
      if Get(s, root) == null { return; }
      m := LinkTo(s, m, t, q, q', d, S);
      q := Snoc(q, t.x, Kid(Other(s), t));
      t := Kid(s, t);
      last := false;
    }

    /** The splay loop: it leaves the parts of the result. */
    method Loop(p: Probe, node: Node, ghost t0: Tree, ghost S: set<Node>)
      returns (left: Node, right: Node, ghost t: Tree, ghost a: Acc, ghost b: Acc)
      requires Parts(Snap(S), L, t0, Nil, Nil, node) && t0.Bin? && root == t0.x
      modifies this`root, S`spLeft, S`spRight
      ensures Parts(Snap(S), L, t, a, b, node) && t.Bin? && root == t.x
      ensures left == Last(a, node) && right == Last(b, node)
      ensures Assemble(t, a, b) == Splay(cmp, p, t0)
    {
      left, right, t, a, b := node, node, t0, Nil, Nil;
      while Dir(cmp, p, root) != 0
        invariant Parts(Snap(S), L, t, a, b, node) && t.Bin? && root == t.x
        invariant left == Last(a, node) && right == Last(b, node)
        invariant SplayLoop(cmp, p, t, a, b) == Splay(cmp, p, t0)
        decreases Size(t)
      {
        var last;
        if Dir(cmp, p, root) < 0 {
          last, right, t, b := Iterate(p, L, right, t, b, a, node, S);
        } else {
          last, left, t, a := Iterate(p, R, left, t, a, b, node, S);
        }
        if last { break; }
      }
    }

    /** The first two assignments of SPLAY_ASSEMBLE: the subtrees of the root fill the
        holes of the side trees. */
    method FillHoles(node: Node, left: Node, right: Node, ghost t: Tree, ghost a: Acc, ghost b: Acc, ghost S: set<Node>)
      requires Parts(Snap(S), L, t, a, b, node) && t.Bin? && root == t.x
      requires left == Last(a, node) && right == Last(b, node)
      modifies S`spLeft, S`spRight
      ensures Parts(Snap(S), L, t, a, b, node)
      ensures Child(R, Snap(S)[left]) == Root(t.l) && Child(L, Snap(S)[right]) == Root(t.r)
    {
      ghost var h := Snap(S);
      MiddleFields(h, L, t, a, b, node);
      Set(R, left, root.spLeft, S);
      HoleParts(h, Snap(S), L, t, a, b, node, Root(t.l));
      h := Snap(S);
      MiddleFields(h, L, t, a, b, node);
      Set(L, right, root.spRight, S);
      HoleParts(h, Snap(S), R, t, b, a, node, Root(t.r));
    }

    /** SPLAY_ASSEMBLE */
    method AssembleTree(node: Node, left: Node, right: Node,
                        ghost t: Tree, ghost a: Acc, ghost b: Acc, ghost S: set<Node>)
      requires Parts(Snap(S), L, t, a, b, node) && t.Bin? && root == t.x
      requires left == Last(a, node) && right == Last(b, node)
      modifies S`spLeft, S`spRight
      ensures Linked(Snap(S), Assemble(t, a, b)) && Distinct(Assemble(t, a, b))
    {
      FillHoles(node, left, right, t, a, b, S);
      MiddleFields(Snap(S), L, t, a, b, node);
      ghost var h := Snap(S);
      root.spLeft := node.spRight;
      root.spRight := node.spLeft;
      AssembleParts(h, Snap(S), t, a, b, node);
    }

    /** SPLAY and SPLAY_MINMAX with the header node in place. */
    method SplayWith(p: Probe, node: Node, ghost t0: Tree, ghost S: set<Node>)
      requires Parts(Snap(S), L, t0, Nil, Nil, node) && t0.Bin? && root == t0.x
      modifies this`root, S`spLeft, S`spRight
      ensures var r := Splay(cmp, p, t0); Linked(Snap(S), r) && Distinct(r) && root == Root(r)
    {
      ghost var t, a, b;
      var left, right;
      left, right, t, a, b := Loop(p, node, t0, S);
      AssembleTree(node, left, right, t, a, b, S);
    }

    /** SPLAY for a key, SPLAY_MINMAX for an end. The header node lives on the stack. */
    method SplayTo(p: Probe)
      requires Valid() && Legal(p) && root != null
      modifies this`root, this`tree, all`spLeft, all`spRight
      ensures Valid() && tree == Splay(cmp, p, old(tree)) && all == old(all)
    {
      var node := new Node(root.key);
      node.spLeft, node.spRight := null, null;
      ghost var S, t := all + {node}, tree;
      KeepLinked(Snap(all), Snap(S), {}, t);
      SplayNodes(cmp, p, t);
      tree := Splay(cmp, p, t);
      SplayWith(p, node, t, S);
      KeepLinked(Snap(S), Snap(all), {node}, tree);
    }

    // ----- SPLAY_INSERT, SPLAY_REMOVE, SPLAY_FIND -----

    /** SPLAY_INSERT */
    method Insert(elm: Node)
      requires Valid()
      modifies this`root, this`tree, this`all, all`spLeft, all`spRight, elm`spLeft, elm`spRight
      ensures Valid() && tree == SplaySpec.Insert(cmp, old(tree), elm)
      ensures all == ApplySet(cmp, old(all), OpInsert(elm))
      ensures (forall y :: y in old(all) ==> !Equal(cmp, elm.key, y.key)) ==> root == elm
      ensures forall y :: y in old(all) && Equal(cmp, elm.key, y.key) ==> root == y
      ensures elm !in all ==> elm.spLeft == old(elm.spLeft) && elm.spRight == old(elm.spRight)
    {
      InsertNodes(cmp, tree, elm);
      if root == null {
        elm.spLeft, elm.spRight := null, null;
        all, tree := {elm}, Bin(Leaf, elm, Leaf);
        root := elm;
      } else {
        NewElement(cmp, tree, elm);
        SplayTo(ByKey(elm.key));
        InsertTop(elm);
      }
    }

    /** The new element becomes the root above the splayed one, unless the keys are equal. */
    method InsertTop(elm: Node)
      requires Linked(Snap(all), tree) && Distinct(tree) && tree.Bin? && root == tree.x && Nodes(tree) == all
      requires Equal(cmp, elm.key, tree.x.key) || elm !in all
      modifies this`root, this`tree, this`all, all`spLeft, all`spRight, elm`spLeft, elm`spRight
      ensures Linked(Snap(all), tree) && Distinct(tree) && root == Root(tree) && Nodes(tree) == all
      ensures tree == InsertRoot(cmp, old(tree), elm)
      ensures elm !in all ==> elm.spLeft == old(elm.spLeft) && elm.spRight == old(elm.spRight)
    {
      var comp := cmp(elm.key, root.key);
      if comp == 0 {
        return;
      }
      InsertAbove(elm, if comp < 0 then L else R);
      root := elm;
    }

    /** The pointers around the new root. */
    method InsertEntry(elm: Node, s: Side)
      requires root != null && elm != root
      modifies elm`spLeft, elm`spRight, root`spLeft, root`spRight
      ensures Get(s, elm) == old(Get(s, root)) && Get(Other(s), elm) == root
      ensures Get(s, root) == null && Get(Other(s), root) == old(Get(Other(s), root))
    {
      if s == L {
        elm.spLeft := root.spLeft;
        elm.spRight := root;
        root.spLeft := null;
      } else {
        elm.spRight := root.spRight;
        elm.spLeft := root;
        root.spRight := null;
      }
    }

    method InsertAbove(elm: Node, s: Side)
      requires Linked(Snap(all), tree) && Distinct(tree) && tree.Bin? && root == tree.x && Nodes(tree) == all
      requires elm !in all
      modifies this`tree, this`all, all`spLeft, all`spRight, elm`spLeft, elm`spRight
      ensures tree == Mk(s, Kid(s, old(tree)), elm, Mk(s, Leaf, old(tree).x, Kid(Other(s), old(tree))))
      ensures Linked(Snap(all), tree) && Distinct(tree) && Nodes(tree) == all && all == old(all) + {elm}
    {
      ghost var h, r := Snap(all), tree;
      InsertEntry(elm, s);
      all, tree := all + {elm}, Mk(s, Kid(s, r), elm, Mk(s, Leaf, r.x, Kid(Other(s), r)));
      InsertLinked(h, Snap(all), s, r, elm);
    }

    /** SPLAY_REMOVE: only the key of the argument matters. */
    method Remove(key: Key)
      requires Valid()
      modifies this`root, this`tree, this`all, all`spLeft, all`spRight
      ensures Valid() && tree == SplaySpec.Remove(cmp, old(tree), key)
      ensures all == ApplySet(cmp, old(all), OpRemove(key))
    {
      RemoveNodes(cmp, tree, key);
      if root == null {
        return;
      }
      ghost var t := tree;
      SplayByKey(cmp, key, tree);
      SplayTo(ByKey(key));
      if cmp(key, root.key) == 0 {
        RemoveTop(key);
      }
    }

    /** The root has the key: it is unlinked, the left subtree is splayed once more and
        the right subtree hung below it. */
    method RemoveTop(key: Key)
      requires Valid() && tree.Bin? && Equal(cmp, key, tree.x.key) && AllBelow(cmp, Inorder(tree.l), key)
      modifies this`root, this`tree, this`all, all`spLeft, all`spRight
      ensures Linked(Snap(all), tree) && Distinct(tree) && root == Root(tree) && Nodes(tree) == all
      ensures tree == RemoveRoot(cmp, old(tree), key)
    {
      ghost var r := tree;
      SortedParts(cmp, Inorder(r.l), r.x, Inorder(r.r));
      if root.spLeft == null {
        root := root.spRight;
        all, tree := Nodes(r.r), r.r;
        KeepLinked(old(Snap(all)), Snap(all), {r.x} + Nodes(r.l), r.r);
      } else {
        var tmp := root.spRight;
        root := root.spLeft;
        all, tree := Nodes(r.l), r.l;
        KeepLinked(old(Snap(all)), Snap(all), {r.x} + Nodes(r.r), r.l);
        SecondSplay(cmp, key, r.l);
        SplayTo(ByKey(key));
        HangRight(tmp, r.r, old(Snap(all)));
      }
    }

    method HangRight(tmp: Node?, ghost t: Tree, ghost h: Links)
      requires Linked(Snap(all), tree) && Distinct(tree) && root == Root(tree) && Nodes(tree) == all
      requires tree.Bin? && tree.r.Leaf?
      requires Linked(h, t) && Distinct(t) && tmp == Root(t) && Nodes(t) !! all
      requires SameBut(h, Snap(Nodes(t)), h.Keys - Nodes(t))
      modifies this`tree, this`all, all`spLeft, all`spRight
      ensures tree == Bin(old(tree).l, old(tree).x, t)
      ensures Linked(Snap(all), tree) && Distinct(tree) && root == Root(tree) && Nodes(tree) == all
    {
      ghost var m, h0 := tree, Snap(all);
      LinkedNodes(h, t);
      root.spRight := tmp;
      all, tree := all + Nodes(t), Bin(m.l, m.x, t);
      KeepLinked(h0, Snap(all), {m.x}, m.l);
      KeepLinked(h, Snap(all), h.Keys - Nodes(t), t);
    }

    /** SPLAY_FIND: finds an equal key iff there is one, and keeps the sequence. */
    method Find(key: Key) returns (r: Node?)
      requires Valid()
      modifies this`root, this`tree, all`spLeft, all`spRight
      ensures Valid() && all == old(all) && Inorder(tree) == old(Inorder(tree))
      ensures tree == SplaySpec.Find(cmp, old(tree), key)
      ensures r != null ==> r in all && Equal(cmp, key, r.key) && r == root
      ensures r == null ==> forall y :: y in all ==> !Equal(cmp, key, y.key)
    {
      if root == null {
        return null;
      }
      SplayByKey(cmp, key, tree);
      NodesInorder(tree);
      SplayTo(ByKey(key));
      if cmp(key, root.key) == 0 {
        return root;
      }
      return null;
    }

    // ----- SPLAY_MIN, SPLAY_MAX, SPLAY_NEXT, SPLAY_FOREACH -----

    /** SPLAY_MIN for a negative argument, SPLAY_MAX for a positive one. */
    method MinMax(val: int) returns (r: Node?)
      requires Valid() && val != 0
      modifies this`root, this`tree, all`spLeft, all`spRight
      ensures Valid() && all == old(all) && Inorder(tree) == old(Inorder(tree)) && r == root
      ensures old(tree).Bin? ==> tree == Splay(cmp, ToEnd(val), old(tree))
      ensures r == if val < 0 then Nth(Inorder(tree), 0) else Nth(Inorder(tree), |Inorder(tree)| - 1)
    {
      if root == null {
        return null;
      }
      SplayEnd(cmp, val, tree);
      SplayTo(ToEnd(val));
      return root;
    }

    /** SPLAY_NEXT of the i-th element: splays it to the root and returns its successor. */
    method Next(elm0: Node, ghost i: nat) returns (elm: Node?)
      requires Valid() && i < |Inorder(tree)| && Inorder(tree)[i] == elm0
      modifies this`root, this`tree, all`spLeft, all`spRight
      ensures Valid() && all == old(all) && Inorder(tree) == old(Inorder(tree)) && root == elm0
      ensures tree == Splay(cmp, ByKey(elm0.key), old(tree))
      ensures elm == Nth(Inorder(tree), i + 1)
    {
      NodesInorder(tree);
      NewElement(cmp, tree, elm0);
      SplayByKey(cmp, elm0.key, tree);
      SplayTo(ByKey(elm0.key));
      Successor(cmp, tree);
      if elm0.spRight != null {
        elm := LeftmostOf(elm0.spRight, tree.r);
      } else {
        elm := null;
      }
    }

    /** The start of SPLAY_FOREACH. */
    method First() returns (elm: Node?)
      requires Valid()
      modifies this`root, this`tree, all`spLeft, all`spRight
      ensures Valid() && all == old(all) && Inorder(tree) == old(Inorder(tree)) && elm == Nth(Inorder(tree), 0)
    {
      elm := MinMax(-1);
    }

    /** The step of SPLAY_FOREACH. */
    method Advance(elm0: Node, ghost i: nat) returns (elm: Node?)
      requires Valid() && i < |Inorder(tree)| && Inorder(tree)[i] == elm0
      modifies this`root, this`tree, all`spLeft, all`spRight
      ensures Valid() && all == old(all) && Inorder(tree) == old(Inorder(tree)) && elm == Nth(Inorder(tree), i + 1)
    {
      elm := Next(elm0, i);
    }

    /** The first element of a subtree in order. */
    method LeftmostOf(elm0: Node, ghost t0: Tree) returns (elm: Node)
      requires t0.Bin? && t0.x == elm0 && Linked(Snap(all), t0)
      ensures elm == Nth(Inorder(t0), 0)
    {
      elm := elm0;
      ghost var t := t0;
      while elm.spLeft != null
        invariant t.Bin? && t.x == elm && Linked(Snap(all), t) && elm.spLeft == Root(t.l)
        invariant Nth(Inorder(t), 0) == Nth(Inorder(t0), 0)
        decreases t
      {
        elm := elm.spLeft;
        t := t.l;
        assert Linked(Snap(all), t);
      }
    }

    /** SPLAY_FOREACH visits every element once, in increasing order, although each step
        restructures the tree. */
    method ForEach() returns (visited: seq<Node>)
      requires Valid()
      modifies this`root, this`tree, all`spLeft, all`spRight
      ensures Valid() && all == old(all) && Inorder(tree) == old(Inorder(tree))
      ensures visited == Inorder(tree) && Sorted(cmp, visited) && Members(visited) == all
    {
      visited := Visit();
      NodesInorder(tree);
    }

    /** The loop of SPLAY_FOREACH. */
    method Visit() returns (visited: seq<Node>)
      requires Valid()
      modifies this`root, this`tree, all`spLeft, all`spRight
      ensures Valid() && all == old(all) && visited == Inorder(tree) == old(Inorder(tree))
    {
      visited := [];
      ghost var s := Inorder(tree);
      var x := First();
      while x != null
        invariant Valid() && all == old(all) && Inorder(tree) == s
        invariant |visited| <= |s| && visited == s[..|visited|] && x == Nth(s, |visited|)
        decreases |s| - |visited|
      {
        var elm: Node := x;
        Longer(s, |visited|);
        x := Advance(elm, |visited|);
        visited := visited + [elm];
      }
    }

    // ----- whole runs -----

    method Perform(op: Op)
      requires Valid()
      modifies this`root, this`tree, this`all, all`spLeft, all`spRight
      modifies Operands([op])`spLeft, Operands([op])`spRight
      ensures Valid() && tree == Apply(cmp, old(tree), op) && all == ApplySet(cmp, old(all), op)
    {
      match op
      case OpInsert(x) =>
        assert op in [op];
        Insert(x);
      case OpRemove(key) => Remove(key);
      case OpFind(key) =>
        var r := Find(key);
    }

    /** Any run on the linked tree from SPLAY_INIT: a sorted tree with consistent links
        that holds exactly the elements that the plain set holds. */
    method RunOps(ops: seq<Op>)
      requires Valid() && tree == Leaf
      modifies this`root, this`tree, this`all
      modifies Operands(ops)`spLeft, Operands(ops)`spRight
      ensures Valid() && tree == Run(cmp, ops) && all == RunSet(cmp, ops)
    {
      for i := 0 to |ops|
        invariant Valid() && tree == Run(cmp, ops[..i]) && all == RunSet(cmp, ops[..i])
        invariant all <= Operands(ops)
      {
        RunNext(cmp, ops, i);
        RunSetNext(cmp, ops, i);
        OperandsStep(cmp, all, ops, i);
        Perform(ops[i]);
      }
      assert ops[..|ops|] == ops;
    }
  }

  lemma Longer(s: seq<Node>, n: nat)
    requires n < |s|
    ensures s[..n] + [s[n]] == s[..n + 1]
  {
  }

  lemma SplayEnd(cmp: Cmp, val: int, t: Tree)
    requires TotalOrder(cmp) && t.Bin? && Sorted(cmp, Inorder(t)) && val != 0
    ensures var r, s := Splay(cmp, ToEnd(val), t), Inorder(t);
            r.Bin? && Inorder(r) == s && r.x == if val < 0 then Nth(s, 0) else Nth(s, |s| - 1)
  {
    var r := Splay(cmp, ToEnd(val), t);
    SplayCorrect(cmp, ToEnd(val), t);
    SomeMember(Inorder(r.l));
    SomeMember(Inorder(r.r));
  }

  lemma Successor(cmp: Cmp, t: Tree)
    requires TotalOrder(cmp) && Sorted(cmp, Inorder(t)) && t.Bin?
    ensures var s := Inorder(t);
            forall i :: 0 <= i < |s| && s[i] == t.x ==> Nth(s, i + 1) == Nth(Inorder(t.r), 0)
  {
    var s, j := Inorder(t), |Inorder(t.l)|;
    assert s[j] == t.x;
    OnlyAt(cmp, t.x.key, s, j);
  }

  lemma InsertNodes(cmp: Cmp, t: Tree, x: Node)
    requires TotalOrder(cmp) && Sorted(cmp, Inorder(t))
    ensures Sorted(cmp, Inorder(SplaySpec.Insert(cmp, t, x)))
    ensures Nodes(SplaySpec.Insert(cmp, t, x)) == ApplySet(cmp, Nodes(t), OpInsert(x))
    ensures var r := SplaySpec.Insert(cmp, t, x);
            && r.Bin?
            && ((forall y :: y in Nodes(t) ==> !Equal(cmp, x.key, y.key)) ==> r.x == x)
            && (forall y :: y in Nodes(t) && Equal(cmp, x.key, y.key) ==> r.x == y)
  {
    InsertCorrect(cmp, t, x);
    InsertAtRoot(cmp, t, x);
    NodesInorder(t);
    NodesInorder(SplaySpec.Insert(cmp, t, x));
  }

  lemma RemoveNodes(cmp: Cmp, t: Tree, key: Key)
    requires TotalOrder(cmp) && Sorted(cmp, Inorder(t))
    ensures Sorted(cmp, Inorder(SplaySpec.Remove(cmp, t, key)))
    ensures Nodes(SplaySpec.Remove(cmp, t, key)) == ApplySet(cmp, Nodes(t), OpRemove(key))
  {
    RemoveCorrect(cmp, t, key);
    NodesInorder(t);
    NodesInorder(SplaySpec.Remove(cmp, t, key));
  }

  /** An element whose key differs from the splayed root is not in the tree. */
  lemma NewElement(cmp: Cmp, t: Tree, x: Node)
    requires TotalOrder(cmp) && Sorted(cmp, Inorder(t)) && t.Bin?
    ensures var r := Splay(cmp, ByKey(x.key), t);
            r.Bin? && (x in Nodes(t) ==> r.x == x) && (Equal(cmp, x.key, r.x.key) ==> r.x in Nodes(t))
    ensures var r := Splay(cmp, ByKey(x.key), t);
            !Equal(cmp, x.key, r.x.key) ==> forall y :: y in Nodes(t) ==> !Equal(cmp, x.key, y.key)
  {
    SplayByKey(cmp, x.key, t);
    SplayNodes(cmp, ByKey(x.key), t);
    NodesInorder(t);
  }

  lemma SplayNodes(cmp: Cmp, p: Probe, t: Tree)
    requires TotalOrder(cmp) && Legal(p) && t.Bin? && Sorted(cmp, Inorder(t))
    ensures var r := Splay(cmp, p, t);
            Sorted(cmp, Inorder(r)) && Nodes(r) == Nodes(t) && r.Bin?
  {
    SplayCorrect(cmp, p, t);
    NodesInorder(t);
    NodesInorder(Splay(cmp, p, t));
  }
}

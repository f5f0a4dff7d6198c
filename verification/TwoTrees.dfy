/**
  Elements that are in a red-black tree and in a splay tree at once: neither tree
  disturbs the other, and both give the same iteration.
 */
module TwoTrees {
  import opened Order
  import opened Seqs
  import opened Elements
  import RbTree
  import SplayTree
  import RbShape
  import SplaySpec

  lemma SmallestFirst(cmp: Cmp, s: seq<Node>, t: seq<Node>)
    requires TotalOrder(cmp) && Sorted(cmp, s) && Sorted(cmp, t) && Members(s) == Members(t) && s != []
    ensures t != [] && s[0] == t[0]
  {
    assert s[0] in Members(t);
    var j :| 0 <= j < |t| && t[j] == s[0];
    assert t[0] in Members(s);
    var i :| 0 <= i < |s| && s[i] == t[0];
  }

  lemma RestMembers(cmp: Cmp, s: seq<Node>)
    requires TotalOrder(cmp) && Sorted(cmp, s) && s != []
    ensures Sorted(cmp, s[1..]) && Members(s[1..]) == Members(s) - {s[0]}
  {
    MembersWithout(cmp, s, 0);
    assert Removed(s, 0) == s[1..];
  }

  /** A set of elements has at most one sorted sequence. */
  lemma {:induction false} SortedUnique(cmp: Cmp, s: seq<Node>, t: seq<Node>)
    requires TotalOrder(cmp) && Sorted(cmp, s) && Sorted(cmp, t) && Members(s) == Members(t)
    ensures s == t
  {
    if s == [] {
      SomeMember(t);
      assert forall y :: y in t ==> y in Members(s);
    } else {
      SmallestFirst(cmp, s, t);
      RestMembers(cmp, s);
      RestMembers(cmp, t);
      SortedUnique(cmp, s[1..], t[1..]);
      assert s == [s[0]] + s[1..] && t == [t[0]] + t[1..];
    }
  }

  /** Any run on both trees, with the same elements: neither tree touches the entries of
      the other. */
  method RunBoth(h: RbTree.Head, g: SplayTree.Head, ops: seq<Op>)
    requires h.Valid() && h.tree == RbShape.Leaf && g.Valid() && g.tree == SplaySpec.Leaf && h.cmp == g.cmp
    modifies h, g, Operands(ops)
    ensures h.Valid() && g.Valid() && h.all == g.all == RunSet(h.cmp, ops)
  {
    h.RunOps(ops);
    g.RunOps(ops);
  }

  /** RB_FOREACH and SPLAY_FOREACH over the same elements give the same sequence. */
  method IterateBoth(h: RbTree.Head, g: SplayTree.Head) returns (a: seq<Node>, b: seq<Node>)
    requires h.Valid() && g.Valid() && h.all == g.all && h.cmp == g.cmp
    modifies g`root, g`tree, g.all`spLeft, g.all`spRight
    ensures h.Valid() && g.Valid() && g.all == old(g.all)
    ensures a == b && Sorted(h.cmp, a) && Members(a) == h.all
  {
    b := g.ForEach();
    assert h.Valid();
    a := h.ForEach();
    SortedUnique(h.cmp, a, b);
  }
}

/**
  The comparison callback that every tree macro takes as its `cmp` argument.
  Only its sign is ever inspected; equal elements need not be identical.
 */
module Order {

  type Key(!new)

  type Cmp = (Key, Key) -> int

  /** What the trees demand of `cmp`: the sign of a total preorder. */
  ghost predicate TotalOrder(cmp: Cmp) {
    && (forall a :: cmp(a, a) == 0)
    && (forall a, b :: cmp(a, b) < 0 <==> cmp(b, a) > 0)
    && (forall a, b, c :: cmp(a, b) <= 0 && cmp(b, c) <= 0 ==> cmp(a, c) <= 0)
  }

  predicate Less(cmp: Cmp, a: Key, b: Key) {
    cmp(a, b) < 0
  }

  predicate Equal(cmp: Cmp, a: Key, b: Key) {
    cmp(a, b) == 0
  }

  lemma LessTransitive(cmp: Cmp, a: Key, b: Key, c: Key)
    requires TotalOrder(cmp)
    requires cmp(a, b) <= 0 && cmp(b, c) <= 0
    requires cmp(a, b) < 0 || cmp(b, c) < 0
    ensures cmp(a, c) < 0
  {
    assert cmp(c, a) <= 0 && cmp(a, b) <= 0 ==> cmp(c, b) <= 0;
    assert cmp(b, c) <= 0 && cmp(c, a) <= 0 ==> cmp(b, a) <= 0;
  }

  lemma SameSign(cmp: Cmp, a: Key, b: Key, c: Key)
    requires TotalOrder(cmp) && Equal(cmp, a, b)
    ensures (cmp(a, c) < 0 <==> cmp(b, c) < 0) && (cmp(a, c) > 0 <==> cmp(b, c) > 0)
  {
    if cmp(a, c) < 0 { LessTransitive(cmp, b, a, c); }
    if cmp(b, c) < 0 { LessTransitive(cmp, a, b, c); }
    if cmp(c, a) < 0 { LessTransitive(cmp, c, a, b); }
    if cmp(c, b) < 0 { LessTransitive(cmp, c, b, a); }
  }
}

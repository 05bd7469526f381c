/** The branch lineage the tree builders consume: every configured branch points at
    its parent. The program's own lineage type is not part of this model; it is
    specified here by its queries `Parent`, `Children`, `Ancestors` and `Descendants`
    over a finite parent map that has no cycles. */
module Lineages {
  import opened Prelude
  import opened Seqs

  type Branch = string

  /** `parents` maps each configured branch to its parent. `order` enumerates the configured
      branches once each, every parent ahead of its children; it is the order in which
      `Children` and `Descendants` report branches. Having such an order is what makes the
      lineage acyclic. */
  datatype Lineage = Lineage(parents: map<Branch, Branch>, order: seq<Branch>)
  {
    ghost predicate Valid()
    {
      && Distinct(order)
      && (forall b :: b in parents <==> b in order)
      && (forall i, j :: 0 <= i < |order| && 0 <= j < |order| && parents[order[j]] == order[i] ==> i < j)
    }

    /** Position of a configured branch in `order`, plus one; zero for a branch without parent. */
    ghost function Rank(b: Branch): nat
      requires Valid()
    {
      if b in parents then IndexIn(order, b) + 1 else 0
    }

    function Parent(b: Branch): (r: Option<Branch>)
      ensures r.Some? <==> b in parents
    {
      if b in parents then Some(parents[b]) else None
    }

    /** The branches whose parent is `b`, in lineage order. */
    function Children(b: Branch): seq<Branch>
    {
      Filter(order, IsChildOf(b))
    }

    /** The test "the parent of this branch is `b`". */
    function IsChildOf(b: Branch): Branch -> bool
    {
      x => x in parents && parents[x] == b
    }

    /** The ancestors of `b`, from the root of its stack down to its parent. */
    function Ancestors(b: Branch): seq<Branch>
      requires Valid()
      decreases Rank(b)
    {
      if b in parents then
        ParentRankSmaller(b);
        Ancestors(parents[b]) + [parents[b]]
      else []
    }

    /** The ancestors of `b` followed by `b` itself. */
    function Chain(b: Branch): seq<Branch>
      requires Valid()
    {
      Ancestors(b) + [b]
    }

    /** `x` is `a` or lies below `a`. */
    ghost predicate Under(a: Branch, x: Branch)
      requires Valid()
    {
      a in Chain(x)
    }

    /** All branches below `b`, in lineage order, so every one comes after its parent. */
    function Descendants(b: Branch): seq<Branch>
      requires Valid()
    {
      Filter(order, IsDescendantOf(b))
    }

    /** The test "`b` is an ancestor of this branch". */
    function IsDescendantOf(b: Branch): Branch -> bool
      requires Valid()
    {
      x => b in Ancestors(x)
    }

    lemma ParentRankSmaller(b: Branch)
      requires Valid() && b in parents
      ensures Rank(parents[b]) < Rank(b)
    {
      var j := IndexIn(order, b);
      var p := parents[b];
      if p in parents {
        var i := IndexIn(order, p);
        assert parents[order[j]] == order[i];
      }
    }
  }

  ghost function IndexIn(s: seq<Branch>, x: Branch): (i: nat)
    requires x in s
    ensures i < |s| && s[i] == x
  {
    var i :| 0 <= i < |s| && s[i] == x; i
  }

  lemma {:induction false} AncestorRankSmaller(L: Lineage, a: Branch, x: Branch)
    requires L.Valid() && a in L.Ancestors(x)
    ensures L.Rank(a) < L.Rank(x)
    decreases L.Rank(x)
  {
    var p := L.parents[x];
    L.ParentRankSmaller(x);
    if a != p {
      AncestorRankSmaller(L, a, p);
    }
  }

  lemma NotOwnAncestor(L: Lineage, x: Branch)
    requires L.Valid()
    ensures x !in L.Ancestors(x)
  {
    if x in L.Ancestors(x) {
      AncestorRankSmaller(L, x, x);
    }
  }

  lemma {:induction false} ChainAt(L: Lineage, x: Branch, i: nat)
    requires L.Valid() && i < |L.Chain(x)|
    ensures L.Chain(L.Chain(x)[i]) == L.Chain(x)[..i + 1]
    decreases L.Rank(x)
  {
    var c := L.Chain(x);
    if i < |c| - 1 {
      var p := L.parents[x];
      L.ParentRankSmaller(x);
      assert c == L.Chain(p) + [x];
      ChainAt(L, p, i);
      assert c[..i + 1] == L.Chain(p)[..i + 1];
    }
  }

  lemma AncestorsAt(L: Lineage, x: Branch, i: nat)
    requires L.Valid() && i < |L.Chain(x)|
    ensures L.Ancestors(L.Chain(x)[i]) == L.Chain(x)[..i]
  {
    ChainAt(L, x, i);
    var c := L.Chain(x);
    assert c[..i + 1] == c[..i] + [c[i]];
  }

  lemma ChainDistinct(L: Lineage, x: Branch)
    requires L.Valid()
    ensures Distinct(L.Chain(x))
  {
    var c := L.Chain(x);
    forall i, j | 0 <= i < j < |c| ensures c[i] != c[j] {
      ChainAt(L, x, i);
      ChainAt(L, x, j);
    }
  }

  /** The root of a non-empty ancestor list has no parent. */
  lemma {:induction false} AncestorsStartAtRoot(L: Lineage, x: Branch)
    requires L.Valid() && x in L.parents
    ensures |L.Ancestors(x)| > 0 && L.Ancestors(x)[0] !in L.parents
    decreases L.Rank(x)
  {
    var p := L.parents[x];
    L.ParentRankSmaller(x);
    if p in L.parents {
      AncestorsStartAtRoot(L, p);
    }
  }

  /** Being below is transitive. */
  lemma UnderTransitive(L: Lineage, a: Branch, b: Branch, c: Branch)
    requires L.Valid() && L.Under(a, b) && L.Under(b, c)
    ensures L.Under(a, c)
  {
    var i := IndexIn(L.Chain(c), b);
    ChainAt(L, c, i);
    assert a in L.Chain(c)[..i + 1];
  }

  /** Two branches above a common branch are on one line. */
  lemma UnderLinear(L: Lineage, a: Branch, b: Branch, x: Branch)
    requires L.Valid() && L.Under(a, x) && L.Under(b, x)
    ensures L.Under(a, b) || L.Under(b, a)
  {
    var c := L.Chain(x);
    var i, j := IndexIn(c, a), IndexIn(c, b);
    ChainAt(L, x, i);
    ChainAt(L, x, j);
    if i <= j {
      assert L.Chain(b)[i] == a;
    } else {
      assert L.Chain(a)[j] == b;
    }
  }

  /** Anything above `x` ranks no higher than `x`. */
  lemma UnderRank(L: Lineage, a: Branch, x: Branch)
    requires L.Valid() && L.Under(a, x)
    ensures L.Rank(a) <= L.Rank(x)
  {
    if a != x {
      assert a in L.Ancestors(x);
      AncestorRankSmaller(L, a, x);
    }
  }

  lemma UnderAntisymmetric(L: Lineage, a: Branch, b: Branch)
    requires L.Valid() && L.Under(a, b) && L.Under(b, a)
    ensures a == b
  {
    if a != b {
      assert a in L.Ancestors(b);
      AncestorRankSmaller(L, a, b);
      UnderRank(L, b, a);
    }
  }

  /** `x` sits at the end of its own chain and nowhere else in it. */
  lemma ChainLast(L: Lineage, x: Branch, j: nat)
    requires L.Valid() && j < |L.Chain(x)| && L.Chain(x)[j] == x
    ensures j == |L.Chain(x)| - 1
  {
    ChainDistinct(L, x);
    var c := L.Chain(x);
    assert c[|c| - 1] == x;
  }

  lemma ChildrenMembership(L: Lineage, b: Branch, c: Branch)
    requires L.Valid()
    ensures c in L.Children(b) <==> c in L.parents && L.parents[c] == b
  {
    FilterMembership(L.order, L.IsChildOf(b), c);
  }

  /** Among children of `a`, the children of `b` are all of them when `a` is `b` and none
      otherwise. */
  lemma ChildrenOfOne(L: Lineage, a: Branch, b: Branch, p: Branch -> bool)
    ensures Filter(Filter(L.Children(a), p), L.IsChildOf(b)) == if a == b then Filter(L.Children(a), p) else []
  {
    var f := Filter(L.Children(a), p);
    forall c | c in f ensures L.IsChildOf(a)(c) {
      FilterMembership(L.Children(a), p, c);
      FilterMembership(L.order, L.IsChildOf(a), c);
    }
    if a == b {
      FilterAll(f, L.IsChildOf(b));
    } else {
      FilterNone(f, L.IsChildOf(b));
    }
  }

  lemma ChildrenDistinct(L: Lineage, a: Branch, p: Branch -> bool)
    requires Distinct(L.order)
    ensures Distinct(Filter(L.Children(a), p))
  {
    FilterDistinct(L.order, L.IsChildOf(a));
    FilterDistinct(L.Children(a), p);
  }

  lemma ChildChain(L: Lineage, c: Branch)
    requires L.Valid() && c in L.parents
    ensures L.Chain(c) == L.Chain(L.parents[c]) + [c]
  {
  }

  /** A branch strictly below `b` lies below exactly one child of `b`. */
  lemma UnderSomeChild(L: Lineage, b: Branch, x: Branch)
    requires L.Valid() && L.Under(b, x) && x != b
    ensures exists c :: c in L.Children(b) && L.Under(c, x)
  {
    var ch := L.Chain(x);
    var i := IndexIn(ch, b);
    assert i < |ch| - 1;
    var c := ch[i + 1];
    AncestorsAt(L, x, i + 1);
    assert L.Ancestors(c) == ch[..i + 1];
    assert c in L.parents && L.parents[c] == b;
    ChildrenMembership(L, b, c);
    assert L.Chain(c) == ch[..i + 2];
  }

  /** The subtrees of two different siblings do not meet. */
  lemma SiblingsDisjoint(L: Lineage, c: Branch, d: Branch, x: Branch)
    requires L.Valid() && c in L.parents && d in L.parents && L.parents[c] == L.parents[d]
    requires L.Under(c, x) && L.Under(d, x)
    ensures c == d
  {
    UnderLinear(L, c, d, x);
    if L.Under(c, d) && c != d {
      assert c in L.Chain(L.parents[d]);
      UnderRank(L, c, L.parents[c]);
      L.ParentRankSmaller(c);
    } else if L.Under(d, c) && c != d {
      assert d in L.Chain(L.parents[c]);
      UnderRank(L, d, L.parents[d]);
      L.ParentRankSmaller(d);
    }
  }

  lemma DescendantsMembership(L: Lineage, b: Branch, x: Branch)
    requires L.Valid()
    ensures x in L.Descendants(b) <==> b in L.Ancestors(x)
  {
    FilterMembership(L.order, L.IsDescendantOf(b), x);
  }
}

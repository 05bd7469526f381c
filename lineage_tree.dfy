/** The older lineage tree builder: the ancestor line of a branch, the branch itself
    under its parent, and every descendant of the branch under its own parent. */
module LineageTrees {
  import opened Prelude
  import opened Seqs
  import opened Lineages
  import opened LineageTreeNodes

  /** Builds the tree of `currentBranch`: its ancestors as a line of single children from the
      root of its stack, the branch below its parent (or as the root), and below it all its
      descendants, each in the child list of its lineage parent. */
  method NewLineageTree(currentBranch: Branch, lineage: Lineage) returns (tree: Tree)
    requires lineage.Valid()
    ensures Shaped(lineage, tree)
    ensures tree.root == lineage.Chain(currentBranch)[0]
    ensures forall b :: b in tree.nodes <==> lineage.Under(b, currentBranch) || lineage.Under(currentBranch, b)
    ensures forall i :: 0 <= i < |lineage.Ancestors(currentBranch)| ==>
              && lineage.Ancestors(currentBranch)[i] in tree.nodes
              && tree.nodes[lineage.Ancestors(currentBranch)[i]].children == [lineage.Chain(currentBranch)[i + 1]]
    ensures forall b :: b in tree.nodes && lineage.Under(currentBranch, b) ==>
              tree.nodes[b].children == lineage.Children(b)
  {
    var mapper, rootChildren := AddLine(currentBranch, lineage);
    LineBuilt(lineage, currentBranch, mapper);
    mapper := AddDescendants(currentBranch, lineage, mapper);
    tree := Tree(rootChildren[0], mapper);
    DescendantsDone(lineage, currentBranch, tree);
  }

  /** The first loop and the step after it: the ancestors of `currentBranch`, from the
      root of its stack, each as the only child of the one before, and then the branch
      itself. */
  method AddLine(currentBranch: Branch, lineage: Lineage)
    returns (mapper: map<Branch, Node>, rootChildren: seq<Branch>)
    requires lineage.Valid()
    ensures IsLineArena(lineage.Chain(currentBranch)[..|lineage.Chain(currentBranch)|], mapper)
    ensures rootChildren == [lineage.Chain(currentBranch)[0]]
  {
    ghost var chain := lineage.Chain(currentBranch);
    ChainIsLineageLine(lineage, currentBranch);
    mapper := map[];
    // The child list of the invisible super-root.
    rootChildren := [];

    var ancestors := lineage.Ancestors(currentBranch);
    // `None` stands for the super-root.
    var previous: Option<Branch> := None;
    var k := 0;
    while k < |ancestors|
      invariant 0 <= k <= |ancestors|
      invariant IsLineArena(chain[..k], mapper)
      invariant rootChildren == if k == 0 then [] else [chain[0]]
      invariant previous == if k == 0 then None else Some(chain[k - 1])
    {
      var ancestor := ancestors[k];
      if previous.None? {
        rootChildren := rootChildren + [ancestor];
        LineArenaStart(chain, mapper);
        mapper := mapper[ancestor := Node(ancestor, SuperRootDepth + 1, [])];
      } else {
        LineArenaAttach(chain, k, mapper);
        mapper := Attach(mapper, previous.value, ancestor);
      }
      previous := Some(ancestor);
      k := k + 1;
    }
    assert chain[k] == currentBranch && |chain| == k + 1;
    if previous.None? {
      rootChildren := rootChildren + [currentBranch];
      LineArenaStart(chain, mapper);
      mapper := mapper[currentBranch := Node(currentBranch, SuperRootDepth + 1, [])];
    } else {
      LineArenaAttach(chain, k, mapper);
      mapper := Attach(mapper, previous.value, currentBranch);
    }
  }

  /** The second loop: every descendant of `currentBranch`, in lineage order, in the
      child list of its parent. */
  method AddDescendants(currentBranch: Branch, lineage: Lineage, start: map<Branch, Node>)
    returns (mapper: map<Branch, Node>)
    requires lineage.Valid() && DescendantsAttached(lineage, currentBranch, 0, start)
    ensures DescendantsAttached(lineage, currentBranch, |lineage.Descendants(currentBranch)|, mapper)
  {
    mapper := start;
    var descendants := lineage.Descendants(currentBranch);
    var k := 0;
    while k < |descendants|
      invariant 0 <= k <= |descendants|
      invariant DescendantsAttached(lineage, currentBranch, k, mapper)
    {
      mapper := AddDescendant(currentBranch, lineage, k, mapper);
      k := k + 1;
    }
  }

  /** One turn of the second loop: the `k`-th descendant under its parent. */
  method AddDescendant(currentBranch: Branch, lineage: Lineage, k: nat, start: map<Branch, Node>)
    returns (mapper: map<Branch, Node>)
    requires lineage.Valid() && k < |lineage.Descendants(currentBranch)|
    requires DescendantsAttached(lineage, currentBranch, k, start)
    ensures DescendantsAttached(lineage, currentBranch, k + 1, mapper)
  {
    var descendant := lineage.Descendants(currentBranch)[k];
    DescendantsStep(lineage, currentBranch, k, start);
    var parent := lineage.Parent(descendant);
    mapper := Attach(start, parent.value, descendant);
  }

  /** The tree after the first `k` descendants of `x` have been attached. */
  ghost predicate DescendantsAttached(L: Lineage, x: Branch, k: nat, m: map<Branch, Node>)
    requires L.Valid()
  {
    && k <= |L.Descendants(x)|
    && Shaped(L, Tree(L.Chain(x)[0], m))
    && KeysAttached(L, x, k, m)
    && AncestorsLined(L, x, m)
    && ChildrenAttached(L, x, k, m)
  }

  /** The tree holds the line of `x` and the first `k` descendants of `x`. */
  ghost predicate KeysAttached(L: Lineage, x: Branch, k: nat, m: map<Branch, Node>)
    requires L.Valid() && k <= |L.Descendants(x)|
  {
    forall b :: b in m <==> b in L.Chain(x) || b in L.Descendants(x)[..k]
  }

  /** Each ancestor of `x` has the next branch of the line as its only child. */
  ghost predicate AncestorsLined(L: Lineage, x: Branch, m: map<Branch, Node>)
    requires L.Valid()
  {
    forall i :: 0 <= i < |L.Ancestors(x)| ==>
      L.Ancestors(x)[i] in m && m[L.Ancestors(x)[i]].children == [L.Chain(x)[i + 1]]
  }

  /** Below `x`, every child list holds the attached descendants that are its children. */
  ghost predicate ChildrenAttached(L: Lineage, x: Branch, k: nat, m: map<Branch, Node>)
    requires L.Valid() && k <= |L.Descendants(x)|
  {
    forall b :: b in m && L.Under(x, b) ==> m[b].children == Filter(L.Descendants(x)[..k], L.IsChildOf(b))
  }

  /** Once the line of `x` is built, the loop over the descendants can start. */
  lemma LineBuilt(L: Lineage, x: Branch, m: map<Branch, Node>)
    requires L.Valid() && IsLineArena(L.Chain(x)[..|L.Chain(x)|], m)
    ensures L.Chain(x)[0] in m
    ensures DescendantsAttached(L, x, 0, m)
  {
    var c := L.Chain(x);
    assert c[..|c|] == c;
    ChainIsLineageLine(L, x);
    LineArenaShaped(L, c, m);
    DescendantsStart(L, x, m);
  }

  lemma DescendantsStart(L: Lineage, x: Branch, m: map<Branch, Node>)
    requires L.Valid() && IsLineArena(L.Chain(x), m) && Shaped(L, Tree(L.Chain(x)[0], m))
    ensures DescendantsAttached(L, x, 0, m)
  {
    var c := L.Chain(x);
    forall i | 0 <= i < |L.Ancestors(x)|
      ensures L.Ancestors(x)[i] in m && m[L.Ancestors(x)[i]].children == [c[i + 1]]
    {
      assert m[c[i]] == Node(c[i], i, LineChildren(c, i));
    }
    forall b | b in m && L.Under(x, b)
      ensures m[b].children == []
    {
      var j := IndexIn(c, b);
      assert m[c[j]] == Node(c[j], j, LineChildren(c, j));
      UnderAntisymmetric(L, b, x);
      ChainLast(L, x, j);
    }
  }

  /** The `k`-th descendant is the element of the lineage order right after the part of
      the order that holds the first `k` descendants. */
  lemma DescendantAt(L: Lineage, x: Branch, k: nat) returns (n: nat)
    requires L.Valid() && k < |L.Descendants(x)|
    ensures n < |L.order| && L.Descendants(x)[k] == L.order[n]
    ensures forall y :: y in L.Descendants(x)[..k] <==> y in L.order[..n] && x in L.Ancestors(y)
  {
    FilterPrefix(L.order, L.IsDescendantOf(x), k);
    n :| 0 <= n < |L.order| && L.Descendants(x)[..k] == Filter(L.order[..n], L.IsDescendantOf(x))
         && L.Descendants(x)[k] == L.order[n];
    forall y ensures y in L.Descendants(x)[..k] <==> y in L.order[..n] && x in L.Ancestors(y) {
      FilterMembership(L.order[..n], L.IsDescendantOf(x), y);
    }
  }

  /** The parent of the `k`-th descendant is the branch itself or an earlier descendant. */
  lemma DescendantParentEarlier(L: Lineage, x: Branch, k: nat)
    requires L.Valid() && k < |L.Descendants(x)|
    ensures L.Descendants(x)[k] in L.parents
    ensures var p := L.parents[L.Descendants(x)[k]]; p == x || p in L.Descendants(x)[..k]
  {
    var d := L.Descendants(x)[k];
    DescendantsMembership(L, x, d);
    var p := L.parents[d];
    var n := DescendantAt(L, x, k);
    if p != x {
      assert x in L.Ancestors(p);
      var i := IndexIn(L.order, p);
      assert L.parents[L.order[n]] == L.order[i];
      assert L.order[..n][i] == p;
    }
  }

  /** No earlier descendant is a child of the `k`-th one. */
  lemma DescendantNoEarlierChild(L: Lineage, x: Branch, k: nat)
    requires L.Valid() && k < |L.Descendants(x)|
    ensures forall y :: y in L.Descendants(x)[..k] ==> !L.IsChildOf(L.Descendants(x)[k])(y)
  {
    var d := L.Descendants(x)[k];
    var n := DescendantAt(L, x, k);
    forall y | y in L.Descendants(x)[..k] ensures !L.IsChildOf(d)(y) {
      var i := IndexIn(L.order[..n], y);
      assert L.order[i] == y;
      assert L.parents[L.order[i]] != L.order[n];
    }
  }

  /** The `k`-th descendant is not yet in the tree, and its parent is: the branch itself
      or a descendant attached earlier. */
  lemma DescendantFresh(L: Lineage, x: Branch, k: nat, m: map<Branch, Node>)
    requires L.Valid() && k < |L.Descendants(x)| && DescendantsAttached(L, x, k, m)
    ensures L.Descendants(x)[k] in L.parents && L.Descendants(x)[k] !in m
    ensures L.parents[L.Descendants(x)[k]] in m && L.Under(x, L.parents[L.Descendants(x)[k]])
  {
    var D, d := L.Descendants(x), L.Descendants(x)[k];
    DescendantParentEarlier(L, x, k);
    DescendantsMembership(L, x, d);
    if d in L.Chain(x) {
      UnderRank(L, d, x);
      AncestorRankSmaller(L, x, d);
    }
    FilterDistinct(L.order, L.IsDescendantOf(x));
    assert d !in D[..k];
    var p := L.parents[d];
    if p != x {
      DescendantsMembership(L, x, p);
    }
  }

  /** Attaching a descendant leaves the child lists of the ancestors alone. */
  lemma DescendantStepAncestors(L: Lineage, x: Branch, p: Branch, d: Branch, m: map<Branch, Node>)
    requires L.Valid() && p in m && L.Under(x, p) && L.Under(x, d) && d != x
    requires AncestorsLined(L, x, m)
    ensures AncestorsLined(L, x, Attach(m, p, d))
  {
    forall i | 0 <= i < |L.Ancestors(x)|
      ensures Attach(m, p, d)[L.Ancestors(x)[i]].children == m[L.Ancestors(x)[i]].children
    {
      var a := L.Ancestors(x)[i];
      AncestorRankSmaller(L, a, x);
      UnderRank(L, x, p);
      UnderRank(L, x, d);
      assert a != p && a != d;
    }
  }

  /** Attaching the `k`-th descendant keeps every child list below the branch equal to the
      attached descendants that are its children. */
  lemma DescendantStepChildren(L: Lineage, x: Branch, k: nat, m: map<Branch, Node>)
    requires L.Valid() && k < |L.Descendants(x)| && ChildrenAttached(L, x, k, m)
    requires L.Descendants(x)[k] in L.parents && L.Descendants(x)[k] !in m
    requires L.parents[L.Descendants(x)[k]] in m
    ensures ChildrenAttached(L, x, k + 1, Attach(m, L.parents[L.Descendants(x)[k]], L.Descendants(x)[k]))
  {
    var D, d := L.Descendants(x), L.Descendants(x)[k];
    var p := L.parents[d];
    var m' := Attach(m, p, d);
    AttachedNodes(m, p, d);
    forall b | b in m' && L.Under(x, b)
      ensures m'[b].children == Filter(D[..k + 1], L.IsChildOf(b))
    {
      FilterStep(D, k, L.IsChildOf(b));
      if b == d {
        NewDescendantChildless(L, x, k);
      }
    }
  }

  /** The `k`-th descendant has no children among the first `k + 1` descendants. */
  lemma NewDescendantChildless(L: Lineage, x: Branch, k: nat)
    requires L.Valid() && k < |L.Descendants(x)| && L.Descendants(x)[k] in L.parents
    ensures Filter(L.Descendants(x)[..k], L.IsChildOf(L.Descendants(x)[k])) == []
    ensures !L.IsChildOf(L.Descendants(x)[k])(L.Descendants(x)[k])
  {
    var D, d := L.Descendants(x), L.Descendants(x)[k];
    DescendantNoEarlierChild(L, x, k);
    if Filter(D[..k], L.IsChildOf(d)) != [] {
      var y := Filter(D[..k], L.IsChildOf(d))[0];
      FilterMembership(D[..k], L.IsChildOf(d), y);
    }
    NotOwnAncestor(L, d);
  }

  lemma DescendantsStep(L: Lineage, x: Branch, k: nat, m: map<Branch, Node>)
    requires L.Valid() && k < |L.Descendants(x)| && DescendantsAttached(L, x, k, m)
    ensures L.Descendants(x)[k] in L.parents && L.parents[L.Descendants(x)[k]] in m
    ensures DescendantsAttached(L, x, k + 1, Attach(m, L.parents[L.Descendants(x)[k]], L.Descendants(x)[k]))
  {
    var D, d := L.Descendants(x), L.Descendants(x)[k];
    DescendantFresh(L, x, k, m);
    var p := L.parents[d];
    AttachShaped(L, Tree(L.Chain(x)[0], m), d);
    DescendantsMembership(L, x, d);
    DescendantStepAncestors(L, x, p, d, m);
    DescendantStepChildren(L, x, k, m);
    DescendantStepKeys(L, x, k, m);
  }

  /** Attaching the `k`-th descendant adds exactly that branch to the tree. */
  lemma DescendantStepKeys(L: Lineage, x: Branch, k: nat, m: map<Branch, Node>)
    requires L.Valid() && k < |L.Descendants(x)| && KeysAttached(L, x, k, m)
    requires L.Descendants(x)[k] in L.parents && L.parents[L.Descendants(x)[k]] in m
    ensures KeysAttached(L, x, k + 1, Attach(m, L.parents[L.Descendants(x)[k]], L.Descendants(x)[k]))
  {
    var D := L.Descendants(x);
    assert D[..k + 1] == D[..k] + [D[k]];
  }

  /** Once every descendant is attached, the tree is the one `NewLineageTree` promises. */
  lemma DescendantsDone(L: Lineage, x: Branch, t: Tree)
    requires L.Valid() && t.root == L.Chain(x)[0] && DescendantsAttached(L, x, |L.Descendants(x)|, t.nodes)
    ensures Shaped(L, t)
    ensures forall b :: b in t.nodes <==> L.Under(b, x) || L.Under(x, b)
    ensures forall i :: 0 <= i < |L.Ancestors(x)| ==>
              L.Ancestors(x)[i] in t.nodes && t.nodes[L.Ancestors(x)[i]].children == [L.Chain(x)[i + 1]]
    ensures forall b :: b in t.nodes && L.Under(x, b) ==> t.nodes[b].children == L.Children(b)
  {
    var D, m := L.Descendants(x), t.nodes;
    assert D[..|D|] == D;
    forall b ensures b in m <==> L.Under(b, x) || L.Under(x, b) {
      DescendantsMembership(L, x, b);
    }
    forall b | b in m && L.Under(x, b)
      ensures m[b].children == L.Children(b)
    {
      forall y | y in L.order
        ensures L.IsChildOf(b)(y) <==> L.IsDescendantOf(x)(y) && L.IsChildOf(b)(y)
      {
        if L.IsChildOf(b)(y) {
          ChildChain(L, y);
        }
      }
      FilterFilter(L.order, L.IsDescendantOf(x), L.IsChildOf(b), L.IsChildOf(b));
    }
  }
}

/** The newer lineage tree builder used for proposal bodies: the ancestor line of a branch,
    and below it the whole subtree of the branch and of every other child of an ancestor that
    is neither the main branch, a perennial branch nor an ancestor itself, each node attached
    once through a `visited` arena. */
module ProposalLineageTrees {
  import opened Prelude
  import opened Seqs
  import opened Lineages
  import opened LineageTreeNodes

  /** The built tree and the list of all branches in it, in the arena's iteration order. */
  datatype ProposalLineageTree = ProposalLineageTree(tree: Tree, branches: seq<Branch>)

  /** Builds the tree of `currentBranch`: its ancestors as a line of single children from the
      root of its stack, and below them the branch and every child of an ancestor that is
      neither in `mainAndPerennials` nor an ancestor, each with its whole subtree. The branch
      must have a parent: without one the program dereferences a missing parent and the empty
      child list of its super-root. */
  method NewLineageTree(currentBranch: Branch, lineage: Lineage, mainAndPerennials: seq<Branch>)
    returns (tree: ProposalLineageTree)
    requires lineage.Valid() && currentBranch in lineage.parents
    ensures Shaped(lineage, tree.tree)
    ensures tree.tree.root == lineage.Ancestors(currentBranch)[0]
    ensures forall b :: b in tree.tree.nodes <==>
              b in lineage.Ancestors(currentBranch)
              || exists s :: IsStackSeed(lineage, currentBranch, mainAndPerennials, s) && lineage.Under(s, b)
    ensures forall i :: 0 <= i < |lineage.Ancestors(currentBranch)| ==>
              var a := lineage.Ancestors(currentBranch)[i];
              && a in tree.tree.nodes
              && tree.tree.nodes[a].children ==
                   [lineage.Chain(currentBranch)[i + 1]]
                   + Filter(lineage.Children(a), IsFreeChild(mainAndPerennials, lineage.Chain(currentBranch)))
    ensures forall b :: b in tree.tree.nodes && b !in lineage.Ancestors(currentBranch) ==>
              tree.tree.nodes[b].children == lineage.Children(b)
    ensures Distinct(tree.branches)
    ensures forall b :: b in tree.branches <==> b in tree.tree.nodes
  {
    var visited, rootChildren, descendantsOfAncestor := AddAncestorLine(currentBranch, lineage, mainAndPerennials);
    ghost var ancestors := lineage.Ancestors(currentBranch);
    AncestorsLine(lineage, currentBranch);
    SeedsStart(lineage, ancestors, descendantsOfAncestor, visited);
    visited := AddSeedSubtrees(currentBranch, lineage, mainAndPerennials, ancestors, descendantsOfAncestor, visited);
    var branches := VisitedBranches(visited);
    tree := ProposalLineageTree(Tree(rootChildren[0], visited), branches);
    SeedsDone(lineage, currentBranch, mainAndPerennials, ancestors, descendantsOfAncestor, tree.tree);
  }

  /** The first loop of `NewLineageTree`: each ancestor becomes the only child of the one before
      (the first one the only child of the super-root), and the free children of each ancestor
      are collected after the branch itself. */
  method AddAncestorLine(currentBranch: Branch, lineage: Lineage, mainAndPerennials: seq<Branch>)
    returns (visited: map<Branch, Node>, rootChildren: seq<Branch>, descendantsOfAncestor: seq<Branch>)
    requires lineage.Valid() && currentBranch in lineage.parents
    ensures |lineage.Ancestors(currentBranch)| > 0
    ensures IsLineArena(lineage.Ancestors(currentBranch), visited)
    ensures rootChildren == [lineage.Ancestors(currentBranch)[0]]
    ensures descendantsOfAncestor == Seeds(lineage, currentBranch, mainAndPerennials, lineage.Ancestors(currentBranch),
                                           |lineage.Ancestors(currentBranch)|)
  {
    visited := map[];
    // The child list of the invisible super-root.
    rootChildren := [];
    var ancestors := lineage.Ancestors(currentBranch);
    AncestorsLine(lineage, currentBranch);
    descendantsOfAncestor := [currentBranch];
    // `None` stands for the super-root.
    var previous: Option<Branch> := None;
    var k := 0;
    while k < |ancestors|
      invariant 0 <= k <= |ancestors|
      invariant IsLineArena(ancestors[..k], visited)
      invariant rootChildren == if k == 0 then [] else [ancestors[0]]
      invariant previous == if k == 0 then None else Some(ancestors[k - 1])
      invariant descendantsOfAncestor == Seeds(lineage, currentBranch, mainAndPerennials, ancestors, k)
    {
      var ancestor := ancestors[k];
      if previous.None? {
        rootChildren := rootChildren + [ancestor];
        LineArenaStart(ancestors, visited);
        visited := visited[ancestor := Node(ancestor, SuperRootDepth + 1, [])];
      } else {
        LineArenaAttach(ancestors, k, visited);
        visited := Attach(visited, previous.value, ancestor);
      }
      descendantsOfAncestor := AppendFreeChildren(descendantsOfAncestor, lineage.Children(ancestor),
                                                  mainAndPerennials, ancestors);
      previous := Some(ancestor);
      k := k + 1;
    }
    assert ancestors[..|ancestors|] == ancestors;
  }

  /** The second loop of `NewLineageTree`: the subtree of each collected branch in turn. */
  method AddSeedSubtrees(currentBranch: Branch, lineage: Lineage, mainAndPerennials: seq<Branch>,
                         ghost ancestors: seq<Branch>, descendantsOfAncestor: seq<Branch>,
                         visited: map<Branch, Node>)
    returns (result: map<Branch, Node>)
    requires lineage.Valid() && currentBranch in lineage.parents
    requires ancestors == lineage.Ancestors(currentBranch) && |ancestors| > 0
    requires descendantsOfAncestor == Seeds(lineage, currentBranch, mainAndPerennials, ancestors, |ancestors|)
    requires SeedsAttached(lineage, ancestors, descendantsOfAncestor, 0, visited)
    ensures SeedsAttached(lineage, ancestors, descendantsOfAncestor, |descendantsOfAncestor|, result)
  {
    result := visited;
    var k := 0;
    while k < |descendantsOfAncestor|
      invariant 0 <= k <= |descendantsOfAncestor|
      invariant SeedsAttached(lineage, ancestors, descendantsOfAncestor, k, result)
    {
      result := AddSeedSubtree(currentBranch, lineage, mainAndPerennials, ancestors, descendantsOfAncestor, k, result);
      k := k + 1;
    }
  }

  /** One turn of the second loop of `NewLineageTree`: the subtree of the `k`-th collected
      branch. */
  method AddSeedSubtree(currentBranch: Branch, lineage: Lineage, mainAndPerennials: seq<Branch>,
                        ghost ancestors: seq<Branch>, descendantsOfAncestor: seq<Branch>, k: nat,
                        visited: map<Branch, Node>)
    returns (result: map<Branch, Node>)
    requires lineage.Valid() && currentBranch in lineage.parents
    requires ancestors == lineage.Ancestors(currentBranch) && |ancestors| > 0
    requires descendantsOfAncestor == Seeds(lineage, currentBranch, mainAndPerennials, ancestors, |ancestors|)
    requires k < |descendantsOfAncestor|
    requires SeedsAttached(lineage, ancestors, descendantsOfAncestor, k, visited)
    ensures SeedsAttached(lineage, ancestors, descendantsOfAncestor, k + 1, result)
  {
    SeedReady(lineage, currentBranch, mainAndPerennials, ancestors, descendantsOfAncestor, k, visited);
    result := AddDescendantNodes(descendantsOfAncestor[k], lineage, visited, ancestors[0]);
    SeedAdded(lineage, ancestors, descendantsOfAncestor, k, visited, result);
  }

  /** The inner loop over the children of one ancestor: appends each child that is neither
      in `mainAndPerennials` nor in `ancestors`, in order. */
  method AppendFreeChildren(descendants: seq<Branch>, children: seq<Branch>, mainAndPerennials: seq<Branch>,
                            ancestors: seq<Branch>)
    returns (result: seq<Branch>)
    ensures result == descendants + Filter(children, IsFreeChild(mainAndPerennials, ancestors))
  {
    result := descendants;
    var j := 0;
    assert Filter(children[..0], IsFreeChild(mainAndPerennials, ancestors)) == [];
    while j < |children|
      invariant 0 <= j <= |children|
      invariant result == descendants + Filter(children[..j], IsFreeChild(mainAndPerennials, ancestors))
    {
      var child := children[j];
      FilterExtend(children, j, IsFreeChild(mainAndPerennials, ancestors), result, descendants);
      assert IsFreeChild(mainAndPerennials, ancestors)(child) <==> child !in mainAndPerennials && child !in ancestors;
      if !(child in mainAndPerennials) && !(child in ancestors) {
        result := result + [child];
      }
      j := j + 1;
    }
    assert children[..|children|] == children;
  }

  /** The closing loop over the `visited` arena. Go ranges over a map in no fixed order, so
      any order of the keys is allowed here. */
  method VisitedBranches(visited: map<Branch, Node>) returns (branches: seq<Branch>)
    ensures Distinct(branches)
    ensures forall b :: b in branches <==> b in visited
  {
    branches := [];
    var remaining := visited.Keys;
    while remaining != {}
      invariant remaining <= visited.Keys && Distinct(branches)
      invariant forall b :: b in branches <==> b in visited && b !in remaining
      decreases remaining
    {
      var branch :| branch in remaining;
      DistinctAppend(branches, branch);
      branches := branches + [branch];
      remaining := remaining - {branch};
    }
  }

  /** The test "neither a main or perennial branch nor one of `ancestors`". */
  function IsFreeChild(mainAndPerennials: seq<Branch>, ancestors: seq<Branch>): Branch -> bool
  {
    c => c !in mainAndPerennials && c !in ancestors
  }

  /** The branches whose subtrees join the tree: `x` itself, and the children of its ancestors
      that are neither main or perennial branches nor ancestors. */
  ghost predicate IsStackSeed(L: Lineage, x: Branch, mainAndPerennials: seq<Branch>, s: Branch)
    requires L.Valid()
  {
    || s == x
    || (s in L.parents && L.parents[s] in L.Ancestors(x) && IsFreeChild(mainAndPerennials, L.Ancestors(x))(s))
  }

  /** The list `descendantsOfAncestor` after the children of the first `k` ancestors `A` of
      `x` are collected. */
  function Seeds(L: Lineage, x: Branch, mainAndPerennials: seq<Branch>, A: seq<Branch>, k: nat): seq<Branch>
    requires k <= |A|
  {
    if k == 0 then [x]
    else Seeds(L, x, mainAndPerennials, A, k - 1) + Filter(L.Children(A[k - 1]), IsFreeChild(mainAndPerennials, A))
  }

  /** The ancestors of a branch with a parent are the chain of that parent. */
  lemma AncestorsLine(L: Lineage, x: Branch)
    requires L.Valid() && x in L.parents
    ensures L.Ancestors(x) == L.Chain(L.parents[x])
    ensures IsLineageLine(L, L.Ancestors(x)) && Distinct(L.Ancestors(x))
    ensures L.Ancestors(x)[|L.Ancestors(x)| - 1] == L.parents[x]
  {
    ChainIsLineageLine(L, L.parents[x]);
  }

  lemma {:induction false} SeedsMembership(L: Lineage, x: Branch, mp: seq<Branch>, A: seq<Branch>, k: nat, s: Branch)
    requires L.Valid() && k <= |A|
    ensures s in Seeds(L, x, mp, A, k) <==>
              s == x || (s in L.parents && L.parents[s] in A[..k] && IsFreeChild(mp, A)(s))
  {
    if k > 0 {
      var a, F := A[k - 1], IsFreeChild(mp, A);
      var added := Filter(L.Children(a), F);
      assert Seeds(L, x, mp, A, k) == Seeds(L, x, mp, A, k - 1) + added;
      SeedsMembership(L, x, mp, A, k - 1, s);
      FilterMembership(L.Children(a), F, s);
      ChildrenMembership(L, a, s);
      assert s in added <==> s in L.parents && L.parents[s] == a && F(s);
      PrefixStep(A, k - 1);
      assert s in L.parents ==> (L.parents[s] in A[..k] <==> L.parents[s] in A[..k - 1] || L.parents[s] == a);
    }
  }

  /** Every entry of `descendantsOfAncestor` is a stack seed and every stack seed is one. */
  lemma SeedsAreStackSeeds(L: Lineage, x: Branch, mp: seq<Branch>, s: Branch)
    requires L.Valid() && x in L.parents
    ensures s in Seeds(L, x, mp, L.Ancestors(x), |L.Ancestors(x)|) <==> IsStackSeed(L, x, mp, s)
  {
    SeedsMembership(L, x, mp, L.Ancestors(x), |L.Ancestors(x)|, s);
    assert L.Ancestors(x)[..|L.Ancestors(x)|] == L.Ancestors(x);
  }

  /** No stack seed lies below another one. */
  lemma SeedUnderSeed(L: Lineage, x: Branch, mp: seq<Branch>, s: Branch, t: Branch)
    requires L.Valid() && IsStackSeed(L, x, mp, s) && IsStackSeed(L, x, mp, t) && L.Under(t, s)
    ensures t == s
  {
    NotOwnAncestor(L, x);
    if s != x {
      var a := L.parents[s];
      ChildChain(L, s);
      if t != s {
        assert L.Under(t, a);
        assert L.Under(a, x);
        UnderTransitive(L, t, a, x);
        if t == x {
          UnderAntisymmetric(L, a, x);
        }
      }
    }
  }

  /** The arena after the subtrees of the first `k` entries of the list `S` of seeds are
      attached below the ancestor line `A`: those subtrees complete, each ancestor's child list
      extended by the entries that were not there yet, and every other node holding all its
      children. */
  ghost predicate SeedsAttached(L: Lineage, A: seq<Branch>, S: seq<Branch>, k: nat, m: map<Branch, Node>)
    requires L.Valid() && |A| > 0
  {
    && k <= |S|
    && Shaped(L, Tree(A[0], m))
    && SeedKeys(L, A, S, k, m)
    && AncestorChildren(L, A, S, k, m)
    && OtherChildren(L, A, m)
  }

  ghost predicate SeedKeys(L: Lineage, A: seq<Branch>, S: seq<Branch>, k: nat, m: map<Branch, Node>)
    requires L.Valid() && k <= |S|
  {
    forall b :: b in m <==> b in A || exists i :: 0 <= i < k && L.Under(S[i], b)
  }

  ghost predicate AncestorChildren(L: Lineage, A: seq<Branch>, S: seq<Branch>, k: nat, m: map<Branch, Node>)
    requires k <= |S|
  {
    forall i :: 0 <= i < |A| ==>
      A[i] in m && m[A[i]].children == LineChildren(A, i) + Filter(Dedup(S[..k]), L.IsChildOf(A[i]))
  }

  ghost predicate OtherChildren(L: Lineage, A: seq<Branch>, m: map<Branch, Node>)
  {
    forall b :: b in m && b !in A ==> m[b].children == L.Children(b)
  }

  /** The ancestor line alone is where the loop over the seeds starts. */
  lemma SeedsStart(L: Lineage, A: seq<Branch>, S: seq<Branch>, m: map<Branch, Node>)
    requires L.Valid() && IsLineageLine(L, A) && IsLineArena(A, m)
    ensures SeedsAttached(L, A, S, 0, m)
  {
    LineArenaShaped(L, A, m);
    assert Dedup(S[..0]) == [];
    forall i | 0 <= i < |A|
      ensures A[i] in m && m[A[i]].children == LineChildren(A, i) + Filter(Dedup(S[..0]), L.IsChildOf(A[i]))
    {
      assert m[A[i]] == Node(A[i], i, LineChildren(A, i));
    }
  }

  /** The next seed is a child of an ancestor, which is in the arena; the seed is in the arena
      itself exactly when it occurred earlier in the list. */
  lemma SeedFresh(L: Lineage, x: Branch, mp: seq<Branch>, A: seq<Branch>, S: seq<Branch>, k: nat,
                  m: map<Branch, Node>)
    requires L.Valid() && x in L.parents && A == L.Ancestors(x) && |A| > 0
    requires S == Seeds(L, x, mp, A, |A|) && k < |S|
    requires SeedKeys(L, A, S, k, m)
    ensures S[k] in L.parents && L.parents[S[k]] in A && L.parents[S[k]] in m
    ensures S[k] !in A
    ensures S[k] in m <==> S[k] in S[..k]
  {
    var s := S[k];
    SeedsAreStackSeeds(L, x, mp, s);
    AncestorsLine(L, x);
    NotOwnAncestor(L, x);
    if s in m {
      var i :| 0 <= i < k && L.Under(S[i], s);
      SeedsAreStackSeeds(L, x, mp, S[i]);
      SeedUnderSeed(L, x, mp, s, S[i]);
      assert S[..k][i] == s;
    }
    if s in S[..k] {
      var i := IndexIn(S[..k], s);
      assert S[i] == s && L.Under(S[i], s);
    }
  }

  /** What the loop over the seeds needs before visiting the next one. */
  lemma SeedReady(L: Lineage, x: Branch, mp: seq<Branch>, A: seq<Branch>, S: seq<Branch>, k: nat,
                  m: map<Branch, Node>)
    requires L.Valid() && x in L.parents && A == L.Ancestors(x) && |A| > 0
    requires S == Seeds(L, x, mp, A, |A|) && k < |S|
    requires SeedsAttached(L, A, S, k, m)
    ensures Shaped(L, Tree(A[0], m))
    ensures S[k] in L.parents && L.parents[S[k]] in A && L.parents[S[k]] in m
    ensures S[k] !in A
    ensures S[k] in m <==> S[k] in S[..k]
  {
    SeedFresh(L, x, mp, A, S, k, m);
  }

  /** Attaching the subtree of the next seed keeps the loop invariant. */
  lemma SeedAdded(L: Lineage, A: seq<Branch>, S: seq<Branch>, k: nat, m: map<Branch, Node>, m': map<Branch, Node>)
    requires L.Valid() && |A| > 0 && k < |S|
    requires SeedsAttached(L, A, S, k, m)
    requires S[k] in L.parents && L.parents[S[k]] in A && S[k] !in A
    requires S[k] in m <==> S[k] in S[..k]
    requires DescendantsAdded(L, A[0], S[k], m, m')
    ensures SeedsAttached(L, A, S, k + 1, m')
  {
    SeedKeysStep(L, A, S, k, m, m');
    AncestorChildrenStep(L, A, S, k, m, m');
    OtherChildrenStep(L, A, S[k], m, m');
  }

  lemma SeedKeysStep(L: Lineage, A: seq<Branch>, S: seq<Branch>, k: nat, m: map<Branch, Node>, m': map<Branch, Node>)
    requires L.Valid() && k < |S| && SeedKeys(L, A, S, k, m)
    requires (S[k] in m <==> S[k] in S[..k])
    requires forall y :: y in m' <==> y in m || (S[k] !in m && L.Under(S[k], y))
    ensures SeedKeys(L, A, S, k + 1, m')
  {
    var s := S[k];
    forall b ensures b in m' <==> b in A || exists i :: 0 <= i < k + 1 && L.Under(S[i], b) {
      if L.Under(s, b) {
        assert exists i :: 0 <= i < k + 1 && L.Under(S[i], b);
        if s in m {
          var i := IndexIn(S[..k], s);
          assert L.Under(S[i], b);
        }
      }
      if exists i :: 0 <= i < k + 1 && L.Under(S[i], b) {
        var i :| 0 <= i < k + 1 && L.Under(S[i], b);
        if i < k {
          assert b in m;
        }
      }
    }
  }

  lemma AncestorChildrenStep(L: Lineage, A: seq<Branch>, S: seq<Branch>, k: nat, m: map<Branch, Node>, m': map<Branch, Node>)
    requires k < |S| && AncestorChildren(L, A, S, k, m)
    requires (S[k] in m <==> S[k] in S[..k])
    requires S[k] in m ==> m' == m
    requires S[k] !in m ==>
               && S[k] in L.parents && L.parents[S[k]] in m && L.parents[S[k]] in m'
               && m'[L.parents[S[k]]] == m[L.parents[S[k]]].(children := m[L.parents[S[k]]].children + [S[k]])
               && (forall y :: y in m && y != L.parents[S[k]] ==> y in m' && m'[y] == m[y])
    ensures AncestorChildren(L, A, S, k + 1, m')
  {
    var s := S[k];
    DedupStep(S, k);
    forall i | 0 <= i < |A|
      ensures A[i] in m' && m'[A[i]].children == LineChildren(A, i) + Filter(Dedup(S[..k + 1]), L.IsChildOf(A[i]))
    {
      AncestorChildStep(L, A[i], LineChildren(A, i), Dedup(S[..k]), s, s in S[..k], m, m');
    }
  }

  lemma AncestorChildStep(L: Lineage, a: Branch, line: seq<Branch>, D: seq<Branch>, s: Branch, seen: bool,
                          m: map<Branch, Node>, m': map<Branch, Node>)
    requires a in m && m[a].children == line + Filter(D, L.IsChildOf(a))
    requires seen ==> m' == m
    requires !seen ==>
               && s in L.parents && L.parents[s] in m && L.parents[s] in m'
               && m'[L.parents[s]] == m[L.parents[s]].(children := m[L.parents[s]].children + [s])
               && (forall y :: y in m && y != L.parents[s] ==> y in m' && m'[y] == m[y])
    ensures a in m' && m'[a].children == line + Filter(D + if seen then [] else [s], L.IsChildOf(a))
  {
    var q := L.IsChildOf(a);
    if seen {
      assert D + [] == D;
    } else {
      FilterAppend(D, [s], q);
      FilterOne(s, q);
    }
  }

  lemma OtherChildrenStep(L: Lineage, A: seq<Branch>, s: Branch, m: map<Branch, Node>, m': map<Branch, Node>)
    requires OtherChildren(L, A, m)
    requires s in m ==> m' == m
    requires s !in m ==>
               && s in L.parents && L.parents[s] in A
               && (forall y :: y in m && y != L.parents[s] ==> y in m' && m'[y] == m[y])
    requires forall y :: y in m' ==> y in m || s !in m
    requires forall y :: y in m' && y !in m ==> m'[y].children == L.Children(y)
    ensures OtherChildren(L, A, m')
  {
  }

  /** Once every seed is attached, the tree is the one `NewLineageTree` promises. */
  lemma SeedsDone(L: Lineage, x: Branch, mp: seq<Branch>, A: seq<Branch>, S: seq<Branch>, t: Tree)
    requires L.Valid() && x in L.parents && A == L.Ancestors(x) && |A| > 0 && t.root == A[0]
    requires S == Seeds(L, x, mp, A, |A|) && SeedsAttached(L, A, S, |S|, t.nodes)
    ensures Shaped(L, t)
    ensures forall b :: b in t.nodes <==> b in L.Ancestors(x) || exists s :: IsStackSeed(L, x, mp, s) && L.Under(s, b)
    ensures forall i :: 0 <= i < |L.Ancestors(x)| ==>
              var a := L.Ancestors(x)[i];
              && a in t.nodes
              && t.nodes[a].children == [L.Chain(x)[i + 1]] + Filter(L.Children(a), IsFreeChild(mp, L.Chain(x)))
    ensures forall b :: b in t.nodes && b !in L.Ancestors(x) ==> t.nodes[b].children == L.Children(b)
  {
    assert S[..|S|] == S;
    SeedsDoneKeys(L, x, mp, t.nodes);
    AncestorsLine(L, x);
    forall i | 0 <= i < |A|
      ensures t.nodes[A[i]].children == [L.Chain(x)[i + 1]] + Filter(L.Children(A[i]), IsFreeChild(mp, L.Chain(x)))
    {
      AncestorChildrenDone(L, x, mp, A, i);
    }
  }

  lemma SeedsDoneKeys(L: Lineage, x: Branch, mp: seq<Branch>, m: map<Branch, Node>)
    requires L.Valid() && x in L.parents
    requires SeedKeys(L, L.Ancestors(x), Seeds(L, x, mp, L.Ancestors(x), |L.Ancestors(x)|), |Seeds(L, x, mp, L.Ancestors(x), |L.Ancestors(x)|)|, m)
    ensures forall b :: b in m <==> b in L.Ancestors(x) || exists s :: IsStackSeed(L, x, mp, s) && L.Under(s, b)
  {
    var S := Seeds(L, x, mp, L.Ancestors(x), |L.Ancestors(x)|);
    forall b ensures b in m <==> b in L.Ancestors(x) || exists s :: IsStackSeed(L, x, mp, s) && L.Under(s, b) {
      if exists s :: IsStackSeed(L, x, mp, s) && L.Under(s, b) {
        var s :| IsStackSeed(L, x, mp, s) && L.Under(s, b);
        SeedsAreStackSeeds(L, x, mp, s);
        var i := IndexIn(S, s);
        assert L.Under(S[i], b);
      }
      if exists i :: 0 <= i < |S| && L.Under(S[i], b) {
        var i :| 0 <= i < |S| && L.Under(S[i], b);
        SeedsAreStackSeeds(L, x, mp, S[i]);
      }
    }
  }

  /** The seeds that are children of the `i`-th ancestor `A[i]` once `k` ancestors are
      collected: the branch itself below its parent, then the free children of that ancestor. */
  function ChildSeeds(L: Lineage, x: Branch, mp: seq<Branch>, A: seq<Branch>, k: nat, i: nat): seq<Branch>
    requires i < |A|
  {
    (if i == |A| - 1 then [x] else []) + (if i < k then Filter(L.Children(A[i]), IsFreeChild(mp, A)) else [])
  }

  /** The seeds that are children of the `i`-th ancestor, repetitions included. */
  lemma {:induction false} SeedsBelow(L: Lineage, x: Branch, mp: seq<Branch>, A: seq<Branch>, k: nat, i: nat)
    requires Distinct(A) && x in L.parents && |A| > 0 && L.parents[x] == A[|A| - 1]
    requires k <= |A| && i < |A|
    ensures Filter(Seeds(L, x, mp, A, k), L.IsChildOf(A[i])) == ChildSeeds(L, x, mp, A, k, i)
    decreases k
  {
    if k == 0 {
      FilterOne(x, L.IsChildOf(A[i]));
      assert L.IsChildOf(A[i])(x) <==> i == |A| - 1;
    } else {
      SeedsBelow(L, x, mp, A, k - 1, i);
      SeedsBelowStep(L, x, mp, A, k, i);
    }
  }

  lemma {:induction false} SeedsBelowStep(L: Lineage, x: Branch, mp: seq<Branch>, A: seq<Branch>, k: nat, i: nat)
    requires Distinct(A) && 0 < k <= |A| && i < |A|
    requires Filter(Seeds(L, x, mp, A, k - 1), L.IsChildOf(A[i])) == ChildSeeds(L, x, mp, A, k - 1, i)
    ensures Filter(Seeds(L, x, mp, A, k), L.IsChildOf(A[i])) == ChildSeeds(L, x, mp, A, k, i)
  {
    var q := L.IsChildOf(A[i]);
    var B := Filter(L.Children(A[k - 1]), IsFreeChild(mp, A));
    SeedsAppend(L, x, mp, A, k, i);
    ChildrenOfOne(L, A[k - 1], A[i], IsFreeChild(mp, A));
    assert A[k - 1] == A[i] <==> k - 1 == i;
    ChildSeedsGrow(if i == |A| - 1 then [x] else [], Filter(Seeds(L, x, mp, A, k - 1), q),
                   Filter(B, q), Filter(L.Children(A[i]), IsFreeChild(mp, A)), i, k);
  }

  /** The list algebra of one step of `SeedsBelow`. */
  lemma ChildSeedsGrow(first: seq<Branch>, before: seq<Branch>, added: seq<Branch>, B: seq<Branch>, i: int, k: int)
    requires before == first + (if i < k - 1 then B else [])
    requires added == if i == k - 1 then B else []
    ensures before + added == first + (if i < k then B else [])
  {
    if i == k - 1 {
      assert before == first;
    } else {
      assert added == [];
      assert before + [] == before;
    }
  }

  lemma {:induction false} SeedsAppend(L: Lineage, x: Branch, mp: seq<Branch>, A: seq<Branch>, k: nat, i: nat)
    requires 0 < k <= |A| && i < |A|
    ensures Filter(Seeds(L, x, mp, A, k), L.IsChildOf(A[i])) ==
              Filter(Seeds(L, x, mp, A, k - 1), L.IsChildOf(A[i]))
              + Filter(Filter(L.Children(A[k - 1]), IsFreeChild(mp, A)), L.IsChildOf(A[i]))
  {
    FilterAppend(Seeds(L, x, mp, A, k - 1), Filter(L.Children(A[k - 1]), IsFreeChild(mp, A)), L.IsChildOf(A[i]));
  }

  /** The final child list of the `i`-th ancestor: the next branch of the chain `A + [x]`,
      then the free children of the ancestor in lineage order. */
  lemma AncestorChildrenDone(L: Lineage, x: Branch, mp: seq<Branch>, A: seq<Branch>, i: nat)
    requires Distinct(L.order) && Distinct(A) && x in L.parents && |A| > 0 && L.parents[x] == A[|A| - 1] && i < |A|
    ensures LineChildren(A, i) + Filter(Dedup(Seeds(L, x, mp, A, |A|)), L.IsChildOf(A[i])) ==
              [(A + [x])[i + 1]] + Filter(L.Children(A[i]), IsFreeChild(mp, A + [x]))
  {
    var q := L.IsChildOf(A[i]);
    var S := Seeds(L, x, mp, A, |A|);
    var first: seq<Branch> := if i == |A| - 1 then [x] else [];
    var B := Filter(L.Children(A[i]), IsFreeChild(mp, A));
    var F := Filter(L.Children(A[i]), IsFreeChild(mp, A + [x]));
    FilterDedup(S, q);
    SeedsBelow(L, x, mp, A, |A|, i);
    assert Filter(S, q) == first + B;
    ChildrenDistinct(L, A[i], IsFreeChild(mp, A));
    DedupAppend(first, B);
    assert Dedup(first) == first by {
      if i == |A| - 1 {
        DedupLast([], x);
      }
    }
    forall c | c in L.Children(A[i])
      ensures IsFreeChild(mp, A + [x])(c) <==> IsFreeChild(mp, A)(c) && NotIn(first)(c)
    {
      FilterMembership(L.order, L.IsChildOf(A[i]), c);
    }
    FilterFilter(L.Children(A[i]), IsFreeChild(mp, A), NotIn(first), IsFreeChild(mp, A + [x]));
    assert Filter(Dedup(S), q) == first + F;
    var line := LineChildren(A, i);
    assert line + first == [(A + [x])[i + 1]];
    AppendAssociative(line, first, F);
  }

  // ---------------------------------------------------------------------------------------
  // addDescendantNodes

  /** What `AddDescendantNodes` does to the arena `V`, giving `W`: nothing when `branch` is in it
      already; otherwise `branch` is appended to its parent's child list, every other node is
      kept, and the whole subtree of `branch` is added with each new node holding all its
      children, the tree keeping its shape. */
  ghost predicate DescendantsAdded(L: Lineage, root: Branch, branch: Branch, V: map<Branch, Node>, W: map<Branch, Node>)
    requires L.Valid()
  {
    && Shaped(L, Tree(root, W))
    && (forall y :: y in W <==> y in V || (branch !in V && L.Under(branch, y)))
    && (branch in V ==> W == V)
    && (branch !in V ==>
          && branch in L.parents
          && var p := L.parents[branch];
          && p in V && p in W
          && W[p] == V[p].(children := V[p].children + [branch])
          && (forall y :: y in V && y != p ==> y in W && W[y] == V[y]))
    && (forall y :: y in W && y !in V ==> W[y].children == L.Children(y))
  }

  /** Attaches `branch` below its parent's node unless it is visited already, then does the
      same for each of its children in lineage order. `root` is the root of the tree being
      built; it is not consulted. */
  method AddDescendantNodes(branch: Branch, lineage: Lineage, visited: map<Branch, Node>, ghost root: Branch)
    returns (result: map<Branch, Node>)
    requires lineage.Valid() && Shaped(lineage, Tree(root, visited))
    requires branch in visited || (branch in lineage.parents && lineage.parents[branch] in visited)
    ensures DescendantsAdded(lineage, root, branch, visited, result)
    decreases lineage.parents.Keys - visited.Keys
  {
    if branch in visited {
      return visited;
    }
    var parent := lineage.Parent(branch);
    result := Attach(visited, parent.value, branch);
    SubtreeStart(lineage, root, visited, branch);
    var children := lineage.Children(branch);
    var j := 0;
    while j < |children|
      invariant 0 <= j <= |children|
      invariant SubtreeGrowing(lineage, root, visited, branch, j, result)
    {
      SubtreeChildFresh(lineage, root, visited, branch, j, result);
      var before := result;
      result := AddDescendantNodes(children[j], lineage, result, root);
      SubtreeChildAdded(lineage, root, visited, branch, j, before, result);
      j := j + 1;
    }
    SubtreeDone(lineage, root, visited, branch, result);
  }

  /** The arena while the children of `branch` are visited: `branch` hangs below its parent,
      the subtrees of its first `j` children are complete, and nothing else has changed. */
  ghost predicate SubtreeGrowing(L: Lineage, r: Branch, V: map<Branch, Node>, branch: Branch, j: nat, W: map<Branch, Node>)
    requires L.Valid()
  {
    && branch in L.parents && L.parents[branch] in V && branch !in V
    && j <= |L.Children(branch)|
    && Shaped(L, Tree(r, V))
    && Shaped(L, Tree(r, W))
    && SubtreeKeys(L, V, branch, j, W)
    && SubtreeOldNodes(L, V, branch, W)
    && branch in W && W[branch].children == L.Children(branch)[..j]
    && (forall y :: y in W && y !in V && y != branch ==> W[y].children == L.Children(y))
  }

  /** Right after `branch` is attached, no child of it is visited yet. */
  lemma SubtreeStart(L: Lineage, r: Branch, V: map<Branch, Node>, branch: Branch)
    requires L.Valid() && Shaped(L, Tree(r, V))
    requires branch in L.parents && L.parents[branch] in V && branch !in V
    ensures SubtreeGrowing(L, r, V, branch, 0, Attach(V, L.parents[branch], branch))
  {
    AttachShaped(L, Tree(r, V), branch);
    AttachedNodes(V, L.parents[branch], branch);
    assert L.Children(branch)[..0] == [];
  }

  ghost predicate SubtreeKeys(L: Lineage, V: map<Branch, Node>, branch: Branch, j: nat, W: map<Branch, Node>)
    requires L.Valid() && j <= |L.Children(branch)|
  {
    forall y :: y in W <==> y in V || y == branch || exists k :: 0 <= k < j && L.Under(L.Children(branch)[k], y)
  }

  ghost predicate SubtreeOldNodes(L: Lineage, V: map<Branch, Node>, branch: Branch, W: map<Branch, Node>)
    requires branch in L.parents && L.parents[branch] in V
  {
    var p := L.parents[branch];
    && p in W && W[p] == V[p].(children := V[p].children + [branch])
    && (forall y :: y in V && y != p ==> y in W && W[y] == V[y])
  }

  /** The next child of `branch` is not in the arena yet, and its parent is. */
  lemma SubtreeChildFresh(L: Lineage, r: Branch, V: map<Branch, Node>, branch: Branch, j: nat, W: map<Branch, Node>)
    requires L.Valid() && j < |L.Children(branch)| && SubtreeGrowing(L, r, V, branch, j, W)
    ensures L.Children(branch)[j] in L.parents && L.parents[L.Children(branch)[j]] == branch
    ensures L.Children(branch)[j] !in W
    ensures L.parents.Keys - W.Keys < L.parents.Keys - V.Keys
  {
    var cs := L.Children(branch);
    var c := cs[j];
    ChildrenMembership(L, branch, c);
    ChildChain(L, c);
    if c in V {
      TreeHoldsChain(L, Tree(r, V), c);
    }
    NotOwnAncestor(L, c);
    FilterDistinct(L.order, L.IsChildOf(branch));
    forall k | 0 <= k < j ensures !L.Under(cs[k], c) {
      ChildrenMembership(L, branch, cs[k]);
      if L.Under(cs[k], c) {
        SiblingsDisjoint(L, cs[k], c, c);
      }
    }
    assert branch in W;
  }

  /** Visiting the `j`-th child of `branch` completes its subtree. */
  lemma SubtreeChildAdded(L: Lineage, r: Branch, V: map<Branch, Node>, branch: Branch, j: nat,
                          W: map<Branch, Node>, W': map<Branch, Node>)
    requires L.Valid() && j < |L.Children(branch)| && SubtreeGrowing(L, r, V, branch, j, W)
    requires L.Children(branch)[j] in L.parents && L.parents[L.Children(branch)[j]] == branch
    requires L.Children(branch)[j] !in W
    requires DescendantsAdded(L, r, L.Children(branch)[j], W, W')
    ensures SubtreeGrowing(L, r, V, branch, j + 1, W')
  {
    PrefixStep(L.Children(branch), j);
    SubtreeKeysStep(L, V, branch, j, W, W');
  }

  lemma SubtreeKeysStep(L: Lineage, V: map<Branch, Node>, branch: Branch, j: nat,
                        W: map<Branch, Node>, W': map<Branch, Node>)
    requires L.Valid() && j < |L.Children(branch)| && SubtreeKeys(L, V, branch, j, W)
    requires forall y :: y in W' <==> y in W || L.Under(L.Children(branch)[j], y)
    ensures SubtreeKeys(L, V, branch, j + 1, W')
  {
    var cs := L.Children(branch);
    forall y ensures y in W' <==> y in V || y == branch || exists k :: 0 <= k < j + 1 && L.Under(cs[k], y) {
      if L.Under(cs[j], y) {
        assert exists k :: 0 <= k < j + 1 && L.Under(cs[k], y);
      }
      if exists k :: 0 <= k < j + 1 && L.Under(cs[k], y) {
        var k :| 0 <= k < j + 1 && L.Under(cs[k], y);
        if k < j {
          assert y in W;
        }
      }
    }
  }

  /** Once every child is visited, the arena holds the whole subtree of `branch`. */
  lemma SubtreeDone(L: Lineage, r: Branch, V: map<Branch, Node>, branch: Branch, W: map<Branch, Node>)
    requires L.Valid() && SubtreeGrowing(L, r, V, branch, |L.Children(branch)|, W)
    ensures DescendantsAdded(L, r, branch, V, W)
  {
    SubtreeDoneKeys(L, V, branch, W);
    var cs := L.Children(branch);
    assert cs[..|cs|] == cs;
  }

  lemma SubtreeDoneKeys(L: Lineage, V: map<Branch, Node>, branch: Branch, W: map<Branch, Node>)
    requires L.Valid() && SubtreeKeys(L, V, branch, |L.Children(branch)|, W)
    ensures forall y :: y in W <==> y in V || L.Under(branch, y)
  {
    var cs := L.Children(branch);
    forall y ensures y in W <==> y in V || L.Under(branch, y) {
      if L.Under(branch, y) && y != branch {
        UnderSomeChild(L, branch, y);
        var c :| c in cs && L.Under(c, y);
        var k := IndexIn(cs, c);
        assert L.Under(cs[k], y);
      }
      if exists k :: 0 <= k < |cs| && L.Under(cs[k], y) {
        var k :| 0 <= k < |cs| && L.Under(cs[k], y);
        ChildrenMembership(L, branch, cs[k]);
        ChildChain(L, cs[k]);
        UnderTransitive(L, branch, cs[k], y);
      }
    }
  }

}

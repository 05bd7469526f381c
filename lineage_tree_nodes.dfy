/** The nodes of a lineage tree. Both tree builders link heap nodes through child
    pointers; here the nodes live in an arena keyed by branch name, the role the
    builders' own `visited`/`mapper` maps play, and a child pointer is the child's
    branch name. */
module LineageTreeNodes {
  import opened Lineages
  import opened Seqs

  /** A tree node: its branch, its depth below the root, its child branches in the order
      they were attached. */
  datatype Node = Node(branch: Branch, depth: int, children: seq<Branch>)

  /** A tree: the branch of its root node and the arena of all its nodes. */
  datatype Tree = Tree(root: Branch, nodes: map<Branch, Node>)

  /** The child branches of the node of `b`. */
  function ChildBranches(t: Tree, b: Branch): (r: seq<Branch>)
    requires b in t.nodes
    ensures |r| == |t.nodes[b].children|
  {
    t.nodes[b].children
  }

  /** The child nodes of the node of `b`, in order. */
  function ChildNodes(t: Tree, b: Branch): (r: seq<Node>)
    requires b in t.nodes
    requires forall c :: c in t.nodes[b].children ==> c in t.nodes
    ensures |r| == |t.nodes[b].children|
    ensures forall i :: 0 <= i < |r| ==> r[i] == t.nodes[t.nodes[b].children[i]]
  {
    seq(|t.nodes[b].children|, i requires 0 <= i < |t.nodes[b].children| => t.nodes[t.nodes[b].children[i]])
  }

  /** The shape every constructed tree has: each node is filed under its own branch, the root
      is a lineage root at depth 0, the children of a node are lineage children of its branch,
      each listed once, and every other node sits in the child list of its lineage parent's
      node one level deeper. */
  ghost predicate Shaped(L: Lineage, t: Tree)
  {
    && RootIsLineageRoot(L, t)
    && NodesFiled(t)
    && ChildrenAreLineageChildren(L, t)
    && NodesUnderLineageParents(L, t)
  }

  ghost predicate RootIsLineageRoot(L: Lineage, t: Tree)
  {
    t.root in t.nodes && t.root !in L.parents && t.nodes[t.root].depth == 0
  }

  ghost predicate NodesFiled(t: Tree)
  {
    forall b :: b in t.nodes ==> t.nodes[b].branch == b && Distinct(t.nodes[b].children)
  }

  ghost predicate ChildrenAreLineageChildren(L: Lineage, t: Tree)
  {
    forall b, i :: b in t.nodes && 0 <= i < |t.nodes[b].children| ==>
      && t.nodes[b].children[i] in t.nodes
      && t.nodes[b].children[i] in L.parents
      && L.parents[t.nodes[b].children[i]] == b
  }

  ghost predicate NodesUnderLineageParents(L: Lineage, t: Tree)
  {
    forall b :: b in t.nodes && b != t.root ==>
      && b in L.parents
      && L.parents[b] in t.nodes
      && b in t.nodes[L.parents[b]].children
      && t.nodes[b].depth == t.nodes[L.parents[b]].depth + 1
  }

  /** The arena after appending a new node for `child` to the child list of the node of
      `parent`, one level deeper than that node. */
  function Attach(nodes: map<Branch, Node>, parent: Branch, child: Branch): (r: map<Branch, Node>)
    requires parent in nodes
    ensures r.Keys == nodes.Keys + {child}
  {
    var parentNode := nodes[parent];
    nodes[parent := parentNode.(children := parentNode.children + [child])]
         [child := Node(child, parentNode.depth + 1, [])]
  }

  /** Attaching a new branch adds exactly its node, childless, and extends the parent's child
      list; every other node stays. */
  lemma AttachedNodes(nodes: map<Branch, Node>, parent: Branch, child: Branch)
    requires parent in nodes && child !in nodes
    ensures forall y :: y in Attach(nodes, parent, child) <==> y in nodes || y == child
    ensures Attach(nodes, parent, child)[parent] == nodes[parent].(children := nodes[parent].children + [child])
    ensures forall y :: y in nodes && y != parent ==> Attach(nodes, parent, child)[y] == nodes[y]
    ensures Attach(nodes, parent, child)[child].children == []
  {
  }

  /** Attaching a branch that is not yet in the tree under its lineage parent keeps the shape. */
  lemma AttachShaped(L: Lineage, t: Tree, child: Branch)
    requires L.Valid() && Shaped(L, t)
    requires child in L.parents && L.parents[child] in t.nodes && child !in t.nodes
    ensures Shaped(L, Tree(t.root, Attach(t.nodes, L.parents[child], child)))
  {
    var p := L.parents[child];
    var m := Attach(t.nodes, p, child);
    assert child !in t.nodes[p].children;
    AttachFiled(t, p, child);
    AttachChildren(L, t, child);
    AttachUnderParents(L, t, child);
    assert m[t.root].depth == t.nodes[t.root].depth;
  }

  lemma AttachFiled(t: Tree, p: Branch, child: Branch)
    requires NodesFiled(t) && p in t.nodes && child !in t.nodes && child !in t.nodes[p].children
    ensures NodesFiled(Tree(t.root, Attach(t.nodes, p, child)))
  {
    var m := Attach(t.nodes, p, child);
    forall b | b in m
      ensures m[b].branch == b && Distinct(m[b].children)
    {
      if b == p {
        assert m[b].children == t.nodes[p].children + [child];
      } else if b != child {
        assert m[b] == t.nodes[b];
      }
    }
  }

  lemma AttachChildren(L: Lineage, t: Tree, child: Branch)
    requires ChildrenAreLineageChildren(L, t)
    requires child in L.parents && L.parents[child] in t.nodes && child !in t.nodes
    ensures ChildrenAreLineageChildren(L, Tree(t.root, Attach(t.nodes, L.parents[child], child)))
  {
    var p := L.parents[child];
    var m := Attach(t.nodes, p, child);
    forall b, i | b in m && 0 <= i < |m[b].children|
      ensures m[b].children[i] in m && m[b].children[i] in L.parents && L.parents[m[b].children[i]] == b
    {
      if b == p {
        assert m[b].children == t.nodes[p].children + [child];
        if i < |t.nodes[p].children| {
          assert m[b].children[i] == t.nodes[b].children[i];
        }
      } else if b != child {
        assert m[b] == t.nodes[b];
      }
    }
  }

  lemma AttachUnderParents(L: Lineage, t: Tree, child: Branch)
    requires NodesUnderLineageParents(L, t) && t.root in t.nodes
    requires child in L.parents && L.parents[child] in t.nodes && child !in t.nodes
    ensures NodesUnderLineageParents(L, Tree(t.root, Attach(t.nodes, L.parents[child], child)))
  {
    var p := L.parents[child];
    var m := Attach(t.nodes, p, child);
    assert m[p].children == t.nodes[p].children + [child];
    assert m[p].depth == t.nodes[p].depth;
    forall b | b in m && b != t.root
      ensures b in L.parents && L.parents[b] in m && b in m[L.parents[b]].children
      ensures m[b].depth == m[L.parents[b]].depth + 1
    {
      if b != child {
        var q := L.parents[b];
        assert b in t.nodes[q].children;
        assert q != child;
        assert m[b].depth == t.nodes[b].depth;
        if q != p {
          assert m[q] == t.nodes[q];
        }
      }
    }
  }

  /** Every node's depth is its distance from the root, which is the number of its
      lineage ancestors. */
  lemma {:induction false} DepthIsDistance(L: Lineage, t: Tree, b: Branch)
    requires L.Valid() && Shaped(L, t) && b in t.nodes
    ensures t.nodes[b].depth == |L.Ancestors(b)|
    decreases L.Rank(b)
  {
    if b != t.root {
      L.ParentRankSmaller(b);
      DepthIsDistance(L, t, L.parents[b]);
    }
  }

  /** A tree holds the whole chain of each of its branches. */
  lemma {:induction false} TreeHoldsChain(L: Lineage, t: Tree, y: Branch)
    requires L.Valid() && Shaped(L, t) && y in t.nodes
    ensures forall a :: L.Under(a, y) ==> a in t.nodes
    decreases L.Rank(y)
  {
    if y != t.root {
      var p := L.parents[y];
      L.ParentRankSmaller(y);
      TreeHoldsChain(L, t, p);
      ChildChain(L, y);
    }
  }

  /** Every node but the root occurs in exactly one child list, that of its lineage
      parent's node, and only once there; the root occurs in none. */
  lemma ExactlyOnce(L: Lineage, t: Tree, b: Branch, p: Branch)
    requires L.Valid() && Shaped(L, t) && b in t.nodes && p in t.nodes
    ensures b in t.nodes[p].children <==> b != t.root && L.parents[b] == p
    ensures forall i, j :: 0 <= i < j < |t.nodes[p].children| ==> t.nodes[p].children[i] != t.nodes[p].children[j]
  {
    if b in t.nodes[p].children {
      var i :| 0 <= i < |t.nodes[p].children| && t.nodes[p].children[i] == b;
    }
  }

  /** What a child pointer means in a tree of lineage shape: the `i`-th child node holds the
      `i`-th child branch, that branch is a lineage child of `b`, and its node sits one level
      below the node of `b`. */
  lemma ChildNodesAreLineageChildren(L: Lineage, t: Tree, b: Branch)
    requires L.Valid() && Shaped(L, t) && b in t.nodes
    ensures forall c :: c in t.nodes[b].children ==> c in t.nodes
    ensures forall i :: 0 <= i < |ChildNodes(t, b)| ==>
      && ChildNodes(t, b)[i].branch == t.nodes[b].children[i]
      && ChildNodes(t, b)[i].branch in L.parents
      && L.parents[ChildNodes(t, b)[i].branch] == b
      && ChildNodes(t, b)[i].depth == t.nodes[b].depth + 1
  {
    forall c | c in t.nodes[b].children ensures c in t.nodes {
      var i :| 0 <= i < |t.nodes[b].children| && t.nodes[b].children[i] == c;
    }
    forall i | 0 <= i < |ChildNodes(t, b)|
      ensures ChildNodes(t, b)[i].depth == t.nodes[b].depth + 1
    {
      var c := t.nodes[b].children[i];
      assert c != t.root;
    }
  }

  /** The child branches are the branches of the child nodes. */
  lemma ChildBranchesOfChildNodes(L: Lineage, t: Tree, b: Branch)
    requires L.Valid() && Shaped(L, t) && b in t.nodes
    ensures forall c :: c in t.nodes[b].children ==> c in t.nodes
    ensures ChildBranches(t, b) == seq(|ChildNodes(t, b)|, i requires 0 <= i < |ChildNodes(t, b)| => ChildNodes(t, b)[i].branch)
  {
    forall c | c in t.nodes[b].children ensures c in t.nodes {
      var i :| 0 <= i < |t.nodes[b].children| && t.nodes[b].children[i] == c;
    }
  }

  /** The child list of the `j`-th node of a line of branches `c`: the next branch, if any. */
  function LineChildren(c: seq<Branch>, j: int): (r: seq<Branch>)
    ensures |r| <= 1
  {
    if 0 <= j && j + 1 < |c| then [c[j + 1]] else []
  }

  /** The nodes of a line of branches `c`, each node the only child of the one before. */
  ghost predicate IsLineArena(c: seq<Branch>, nodes: map<Branch, Node>)
  {
    && (forall b :: b in nodes <==> b in c)
    && (forall j :: 0 <= j < |c| ==> c[j] in nodes && nodes[c[j]] == Node(c[j], j, LineChildren(c, j)))
  }

  /** `c` runs down the lineage from a root, each branch the parent of the next. */
  ghost predicate IsLineageLine(L: Lineage, c: seq<Branch>)
  {
    && |c| > 0 && Distinct(c) && c[0] !in L.parents
    && (forall j :: 0 < j < |c| ==> c[j] in L.parents && L.parents[c[j]] == c[j - 1])
  }

  lemma ChainIsLineageLine(L: Lineage, x: Branch)
    requires L.Valid()
    ensures IsLineageLine(L, L.Chain(x))
  {
    var c := L.Chain(x);
    ChainDistinct(L, x);
    AncestorsAt(L, x, 0);
    forall j | 0 < j < |c|
      ensures c[j] in L.parents && L.parents[c[j]] == c[j - 1]
    {
      AncestorsAt(L, x, j);
      assert c[..j] == c[..j - 1] + [c[j - 1]];
    }
  }

  lemma LineArenaShaped(L: Lineage, c: seq<Branch>, nodes: map<Branch, Node>)
    requires L.Valid() && IsLineageLine(L, c) && IsLineArena(c, nodes)
    ensures Shaped(L, Tree(c[0], nodes))
  {
    var t := Tree(c[0], nodes);
    assert nodes[c[0]] == Node(c[0], 0, LineChildren(c, 0));
    LineArenaFiled(L, c, nodes);
    LineArenaChildren(L, c, nodes);
    LineArenaParents(L, c, nodes);
  }

  lemma LineArenaFiled(L: Lineage, c: seq<Branch>, nodes: map<Branch, Node>)
    requires L.Valid() && IsLineageLine(L, c) && IsLineArena(c, nodes)
    ensures NodesFiled(Tree(c[0], nodes))
  {
    forall b | b in nodes
      ensures nodes[b].branch == b && Distinct(nodes[b].children)
    {
      var j := IndexIn(c, b);
      assert nodes[c[j]] == Node(c[j], j, LineChildren(c, j));
    }
  }

  lemma LineArenaChildren(L: Lineage, c: seq<Branch>, nodes: map<Branch, Node>)
    requires IsLineageLine(L, c) && IsLineArena(c, nodes)
    ensures ChildrenAreLineageChildren(L, Tree(c[0], nodes))
  {
    forall b, i | b in nodes && 0 <= i < |nodes[b].children|
      ensures nodes[b].children[i] in nodes && nodes[b].children[i] in L.parents
      ensures L.parents[nodes[b].children[i]] == b
    {
      var j := IndexIn(c, b);
      LineNodeChild(L, c, nodes, j, i);
    }
  }

  /** The only child of the `j`-th node of a line is the next branch of the line. */
  lemma LineNodeChild(L: Lineage, c: seq<Branch>, nodes: map<Branch, Node>, j: nat, i: nat)
    requires IsLineageLine(L, c) && IsLineArena(c, nodes)
    requires j < |c| && c[j] in nodes && i < |nodes[c[j]].children|
    ensures j + 1 < |c| && nodes[c[j]].children[i] == c[j + 1]
    ensures c[j + 1] in nodes && c[j + 1] in L.parents && L.parents[c[j + 1]] == c[j]
  {
    assert nodes[c[j]] == Node(c[j], j, LineChildren(c, j));
  }

  lemma LineArenaParents(L: Lineage, c: seq<Branch>, nodes: map<Branch, Node>)
    requires L.Valid() && IsLineageLine(L, c) && IsLineArena(c, nodes)
    ensures NodesUnderLineageParents(L, Tree(c[0], nodes))
  {
    forall b | b in nodes && b != c[0]
      ensures b in L.parents && L.parents[b] in nodes && b in nodes[L.parents[b]].children
      ensures nodes[b].depth == nodes[L.parents[b]].depth + 1
    {
      var j := IndexIn(c, b);
      assert j > 0;
      assert nodes[c[j]] == Node(c[j], j, LineChildren(c, j));
      assert nodes[c[j - 1]] == Node(c[j - 1], j - 1, LineChildren(c, j - 1));
    }
  }

  /** The depth of the invisible super-root every builder starts from. */
  const SuperRootDepth := -1

  /** The first node of a line, under the super-root. */
  lemma LineArenaStart(c: seq<Branch>, nodes: map<Branch, Node>)
    requires |c| > 0 && IsLineArena(c[..0], nodes)
    ensures IsLineArena(c[..1], nodes[c[0] := Node(c[0], SuperRootDepth + 1, [])])
  {
    var m := nodes[c[0] := Node(c[0], SuperRootDepth + 1, [])];
    assert c[..1] == [c[0]];
    assert m[c[..1][0]] == Node(c[..1][0], 0, LineChildren(c[..1], 0));
  }

  /** Attaching the next branch of a line to the last node of the line built so far. */
  lemma LineArenaAttach(c: seq<Branch>, k: nat, nodes: map<Branch, Node>)
    requires 0 < k < |c| && Distinct(c) && IsLineArena(c[..k], nodes)
    ensures IsLineArena(c[..k + 1], Attach(nodes, c[k - 1], c[k]))
  {
    assert c[..k + 1] == c[..k] + [c[k]];
    DistinctFresh(c, k);
    assert c[..k][k - 1] == c[k - 1];
    LineArenaExtend(c[..k], c[k], nodes);
  }

  lemma LineArenaExtend(a: seq<Branch>, x: Branch, nodes: map<Branch, Node>)
    requires |a| > 0 && x !in a && IsLineArena(a, nodes)
    ensures IsLineArena(a + [x], Attach(nodes, a[|a| - 1], x))
  {
    var c, m, n := a + [x], Attach(nodes, a[|a| - 1], x), |a|;
    AttachedNodes(nodes, a[n - 1], x);
    assert nodes[a[n - 1]] == Node(a[n - 1], n - 1, LineChildren(a, n - 1));
    forall j | 0 <= j < |c|
      ensures c[j] in m && m[c[j]] == Node(c[j], j, LineChildren(c, j))
    {
      if j == n {
        assert c[j] == x;
      } else if j == n - 1 {
        assert c[j] == a[n - 1];
        assert m[a[n - 1]] == Node(a[n - 1], n - 1, LineChildren(c, n - 1));
      } else {
        assert c[j] == a[j];
        LineNodeKept(a, x, nodes, j);
      }
    }
    forall b ensures b in m <==> b in c {
      assert b in c <==> b in a || b == x;
    }
  }

  /** A node of a line before its last one is kept when the line grows. */
  lemma LineNodeKept(a: seq<Branch>, x: Branch, nodes: map<Branch, Node>, j: nat)
    requires |a| > 0 && x !in a && IsLineArena(a, nodes) && j < |a| - 1
    ensures var m := Attach(nodes, a[|a| - 1], x);
      a[j] in m && m[a[j]] == Node(a[j], j, LineChildren(a + [x], j))
  {
    var n := |a|;
    AttachedNodes(nodes, a[n - 1], x);
    assert nodes[a[j]] == Node(a[j], j, LineChildren(a, j));
    assert nodes[a[n - 1]] == Node(a[n - 1], n - 1, LineChildren(a, n - 1));
    assert a[j] != a[n - 1];
  }

}

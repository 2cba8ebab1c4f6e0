/** How `getNodeByPath` and `getBreadcrumbs` of the front-end tree undo each other:
    the names along a breadcrumb trail form the path that leads back to the node, and
    the trail of a node found by a path spells out that path. */
module TreePaths {
  import opened Wrappers
  import opened Seqs
  import opened Tree

  /** The display names of a node sequence: the segments of a URL path. */
  function Names(c: seq<TreeNode>): seq<string> {
    Map(c, (n: TreeNode) => n.name)
  }

  /** No two nodes under the same parent share a name. */
  predicate UniqueSiblingNames(nodes: seq<TreeNode>) {
    forall i, j :: 0 <= i < j < |nodes| && nodes[i].parentId == nodes[j].parentId ==> nodes[i].name != nodes[j].name
  }

  /** Every `parent_id` names a node of the list. */
  predicate NoDangling(nodes: seq<TreeNode>) {
    forall n :: n in nodes && n.parentId.Some? ==> FindById(nodes, n.parentId.value).Some?
  }

  /** `c` is a downward chain of nodes of the list starting below `parentId`:
      each element is a child of the one before it. */
  predicate DownChain(nodes: seq<TreeNode>, parentId: Option<string>, c: seq<TreeNode>) {
    c != [] && c[0].parentId == parentId &&
    (forall i :: 0 <= i < |c| ==> c[i] in nodes) &&
    (forall i :: 0 <= i < |c| - 1 ==> c[i + 1].parentId == Some(c[i].id))
  }

  lemma FindByIdUnique(nodes: seq<TreeNode>, n: TreeNode)
    requires UniqueIds(nodes) && n in nodes
    ensures FindById(nodes, n.id) == Some(n)
  {
    var r := FindById(nodes, n.id);
    var k :| 0 <= k < |nodes| && nodes[k] == n;
    var f := FirstIndex(nodes, (m: TreeNode) => m.id == n.id);
    assert f <= k;
    assert r == Some(nodes[f]);
  }

  /** Two different nodes of a list with unique ids have different ids. */
  lemma DifferentNodesDifferentIds(nodes: seq<TreeNode>, a: TreeNode, b: TreeNode)
    requires UniqueIds(nodes) && a in nodes && b in nodes && a != b
    ensures a.id != b.id
  {
    var i :| 0 <= i < |nodes| && nodes[i] == a;
    var j :| 0 <= j < |nodes| && nodes[j] == b;
    assert i != j;
  }

  lemma NamesAppend(a: seq<TreeNode>, b: seq<TreeNode>)
    ensures Names(a + b) == Names(a) + Names(b)
  {
  }

  lemma FindChildUnique(nodes: seq<TreeNode>, n: TreeNode)
    requires UniqueSiblingNames(nodes) && n in nodes
    ensures FindChild(nodes, n.parentId, n.name) == Some(n)
  {
    var k :| 0 <= k < |nodes| && nodes[k] == n;
    var f := FirstIndex(nodes, (m: TreeNode) => m.parentId == n.parentId && m.name == n.name);
    assert f <= k;
  }

  /** Following the names of a downward chain leads to its last node, provided
      siblings have distinct names (otherwise `find` may stop at an earlier sibling). */
  lemma {:induction false} ResolveDownChain(nodes: seq<TreeNode>, parentId: Option<string>, c: seq<TreeNode>)
    requires UniqueSiblingNames(nodes) && DownChain(nodes, parentId, c)
    ensures ResolveFrom(nodes, parentId, Names(c)) == Some(c[|c| - 1])
    decreases |c|
  {
    FindChildUnique(nodes, c[0]);
    if |c| > 1 {
      assert DownChain(nodes, Some(c[0].id), c[1..]);
      ResolveDownChain(nodes, Some(c[0].id), c[1..]);
      assert Names(c)[1..] == Names(c[1..]);
    }
  }

  /** A successful path lookup passes through a downward chain whose names are the path. */
  lemma {:induction false} ResolvedChain(nodes: seq<TreeNode>, parentId: Option<string>, path: seq<string>) returns (c: seq<TreeNode>)
    requires ResolveFrom(nodes, parentId, path).Some?
    ensures DownChain(nodes, parentId, c)
    ensures Names(c) == path
    ensures c[|c| - 1] == ResolveFrom(nodes, parentId, path).value
    decreases |path|
  {
    var n := FindChild(nodes, parentId, path[0]).value;
    if |path| == 1 {
      c := [n];
    } else {
      var t := ResolvedChain(nodes, Some(n.id), path[1..]);
      c := [n] + t;
      DownChainCons(nodes, n, t);
      assert Names(c) == [n.name] + Names(t);
    }
  }

  /** A node of the list in front of a chain that starts below it is again a chain. */
  lemma DownChainCons(nodes: seq<TreeNode>, n: TreeNode, t: seq<TreeNode>)
    requires n in nodes && DownChain(nodes, Some(n.id), t)
    ensures DownChain(nodes, n.parentId, [n] + t)
  {
    var c := [n] + t;
    forall i | 1 <= i < |c| ensures c[i] == t[i - 1] {
    }
  }

  /** With unique ids, the walk up from the last node of a downward chain that starts
      at the top level retraces the chain. */
  lemma {:induction false} AncestorChainRetraces(nodes: seq<TreeNode>, c: seq<TreeNode>, fuel: nat)
    requires UniqueIds(nodes) && DownChain(nodes, None, c)
    requires ReachesTop(nodes, c[|c| - 1], fuel)
    ensures AncestorChain(nodes, c[|c| - 1], fuel) == c
    decreases |c|
  {
    var n := c[|c| - 1];
    if |c| == 1 {
      assert ParentOf(nodes, n) == None;
    } else {
      var init := c[..|c| - 1];
      FindByIdUnique(nodes, c[|c| - 2]);
      assert ParentOf(nodes, n) == Some(c[|c| - 2]);
      assert DownChain(nodes, None, init);
      AncestorChainRetraces(nodes, init, fuel - 1);
      assert c == init + [n];
    }
  }

  /** Round trip, breadcrumbs to path: the names of the breadcrumb trail of a node lead
      back to it, when ids are unique, parents exist and siblings have distinct names. */
  lemma BreadcrumbPathFindsNode(nodes: seq<TreeNode>, n: TreeNode)
    requires UniqueIds(nodes) && WalkEnds(nodes, n.id) && NoDangling(nodes) && UniqueSiblingNames(nodes)
    requires n in nodes
    ensures ResolvePath(nodes, Names(Breadcrumbs(nodes, n.id))) == Some(n)
  {
    BreadcrumbsDownChain(nodes, n);
    ResolveDownChain(nodes, None, Breadcrumbs(nodes, n.id));
  }

  /** When every parent exists, the breadcrumb trail of a node is a downward chain
      from a top-level node to it. */
  lemma BreadcrumbsDownChain(nodes: seq<TreeNode>, n: TreeNode)
    requires UniqueIds(nodes) && WalkEnds(nodes, n.id) && NoDangling(nodes) && n in nodes
    ensures DownChain(nodes, None, Breadcrumbs(nodes, n.id))
    ensures Breadcrumbs(nodes, n.id)[|Breadcrumbs(nodes, n.id)| - 1] == n
  {
    FindByIdUnique(nodes, n);
    var b := Breadcrumbs(nodes, n.id);
    assert b[0] in nodes;
    forall i | 0 <= i < |b| - 1 ensures b[i + 1].parentId == Some(b[i].id) {
      assert ParentOf(nodes, b[i + 1]) == Some(b[i]);
    }
  }

  /** Round trip, path to breadcrumbs: the breadcrumb trail of the node a path finds
      spells out that path, when ids are unique. */
  lemma PathBreadcrumbsSpellPath(nodes: seq<TreeNode>, path: seq<string>)
    requires UniqueIds(nodes)
    requires ResolvePath(nodes, path).Some?
    ensures WalkEnds(nodes, ResolvePath(nodes, path).value.id)
    ensures Names(Breadcrumbs(nodes, ResolvePath(nodes, path).value.id)) == path
  {
    var n := ResolvePath(nodes, path).value;
    var c := ResolvedChain(nodes, None, path);
    FindByIdUnique(nodes, n);
    ResolvedWalkEnds(nodes, path);
    AncestorChainRetraces(nodes, c, |nodes|);
  }

  /** With unique ids, the walk up from a node that a path finds ends: it retraces the
      chain of the lookup, which holds no node twice and so has at most `|nodes|` nodes. */
  lemma ResolvedWalkEnds(nodes: seq<TreeNode>, path: seq<string>)
    requires UniqueIds(nodes)
    requires ResolvePath(nodes, path).Some?
    ensures WalkEnds(nodes, ResolvePath(nodes, path).value.id)
  {
    var n := ResolvePath(nodes, path).value;
    var c := ResolvedChain(nodes, None, path);
    forall i, j | 0 <= i < j < |c| ensures c[i] != c[j] {
      DownChainDistinct(nodes, c, i, j);
    }
    DistinctLength(c, nodes);
    DownChainReachesTop(nodes, c);
    ReachesTopMore(nodes, n, |c| - 1, |nodes|);
    FindByIdUnique(nodes, n);
  }

  /** With unique ids, no node occurs twice on a downward chain from the top level:
      equal nodes have equal parents, and so on back to a top-level node. */
  lemma {:induction false} DownChainDistinct(nodes: seq<TreeNode>, c: seq<TreeNode>, i: nat, j: nat)
    requires UniqueIds(nodes) && DownChain(nodes, None, c)
    requires i < j < |c|
    ensures c[i] != c[j]
    decreases i
  {
    if i == 0 {
      assert c[j].parentId.Some?;
    } else {
      DownChainDistinct(nodes, c, i - 1, j - 1);
      DifferentNodesDifferentIds(nodes, c[i - 1], c[j - 1]);
      assert c[i].parentId != c[j].parentId;
    }
  }

  /** With unique ids, the walk up from the last node of a downward chain from the top
      level stops within one step fewer than the chain's length. */
  lemma {:induction false} DownChainReachesTop(nodes: seq<TreeNode>, c: seq<TreeNode>)
    requires UniqueIds(nodes) && DownChain(nodes, None, c)
    ensures ReachesTop(nodes, c[|c| - 1], |c| - 1)
    decreases |c|
  {
    if |c| > 1 {
      var init := c[..|c| - 1];
      assert DownChain(nodes, None, init);
      DownChainReachesTop(nodes, init);
      FindByIdUnique(nodes, c[|c| - 2]);
      assert ParentOf(nodes, c[|c| - 1]) == Some(c[|c| - 2]);
    }
  }

  /** A walk that stops within `fuel` steps stops within any larger number of steps. */
  lemma {:induction false} ReachesTopMore(nodes: seq<TreeNode>, n: TreeNode, fuel: nat, more: nat)
    requires ReachesTop(nodes, n, fuel) && fuel <= more
    ensures ReachesTop(nodes, n, more)
    decreases fuel
  {
    match ParentOf(nodes, n)
    case None =>
    case Some(p) => ReachesTopMore(nodes, p, fuel - 1, more - 1);
  }

  /** Once a prefix of the path fails, so does the whole path: the loop in
      `getNodeByPath` returns `null` at the first segment with no matching child. */
  lemma {:induction false} FailedPrefixFails(nodes: seq<TreeNode>, parentId: Option<string>, path: seq<string>, k: nat)
    requires 1 <= k <= |path|
    requires ResolveFrom(nodes, parentId, path[..k]) == None
    ensures ResolveFrom(nodes, parentId, path) == None
    decreases k
  {
    assert path[..k][0] == path[0];
    match FindChild(nodes, parentId, path[0])
    case None =>
    case Some(n) =>
      assert k > 1;
      assert path[..k][1..] == path[1..][..k - 1];
      FailedPrefixFails(nodes, Some(n.id), path[1..], k - 1);
  }
}

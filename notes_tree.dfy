/** The notes navigation tree (`apps/web/components/notes/notes-tree.tsx`): the slug
    path of a node, computed by walking parent links inside a pool of the nodes of
    the three top levels, the active-item comparison, the link target and the set
    of expanded folders. Rendering is left out. */
module NotesTree {
  import opened Wrappers
  import opened Seqs
  import opened Text
  import opened Tree
  import opened TreePaths
  import opened ExpandedIds

  /* ---------------- the node pool ---------------- */

  /** `s.flatMap((c) => buildTree(c.id))`: the children of each node of `s` in turn. */
  function ChildrenOfEach(nodes: seq<TreeNode>, s: seq<TreeNode>): (r: seq<TreeNode>)
    ensures forall x :: x in r <==> x in nodes && exists c :: c in s && x.parentId == Some(c.id)
    decreases |s|
  {
    if s == [] then []
    else
      var rest := ChildrenOfEach(nodes, s[1..]);
      assert forall c :: c in s <==> c == s[0] || c in s[1..];
      BuildTree(nodes, Some(s[0].id)) + rest
  }

  /** The part of the pool contributed by one top-level node `r`: its children, then
      the children of each of them. */
  function Block(nodes: seq<TreeNode>, r: TreeNode): seq<TreeNode> {
    var kids := BuildTree(nodes, Some(r.id));
    kids + ChildrenOfEach(nodes, kids)
  }

  /** The blocks of the nodes of `rs`, one after the other (the outer `flatMap`). */
  function Blocks(nodes: seq<TreeNode>, rs: seq<TreeNode>): seq<TreeNode>
    decreases |rs|
  {
    if rs == [] then [] else Block(nodes, rs[0]) + Blocks(nodes, rs[1..])
  }

  /** `allNodes` of `getNodePath`: the top-level nodes, then the block of each of them. */
  function Pool(nodes: seq<TreeNode>): seq<TreeNode> {
    var roots := BuildTree(nodes, None);
    roots + Blocks(nodes, roots)
  }

  predicate IsRoot(nodes: seq<TreeNode>, r: TreeNode) {
    r in nodes && r.parentId == None
  }

  /** `x` hangs directly below a top-level node. */
  ghost predicate Level1(nodes: seq<TreeNode>, x: TreeNode) {
    exists r :: IsRoot(nodes, r) && x.parentId == Some(r.id)
  }

  /** `x` hangs directly below a node of `Level1`. */
  ghost predicate Level2(nodes: seq<TreeNode>, x: TreeNode) {
    exists c :: c in nodes && Level1(nodes, c) && x.parentId == Some(c.id)
  }

  lemma BlockMembers(nodes: seq<TreeNode>, r: TreeNode, x: TreeNode)
    ensures x in Block(nodes, r) <==>
      x in nodes && (x.parentId == Some(r.id) ||
      exists c :: c in nodes && c.parentId == Some(r.id) && x.parentId == Some(c.id))
  {
    var kids := BuildTree(nodes, Some(r.id));
    if exists c :: c in nodes && c.parentId == Some(r.id) && x.parentId == Some(c.id) {
      var c :| c in nodes && c.parentId == Some(r.id) && x.parentId == Some(c.id);
      assert c in kids;
    }
  }

  lemma {:induction false} BlocksMembers(nodes: seq<TreeNode>, rs: seq<TreeNode>, x: TreeNode)
    ensures x in Blocks(nodes, rs) <==> exists r :: r in rs && x in Block(nodes, r)
    decreases |rs|
  {
    if rs != [] {
      BlocksMembers(nodes, rs[1..], x);
      assert forall r :: r in rs <==> r == rs[0] || r in rs[1..];
    }
  }

  /** The pool holds only nodes of the three top levels. */
  lemma PoolOnlyTopLevels(nodes: seq<TreeNode>, x: TreeNode)
    requires x in Pool(nodes)
    ensures x in nodes && (x.parentId == None || Level1(nodes, x) || Level2(nodes, x))
  {
    var roots := BuildTree(nodes, None);
    if x !in roots {
      BlocksMembers(nodes, roots, x);
      var r :| r in roots && x in Block(nodes, r);
      BlockMembers(nodes, r, x);
      assert IsRoot(nodes, r);
    }
  }

  /** A node directly below a top-level node is in the pool. */
  lemma Level1InPool(nodes: seq<TreeNode>, x: TreeNode, r: TreeNode)
    requires x in nodes && IsRoot(nodes, r) && x.parentId == Some(r.id)
    ensures x in Pool(nodes)
  {
    var roots := BuildTree(nodes, None);
    assert r in roots;
    BlockMembers(nodes, r, x);
    BlocksMembers(nodes, roots, x);
  }

  /** A node two levels below a top-level node is in the pool. */
  lemma Level2InPool(nodes: seq<TreeNode>, x: TreeNode, c: TreeNode, r: TreeNode)
    requires x in nodes && c in nodes && IsRoot(nodes, r)
    requires c.parentId == Some(r.id) && x.parentId == Some(c.id)
    ensures x in Pool(nodes)
  {
    var roots := BuildTree(nodes, None);
    assert r in roots;
    BlockMembers(nodes, r, x);
    BlocksMembers(nodes, roots, x);
  }

  /** The pool holds exactly the nodes of the three top levels. */
  lemma PoolMembers(nodes: seq<TreeNode>, x: TreeNode)
    ensures x in Pool(nodes) <==> x in nodes && (x.parentId == None || Level1(nodes, x) || Level2(nodes, x))
  {
    if x in Pool(nodes) {
      PoolOnlyTopLevels(nodes, x);
    }
    if x in nodes && x.parentId == None {
      assert x in BuildTree(nodes, None);
    }
    if x in nodes && Level1(nodes, x) {
      var r :| IsRoot(nodes, r) && x.parentId == Some(r.id);
      Level1InPool(nodes, x, r);
    }
    if x in nodes && Level2(nodes, x) {
      var c :| c in nodes && Level1(nodes, c) && x.parentId == Some(c.id);
      var r :| IsRoot(nodes, r) && c.parentId == Some(r.id);
      Level2InPool(nodes, x, c, r);
    }
  }

  /* ---------------- parents come first in the pool ---------------- */

  /** Every node of `b` that has a parent id finds a node with that id among `pre`
      or among the nodes of `b` before it. */
  ghost predicate Supported(pre: seq<TreeNode>, b: seq<TreeNode>) {
    forall i :: 0 <= i < |b| && b[i].parentId.Some? ==>
      exists x :: x in pre + b[..i] && x.id == b[i].parentId.value
  }

  /** Every parent id in the pool is the id of a node placed earlier in it. */
  ghost predicate Closed(pool: seq<TreeNode>) {
    Supported([], pool)
  }

  lemma SupportedByPrefix(pre: seq<TreeNode>, b: seq<TreeNode>)
    requires forall y :: y in b && y.parentId.Some? ==> exists x :: x in pre && x.id == y.parentId.value
    ensures Supported(pre, b)
  {
    forall i | 0 <= i < |b| && b[i].parentId.Some?
      ensures exists x :: x in pre + b[..i] && x.id == b[i].parentId.value
    {
      assert b[i] in b;
      var x :| x in pre && x.id == b[i].parentId.value;
      assert x in pre + b[..i];
    }
  }

  lemma SupportedWiden(pre: seq<TreeNode>, pre': seq<TreeNode>, b: seq<TreeNode>)
    requires Supported(pre, b) && forall x :: x in pre ==> x in pre'
    ensures Supported(pre', b)
  {
    forall i | 0 <= i < |b| && b[i].parentId.Some?
      ensures exists x :: x in pre' + b[..i] && x.id == b[i].parentId.value
    {
      var x :| x in pre + b[..i] && x.id == b[i].parentId.value;
      assert x in pre' + b[..i];
    }
  }

  lemma SupportedAppend(pre: seq<TreeNode>, b: seq<TreeNode>, c: seq<TreeNode>)
    requires Supported(pre, b) && Supported(pre + b, c)
    ensures Supported(pre, b + c)
  {
    var bc := b + c;
    forall i | 0 <= i < |bc| && bc[i].parentId.Some?
      ensures exists x :: x in pre + bc[..i] && x.id == bc[i].parentId.value
    {
      if i < |b| {
        assert bc[..i] == b[..i];
        var x :| x in pre + b[..i] && x.id == b[i].parentId.value;
        assert x in pre + bc[..i];
      } else {
        var j := i - |b|;
        assert bc[i] == c[j];
        assert pre + bc[..i] == (pre + b) + c[..j];
        var x :| x in (pre + b) + c[..j] && x.id == c[j].parentId.value;
        assert x in pre + bc[..i];
      }
    }
  }

  lemma BlockSupported(nodes: seq<TreeNode>, roots: seq<TreeNode>, r: TreeNode)
    requires r in roots
    ensures Supported(roots, Block(nodes, r))
  {
    var kids := BuildTree(nodes, Some(r.id));
    SupportedByPrefix(roots, kids);
    SupportedByPrefix(roots + kids, ChildrenOfEach(nodes, kids));
    SupportedAppend(roots, kids, ChildrenOfEach(nodes, kids));
  }

  lemma {:induction false} BlocksSupported(nodes: seq<TreeNode>, roots: seq<TreeNode>, rs: seq<TreeNode>)
    requires forall r :: r in rs ==> r in roots
    ensures Supported(roots, Blocks(nodes, rs))
    decreases |rs|
  {
    if rs != [] {
      var first := Block(nodes, rs[0]);
      BlockSupported(nodes, roots, rs[0]);
      BlocksSupported(nodes, roots, rs[1..]);
      SupportedWiden(roots, roots + first, Blocks(nodes, rs[1..]));
      SupportedAppend(roots, first, Blocks(nodes, rs[1..]));
    }
  }

  lemma PoolClosed(nodes: seq<TreeNode>)
    ensures Closed(Pool(nodes))
  {
    var roots := BuildTree(nodes, None);
    SupportedByPrefix([], roots);
    BlocksSupported(nodes, roots, roots);
    assert [] + roots == roots;
    SupportedAppend([], roots, Blocks(nodes, roots));
  }

  /* ---------------- the walk up (getNodePath) ---------------- */

  /** One step of the `while (current.parent_id)` loop: the first pool node whose id is
      `n`'s parent id; `None` when that id is absent or empty, or no pool node has it. */
  function PoolParent(pool: seq<TreeNode>, n: TreeNode): (r: Option<TreeNode>)
    ensures r.Some? ==> Truthy(n.parentId) && r.value in pool && r.value.id == n.parentId.value
    ensures r.None? <==> !Truthy(n.parentId) || forall m :: m in pool ==> m.id != n.parentId.value
  {
    if Truthy(n.parentId) then FindById(pool, n.parentId.value) else None
  }

  /** Position of the first occurrence of `n` in the pool, `|pool|` if it is absent. */
  function Rank(pool: seq<TreeNode>, n: TreeNode): nat {
    FirstIndex(pool, (m: TreeNode) => m == n)
  }

  /** In a closed pool each step of the walk moves to an earlier position, so the
      loop ends. */
  lemma ParentRanksLower(pool: seq<TreeNode>, n: TreeNode)
    requires Closed(pool) && PoolParent(pool, n).Some?
    ensures Rank(pool, PoolParent(pool, n).value) < Rank(pool, n)
  {
    var v := n.parentId.value;
    var f := FirstIndex(pool, (m: TreeNode) => m.id == v);
    assert PoolParent(pool, n).value == pool[f];
    var r := Rank(pool, n);
    if r < |pool| {
      assert pool[r] == n;
      var x :| x in [] + pool[..r] && x.id == v;
      var j :| 0 <= j < r && pool[j] == x;
      assert f <= j;
    }
  }

  /** The pool nodes the walk up from `n` meets, outermost first (`n` itself excluded). */
  function WalkUp(pool: seq<TreeNode>, n: TreeNode): seq<TreeNode>
    requires Closed(pool)
    decreases Rank(pool, n)
  {
    match PoolParent(pool, n)
    case None => []
    case Some(p) =>
      ParentRanksLower(pool, n);
      WalkUp(pool, p) + [p]
  }

  /** The walk links each node it meets to the one before it, and stops where the
      parent id is absent or empty or names no pool node. */
  lemma {:induction false} WalkUpLinks(pool: seq<TreeNode>, n: TreeNode)
    requires Closed(pool)
    ensures var r := WalkUp(pool, n);
      (r == [] <==> PoolParent(pool, n).None?) &&
      (r != [] ==> PoolParent(pool, r[0]).None? && PoolParent(pool, n) == Some(r[|r| - 1])) &&
      (forall i :: 0 <= i < |r| - 1 ==> PoolParent(pool, r[i + 1]) == Some(r[i])) &&
      (forall i :: 0 <= i < |r| ==> r[i] in pool)
    decreases Rank(pool, n)
  {
    match PoolParent(pool, n)
    case None =>
    case Some(p) =>
      ParentRanksLower(pool, n);
      WalkUpLinks(pool, p);
      var t := WalkUp(pool, p);
      assert WalkUp(pool, n) == t + [p];
      if t != [] {
        assert PoolParent(pool, p) == Some(t[|t| - 1]);
      }
  }

  /** The ancestors of `n` that the walk over the pool of `nodes` meets. */
  function PoolAncestors(nodes: seq<TreeNode>, n: TreeNode): seq<TreeNode> {
    PoolClosed(nodes);
    WalkUp(Pool(nodes), n)
  }

  /** One step of the walk, as the loop of `getNodePath` takes it. */
  lemma PoolAncestorsStep(nodes: seq<TreeNode>, n: TreeNode)
    ensures PoolParent(Pool(nodes), n).None? ==> PoolAncestors(nodes, n) == []
    ensures PoolParent(Pool(nodes), n).Some? ==>
      var p := PoolParent(Pool(nodes), n).value;
      PoolAncestors(nodes, n) == PoolAncestors(nodes, p) + [p] &&
      Rank(Pool(nodes), p) < Rank(Pool(nodes), n)
  {
    PoolClosed(nodes);
    if PoolParent(Pool(nodes), n).Some? {
      ParentRanksLower(Pool(nodes), n);
    }
  }

  /** The slug path `getNodePath` returns for `n`. */
  function NodePath(nodes: seq<TreeNode>, n: TreeNode): (r: seq<string>)
    ensures |r| >= 1 && r[|r| - 1] == n.name
  {
    Names(PoolAncestors(nodes, n) + [n])
  }

  /** The loop of `getNodePath` keeps the nodes still to be walked, followed by the
      nodes whose names are already in `path`, equal to the whole chain. */
  ghost predicate PathState(nodes: seq<TreeNode>, node: TreeNode, current: TreeNode, chain: seq<TreeNode>) {
    PoolAncestors(nodes, node) + [node] == PoolAncestors(nodes, current) + chain
  }

  /** Prepending the parent found in the pool keeps the loop state. */
  lemma PathStateStep(nodes: seq<TreeNode>, node: TreeNode, current: TreeNode, chain: seq<TreeNode>)
    requires PathState(nodes, node, current, chain)
    requires Truthy(current.parentId) && FindById(Pool(nodes), current.parentId.value).Some?
    ensures var p := FindById(Pool(nodes), current.parentId.value).value;
      PathState(nodes, node, p, [p] + chain)
    ensures var p := FindById(Pool(nodes), current.parentId.value).value;
      Rank(Pool(nodes), p) < Rank(Pool(nodes), current)
  {
    var p := FindById(Pool(nodes), current.parentId.value).value;
    assert PoolParent(Pool(nodes), current) == Some(p);
    PoolAncestorsStep(nodes, current);
    AppendAssoc(PoolAncestors(nodes, p), [p], chain);
  }

  /** Where the loop stops, no ancestor is left to walk. */
  lemma PathStateDone(nodes: seq<TreeNode>, node: TreeNode, current: TreeNode, chain: seq<TreeNode>)
    requires PathState(nodes, node, current, chain)
    requires !Truthy(current.parentId) || FindById(Pool(nodes), current.parentId.value).None?
    ensures chain == PoolAncestors(nodes, node) + [node]
  {
    PoolAncestorsStep(nodes, current);
  }

  lemma NamesCons(n: TreeNode, chain: seq<TreeNode>)
    ensures Names([n] + chain) == [n.name] + Names(chain)
  {
    NamesAppend([n], chain);
    assert Names([n]) == [n.name];
  }

  /** `getNodePath(node)`: starts from `[node.name]` and prepends the name of each
      parent found in the pool, stopping at an absent or empty parent id or at a
      parent outside the pool. */
  method GetNodePath(nodes: seq<TreeNode>, node: TreeNode) returns (path: seq<string>)
    ensures path == NodePath(nodes, node)
  {
    path := [node.name];
    var current := node;
    var allNodes := Pool(nodes);
    ghost var chain := [node];
    assert Names(chain) == path;
    while Truthy(current.parentId)
      invariant PathState(nodes, node, current, chain)
      invariant path == Names(chain)
      decreases Rank(allNodes, current)
    {
      var parent := FindById(allNodes, current.parentId.value);
      if parent.None? {
        break;
      }
      PathStateStep(nodes, node, current, chain);
      NamesCons(parent.value, chain);
      path := [parent.value.name] + path;
      chain := [parent.value] + chain;
      current := parent.value;
    }
    PathStateDone(nodes, node, current, chain);
  }

  /* ---------------- the path against the tree ---------------- */

  /** No node has the empty id, which the walk would read as "no parent". */
  predicate NoEmptyIds(nodes: seq<TreeNode>) {
    forall n :: n in nodes ==> n.id != ""
  }

  /** The first three nodes of a downward chain from the top level are in the pool. */
  lemma ChainInPool(nodes: seq<TreeNode>, c: seq<TreeNode>, i: nat)
    requires DownChain(nodes, None, c) && i < |c| && i <= 2
    ensures c[i] in Pool(nodes)
  {
    PoolMembers(nodes, c[i]);
    assert IsRoot(nodes, c[0]);
    if i >= 1 {
      assert Level1(nodes, c[1]);
    }
    if i == 2 {
      assert Level2(nodes, c[2]);
    }
  }

  /** With unique ids, the nodes of a downward chain from the top level sit at their
      own level only: from the second on none is top-level, from the third on none is
      on `Level1`. */
  lemma {:induction false} ChainLevels(nodes: seq<TreeNode>, c: seq<TreeNode>, i: nat)
    requires UniqueIds(nodes) && DownChain(nodes, None, c) && i < |c|
    ensures i >= 1 ==> c[i].parentId != None
    ensures i >= 2 ==> !Level1(nodes, c[i])
    ensures i >= 3 ==> !Level2(nodes, c[i])
    decreases i
  {
    if i >= 2 {
      assert c[i - 1].parentId == Some(c[i - 2].id);
      forall r | IsRoot(nodes, r) ensures c[i].parentId != Some(r.id) {
        DifferentNodesDifferentIds(nodes, r, c[i - 1]);
      }
    }
    if i >= 3 {
      ChainLevels(nodes, c, i - 1);
      forall m | m in nodes && Level1(nodes, m) ensures c[i].parentId != Some(m.id) {
        DifferentNodesDifferentIds(nodes, m, c[i - 1]);
      }
    }
  }

  /** From the fourth level down, chain nodes are outside the pool. */
  lemma ChainNotInPool(nodes: seq<TreeNode>, c: seq<TreeNode>, i: nat)
    requires UniqueIds(nodes) && DownChain(nodes, None, c) && 3 <= i < |c|
    ensures c[i] !in Pool(nodes)
  {
    PoolMembers(nodes, c[i]);
    ChainLevels(nodes, c, i);
  }

  /** The step of the walk from a chain node is the chain node above it, while that
      one is in the pool. */
  lemma ChainParent(nodes: seq<TreeNode>, c: seq<TreeNode>, i: nat)
    requires UniqueIds(nodes) && NoEmptyIds(nodes) && DownChain(nodes, None, c) && 1 <= i < |c|
    ensures PoolParent(Pool(nodes), c[i]) == if c[i - 1] in Pool(nodes) then Some(c[i - 1]) else None
  {
    var pool := Pool(nodes);
    forall m | m in pool && m.id == c[i - 1].id ensures m == c[i - 1] {
      PoolMembers(nodes, m);
      FindByIdUnique(nodes, m);
      FindByIdUnique(nodes, c[i - 1]);
    }
  }

  /** Within the three top levels the walk retraces the chain. */
  lemma {:induction false} WalkUpChain(nodes: seq<TreeNode>, c: seq<TreeNode>, i: nat)
    requires UniqueIds(nodes) && NoEmptyIds(nodes) && DownChain(nodes, None, c)
    requires i < |c| && i <= 3
    ensures PoolAncestors(nodes, c[i]) == c[..i]
    decreases i
  {
    PoolAncestorsStep(nodes, c[i]);
    if i > 0 {
      ChainInPool(nodes, c, i - 1);
      ChainParent(nodes, c, i);
      WalkUpChain(nodes, c, i - 1);
      TakeSnoc(c, i);
    }
  }

  /** Path of a node at depth at most three: the names of its whole breadcrumb trail. */
  lemma ShallowNodePath(nodes: seq<TreeNode>, n: TreeNode)
    requires UniqueIds(nodes) && WalkEnds(nodes, n.id) && NoDangling(nodes) && NoEmptyIds(nodes)
    requires n in nodes && |Breadcrumbs(nodes, n.id)| <= 4
    ensures NodePath(nodes, n) == Names(Breadcrumbs(nodes, n.id))
  {
    var b := Breadcrumbs(nodes, n.id);
    BreadcrumbsDownChain(nodes, n);
    WalkUpChain(nodes, b, |b| - 1);
    assert b == b[..|b| - 1] + [n];
  }

  /** Path of a deeper node: its parent lies outside the pool, so the path is its own
      name alone. */
  lemma DeepNodePath(nodes: seq<TreeNode>, n: TreeNode)
    requires UniqueIds(nodes) && WalkEnds(nodes, n.id) && NoDangling(nodes) && NoEmptyIds(nodes)
    requires n in nodes && |Breadcrumbs(nodes, n.id)| > 4
    ensures NodePath(nodes, n) == [n.name]
  {
    DeepParentNotPooled(nodes, n);
    TopOfPoolPath(nodes, n);
  }

  /** A node whose parent the pool does not hold has its own name as its path. */
  lemma TopOfPoolPath(nodes: seq<TreeNode>, n: TreeNode)
    requires PoolParent(Pool(nodes), n).None?
    ensures NodePath(nodes, n) == [n.name]
  {
    PoolAncestorsStep(nodes, n);
    assert |NodePath(nodes, n)| == |PoolAncestors(nodes, n) + [n]| == 1;
  }

  /** The parent of a node deeper than three levels is not in the pool. */
  lemma DeepParentNotPooled(nodes: seq<TreeNode>, n: TreeNode)
    requires UniqueIds(nodes) && WalkEnds(nodes, n.id) && NoDangling(nodes) && NoEmptyIds(nodes)
    requires n in nodes && |Breadcrumbs(nodes, n.id)| > 4
    ensures PoolParent(Pool(nodes), n).None?
  {
    var b := Breadcrumbs(nodes, n.id);
    BreadcrumbsDownChain(nodes, n);
    ChainNotInPool(nodes, b, |b| - 2);
    ChainParent(nodes, b, |b| - 1);
  }

  /** Round trip: for a node at depth at most three, `getNodeByPath(getNodePath(n))`
      finds `n` again, when siblings have distinct names. */
  lemma NodePathRoundTrip(nodes: seq<TreeNode>, n: TreeNode)
    requires UniqueIds(nodes) && WalkEnds(nodes, n.id) && NoDangling(nodes) && NoEmptyIds(nodes)
    requires UniqueSiblingNames(nodes)
    requires n in nodes && |Breadcrumbs(nodes, n.id)| <= 4
    ensures ResolvePath(nodes, NodePath(nodes, n)) == Some(n)
  {
    ShallowNodePath(nodes, n);
    BreadcrumbPathFindsNode(nodes, n);
  }

  /* ---------------- active item and link ---------------- */

  /** `currentPath?.join("/") === nodePath.join("/")`: an absent current path is
      never active. */
  predicate IsActive(currentPath: Option<seq<string>>, nodePath: seq<string>) {
    currentPath.Some? && Join(currentPath.value, "/") == Join(nodePath, "/")
  }

  /** The comparison of joined strings is a comparison of the paths themselves, as long
      as both are non-empty and no segment contains `/`. */
  lemma IsActiveIffSamePath(currentPath: seq<string>, nodePath: seq<string>)
    requires |currentPath| >= 1 && |nodePath| >= 1
    requires forall i :: 0 <= i < |currentPath| ==> '/' !in currentPath[i]
    requires forall i :: 0 <= i < |nodePath| ==> '/' !in nodePath[i]
    ensures IsActive(Some(currentPath), nodePath) <==> currentPath == nodePath
  {
    if IsActive(Some(currentPath), nodePath) {
      JoinInjective(currentPath, nodePath, '/');
    }
  }

  /** The empty current path and the path of a node named `""` join to the same
      string, so the comparison cannot tell them apart. */
  lemma EmptyPathMatchesEmptyName()
    ensures IsActive(Some([]), [""])
  {
  }

  /** The `href` of a post link. */
  function Href(nodePath: seq<string>): (r: string)
    ensures StartsWith(r, "/notes/")
    ensures r[7..] == Join(nodePath, "/")
  {
    "/notes/" + Join(nodePath, "/")
  }

  /** The router splits the part of a link after `/notes/` at each `/`: for a
      non-empty path whose segments hold no `/`, that gives back the path. */
  lemma HrefSplits(nodePath: seq<string>)
    requires |nodePath| >= 1 && forall i :: 0 <= i < |nodePath| ==> '/' !in nodePath[i]
    ensures SplitOn(Href(nodePath)[7..], "/") == nodePath
  {
    var parts := SplitOn(Href(nodePath)[7..], "/");
    forall k | 0 <= k < |parts| ensures '/' !in parts[k] {
      NotInfixNotMember('/', parts[k]);
    }
    JoinInjective(parts, nodePath, '/');
  }

  /** Round trip through the link: the page `/notes/[[...path]]` looks up the segments
      of the link of a node at depth at most three and finds that node, when no name
      holds a `/` and the conditions of `NodePathRoundTrip` hold. */
  lemma HrefFindsNode(nodes: seq<TreeNode>, n: TreeNode)
    requires UniqueIds(nodes) && WalkEnds(nodes, n.id) && NoDangling(nodes) && NoEmptyIds(nodes)
    requires UniqueSiblingNames(nodes) && forall m :: m in nodes ==> '/' !in m.name
    requires n in nodes && |Breadcrumbs(nodes, n.id)| <= 4
    ensures ResolvePath(nodes, SplitOn(Href(NodePath(nodes, n))[7..], "/")) == Some(n)
  {
    var p := NodePath(nodes, n);
    var b := Breadcrumbs(nodes, n.id);
    ShallowNodePath(nodes, n);
    forall i | 0 <= i < |p| ensures '/' !in p[i] {
      assert p[i] == b[i].name && b[i] in nodes;
    }
    HrefSplits(p);
    NodePathRoundTrip(nodes, n);
  }

  /* ---------------- expanded folders ---------------- */

  class NotesTreeState {
    var expandedIds: set<string>

    /** The three top-level folders start expanded. */
    constructor ()
      ensures expandedIds == InitiallyExpanded
    {
      expandedIds := InitiallyExpanded;
    }

    /** `toggleExpanded(id)`: copies the set, then deletes or adds `id`. */
    method ToggleExpanded(id: string)
      modifies this
      ensures expandedIds == Toggled(old(expandedIds), id)
    {
      var next := expandedIds;
      if id in next {
        next := next - {id};
      } else {
        next := next + {id};
      }
      expandedIds := next;
    }
  }
}

/** The flat, parent-pointer tree of folders and posts shown by the web front end
    (`TreeNode` and the helpers next to it). The node list that the original keeps
    in a module constant is a parameter here. */
module Tree {
  import opened Wrappers
  import opened Seqs
  import opened Text

  datatype NodeType = Folder | Post

  /** One entry of the flat list; the optional fields are the post-only ones. */
  datatype TreeNode = TreeNode(
    id: string,
    kind: NodeType,
    name: string,
    parentId: Option<string>,
    sortOrder: int,
    title: Option<string>,
    excerpt: Option<string>,
    contentMd: Option<string>,
    tags: Option<seq<string>>,
    category: Option<string>,
    date: Option<string>,
    slug: Option<string>)

  /* ---------------- child listing (buildTree) ---------------- */

  /** The nodes whose parent is `parentId`, in list order. */
  function Children(nodes: seq<TreeNode>, parentId: Option<string>): (r: seq<TreeNode>)
    ensures forall n :: n in r <==> n in nodes && n.parentId == parentId
    ensures forall n :: multiset(r)[n] == if n.parentId == parentId then multiset(nodes)[n] else 0
    ensures IsSubsequence(r, nodes)
  {
    Filter(nodes, (n: TreeNode) => n.parentId == parentId)
  }

  predicate SortedByOrder(s: seq<TreeNode>) {
    forall i, j :: 0 <= i < j < |s| ==> s[i].sortOrder <= s[j].sortOrder
  }

  /** The nodes of `s` whose `sort_order` is `k`, in their order in `s`. */
  function WithOrder(s: seq<TreeNode>, k: int): seq<TreeNode> {
    if s == [] then []
    else (if s[0].sortOrder == k then [s[0]] else []) + WithOrder(s[1..], k)
  }

  lemma WithOrderCons(a: TreeNode, t: seq<TreeNode>, k: int)
    ensures WithOrder([a] + t, k) == (if a.sortOrder == k then [a] else []) + WithOrder(t, k)
  {
    assert ([a] + t)[0] == a && ([a] + t)[1..] == t;
  }

  /** Insert `x` before the first element whose `sort_order` is not below it. */
  function InsertByOrder(x: TreeNode, s: seq<TreeNode>): (r: seq<TreeNode>)
    requires SortedByOrder(s)
    ensures multiset(r) == multiset(s) + multiset{x}
    ensures SortedByOrder(r)
  {
    if s == [] then [x]
    else if x.sortOrder <= s[0].sortOrder then [x] + s
    else
      var t := InsertByOrder(x, s[1..]);
      InsertPastHead(x, s, t);
      [s[0]] + t
  }

  /** One step of `InsertByOrder`: keeping a head that sorts before `x`. */
  lemma InsertPastHead(x: TreeNode, s: seq<TreeNode>, t: seq<TreeNode>)
    requires s != [] && SortedByOrder(s) && x.sortOrder > s[0].sortOrder
    requires multiset(t) == multiset(s[1..]) + multiset{x} && SortedByOrder(t)
    ensures multiset([s[0]] + t) == multiset(s) + multiset{x}
    ensures SortedByOrder([s[0]] + t)
  {
    assert s == [s[0]] + s[1..];
    forall j | 0 <= j < |t| ensures s[0].sortOrder <= t[j].sortOrder {
      assert t[j] in multiset(t);
      assert t[j] == x || t[j] in s[1..];
    }
    var r := [s[0]] + t;
    forall i, j | 0 <= i < j < |r| ensures r[i].sortOrder <= r[j].sortOrder {
      if i > 0 {
        assert r[i] == t[i - 1] && r[j] == t[j - 1];
      } else {
        assert r[j] == t[j - 1];
      }
    }
  }

  /** One step of `InsertByOrderRuns`: passing over a head that sorts before `x`. */
  lemma RunsPastHead(x: TreeNode, s: seq<TreeNode>, k: int, t: seq<TreeNode>)
    requires s != [] && x.sortOrder > s[0].sortOrder
    requires WithOrder(t, k) == (if x.sortOrder == k then [x] else []) + WithOrder(s[1..], k)
    ensures WithOrder([s[0]] + t, k) == (if x.sortOrder == k then [x] else []) + WithOrder(s, k)
  {
    WithOrderCons(s[0], t, k);
    WithOrderCons(s[0], s[1..], k);
    assert s == [s[0]] + s[1..];
  }

  /** Inserting `x` adds `x` to its own run, in front of the nodes already there,
      and leaves every other run as it was. */
  lemma {:induction false} InsertByOrderRuns(x: TreeNode, s: seq<TreeNode>, k: int)
    requires SortedByOrder(s)
    ensures WithOrder(InsertByOrder(x, s), k) == (if x.sortOrder == k then [x] else []) + WithOrder(s, k)
  {
    if s == [] {
      assert InsertByOrder(x, s) == [x] + [];
      WithOrderCons(x, [], k);
    } else if x.sortOrder <= s[0].sortOrder {
      assert InsertByOrder(x, s) == [x] + s;
      WithOrderCons(x, s, k);
    } else {
      assert SortedByOrder(s[1..]);
      var t := InsertByOrder(x, s[1..]);
      assert InsertByOrder(x, s) == [s[0]] + t;
      InsertByOrderRuns(x, s[1..], k);
      RunsPastHead(x, s, k, t);
    }
  }

  /** The stable sort of `Array.prototype.sort((a, b) => a.sort_order - b.sort_order)`,
      as an insertion sort. */
  function SortByOrder(s: seq<TreeNode>): (r: seq<TreeNode>)
    ensures multiset(r) == multiset(s)
    ensures SortedByOrder(r)
  {
    if s == [] then []
    else
      assert s == [s[0]] + s[1..];
      InsertByOrder(s[0], SortByOrder(s[1..]))
  }

  /** The sort is stable: the nodes sharing a `sort_order` keep their relative order. */
  lemma {:induction false} SortByOrderStable(s: seq<TreeNode>, k: int)
    ensures WithOrder(SortByOrder(s), k) == WithOrder(s, k)
  {
    if s != [] {
      SortByOrderStable(s[1..], k);
      InsertByOrderRuns(s[0], SortByOrder(s[1..]), k);
      WithOrderCons(s[0], s[1..], k);
      assert s == [s[0]] + s[1..];
    }
  }

  /** `buildTree(parentId)`: the children of `parentId`, ordered by `sort_order`;
      children with equal `sort_order` keep their list order. */
  function BuildTree(nodes: seq<TreeNode>, parentId: Option<string>): (r: seq<TreeNode>)
    ensures forall n :: multiset(r)[n] == if n.parentId == parentId then multiset(nodes)[n] else 0
    ensures forall n :: n in r <==> n in nodes && n.parentId == parentId
    ensures SortedByOrder(r)
    ensures forall k :: WithOrder(r, k) == WithOrder(Children(nodes, parentId), k)
  {
    var c := Children(nodes, parentId);
    var r := SortByOrder(c);
    assert forall n :: n in r <==> n in multiset(r);
    forall k ensures WithOrder(r, k) == WithOrder(c, k) {
      SortByOrderStable(c, k);
    }
    r
  }

  /* ---------------- slug-path descent (getNodeByPath) ---------------- */

  /** `mockTreeData.find(n => n.parent_id === parentId && n.name === name)`. */
  function FindChild(nodes: seq<TreeNode>, parentId: Option<string>, name: string): Option<TreeNode> {
    Find(nodes, (n: TreeNode) => n.parentId == parentId && n.name == name)
  }

  /** The node reached from the children of `parentId` by following the names of
      `path` one level at a time; `None` for the empty path and as soon as a
      segment names no child. */
  function ResolveFrom(nodes: seq<TreeNode>, parentId: Option<string>, path: seq<string>): (r: Option<TreeNode>)
    ensures r.Some? ==> path != [] && r.value in nodes && r.value.name == path[|path| - 1]
    decreases |path|
  {
    if path == [] then None
    else match FindChild(nodes, parentId, path[0])
      case None => None
      case Some(n) => if |path| == 1 then Some(n) else ResolveFrom(nodes, Some(n.id), path[1..])
  }

  /** The node a slug path denotes, starting at the root level. */
  function ResolvePath(nodes: seq<TreeNode>, path: seq<string>): Option<TreeNode> {
    ResolveFrom(nodes, None, path)
  }

  /** `getNodeByPath(path)`. */
  method GetNodeByPath(nodes: seq<TreeNode>, path: seq<string>) returns (r: Option<TreeNode>)
    ensures r == ResolvePath(nodes, path)
    ensures path == [] ==> r == None
    ensures r.Some? ==> r.value in nodes && r.value.name == path[|path| - 1]
  {
    var currentParentId: Option<string> := None;
    var targetNode: Option<TreeNode> := None;
    for i := 0 to |path|
      invariant i == 0 ==> targetNode == None && currentParentId == None
      invariant i == |path| ==> ResolvePath(nodes, path) == targetNode
      invariant i < |path| ==> ResolvePath(nodes, path) == ResolveFrom(nodes, currentParentId, path[i..])
    {
      var node := FindChild(nodes, currentParentId, path[i]);
      if node.None? {
        return None;
      }
      assert path[i..][1..] == path[i + 1..];
      targetNode := node;
      currentParentId := Some(node.value.id);
    }
    return targetNode;
  }

  /* ---------------- ancestor walk (getBreadcrumbs) ---------------- */

  /** `mockTreeData.find(n => n.id === id)`. */
  function FindById(nodes: seq<TreeNode>, id: string): Option<TreeNode> {
    Find(nodes, (n: TreeNode) => n.id == id)
  }

  /** The node the walk up from `n` moves to: the first node whose id is `n`'s
      `parent_id`; `None` for a root-level node or a dangling parent. */
  function ParentOf(nodes: seq<TreeNode>, n: TreeNode): (r: Option<TreeNode>)
    ensures r.Some? ==> r.value in nodes && n.parentId == Some(r.value.id)
  {
    if n.parentId.None? then None else FindById(nodes, n.parentId.value)
  }

  /** The walk up from `n` stops within `fuel` steps. */
  predicate ReachesTop(nodes: seq<TreeNode>, n: TreeNode, fuel: nat)
    decreases fuel
  {
    match ParentOf(nodes, n)
    case None => true
    case Some(p) => fuel > 0 && ReachesTop(nodes, p, fuel - 1)
  }

  /** The parent links form no cycle: every walk up stops within `|nodes|` steps. */
  predicate Acyclic(nodes: seq<TreeNode>) {
    forall n :: n in nodes ==> ReachesTop(nodes, n, |nodes|)
  }

  predicate UniqueIds(nodes: seq<TreeNode>) {
    forall i, j :: 0 <= i < j < |nodes| ==> nodes[i].id != nodes[j].id
  }

  /** The nodes met on the walk up from `n`, outermost first, ending with `n`. */
  function AncestorChain(nodes: seq<TreeNode>, n: TreeNode, fuel: nat): (r: seq<TreeNode>)
    requires ReachesTop(nodes, n, fuel)
    ensures |r| >= 1 && r[|r| - 1] == n
    ensures ParentOf(nodes, r[0]) == None
    ensures forall i :: 0 <= i < |r| - 1 ==> ParentOf(nodes, r[i + 1]) == Some(r[i])
    ensures forall i :: 0 <= i < |r| - 1 ==> r[i] in nodes
    decreases fuel
  {
    match ParentOf(nodes, n)
    case None => [n]
    case Some(p) => AncestorChain(nodes, p, fuel - 1) + [n]
  }

  /** The walk up from the node with id `nodeId`, if there is one, stops within
      `|nodes|` steps: it enters no cycle of parent links. */
  predicate WalkEnds(nodes: seq<TreeNode>, nodeId: string) {
    FindById(nodes, nodeId).Some? ==> ReachesTop(nodes, FindById(nodes, nodeId).value, |nodes|)
  }

  /** The breadcrumb trail of the node with id `nodeId`: empty for an unknown id,
      otherwise its ancestors from the top down, ending with the node itself. */
  function Breadcrumbs(nodes: seq<TreeNode>, nodeId: string): (r: seq<TreeNode>)
    requires WalkEnds(nodes, nodeId)
    ensures r == [] <==> FindById(nodes, nodeId).None?
    ensures r != [] ==> Some(r[|r| - 1]) == FindById(nodes, nodeId) && r[|r| - 1].id == nodeId
    ensures r != [] ==> ParentOf(nodes, r[0]) == None
    ensures forall i :: 0 <= i < |r| - 1 ==> ParentOf(nodes, r[i + 1]) == Some(r[i])
    ensures forall n :: n in r ==> n in nodes
  {
    match FindById(nodes, nodeId)
    case None => []
    case Some(n) =>
      var r := AncestorChain(nodes, n, |nodes|);
      assert forall k :: 0 <= k < |r| ==> r[k] in nodes by {
        forall k | 0 <= k < |r| ensures r[k] in nodes {
          if k == |r| - 1 { assert r[k] == n; }
        }
      }
      r
  }

  /** One step of the walk: the chain from `n` is the chain from its parent, then `n`. */
  lemma AncestorChainStep(nodes: seq<TreeNode>, n: TreeNode, fuel: nat)
    requires ReachesTop(nodes, n, fuel)
    ensures ParentOf(nodes, n).None? ==> AncestorChain(nodes, n, fuel) == [n]
    ensures ParentOf(nodes, n).Some? ==>
      fuel > 0 && ReachesTop(nodes, ParentOf(nodes, n).value, fuel - 1) &&
      AncestorChain(nodes, n, fuel) == AncestorChain(nodes, ParentOf(nodes, n).value, fuel - 1) + [n]
  {
  }

  /** `getBreadcrumbs(nodeId)`: the `while (currentNode)` loop that prepends each node
      and moves to its parent. */
  method GetBreadcrumbs(nodes: seq<TreeNode>, nodeId: string) returns (breadcrumbs: seq<TreeNode>)
    requires WalkEnds(nodes, nodeId)
    ensures breadcrumbs == Breadcrumbs(nodes, nodeId)
  {
    ghost var goal := Breadcrumbs(nodes, nodeId);
    breadcrumbs := [];
    var currentNode := FindById(nodes, nodeId);
    ghost var fuel: nat := |nodes|;
    while currentNode.Some?
      invariant currentNode.Some? ==> ReachesTop(nodes, currentNode.value, fuel)
      invariant currentNode.Some? ==> goal == AncestorChain(nodes, currentNode.value, fuel) + breadcrumbs
      invariant currentNode.None? ==> goal == breadcrumbs
      decreases if currentNode.Some? then fuel + 1 else 0
    {
      AncestorChainStep(nodes, currentNode.value, fuel);
      var parent := ParentOf(nodes, currentNode.value);
      if parent.Some? {
        AppendAssoc(AncestorChain(nodes, parent.value, fuel - 1), [currentNode.value], breadcrumbs);
      }
      breadcrumbs := [currentNode.value] + breadcrumbs;
      if parent.Some? {
        fuel := fuel - 1;
      }
      currentNode := parent;
    }
  }

  /* ---------------- posts and tags ---------------- */

  /** A post whose first tag is `"overview"` is a folder's preface, not an article. */
  predicate IsOverview(n: TreeNode) {
    n.tags.Some? && |n.tags.value| > 0 && n.tags.value[0] == "overview"
  }

  predicate IsListedPost(n: TreeNode) {
    n.kind == Post && !IsOverview(n)
  }

  /** `getAllPosts()`. */
  function AllPosts(nodes: seq<TreeNode>): (r: seq<TreeNode>)
    ensures IsSubsequence(r, nodes)
    ensures forall n :: n in r <==> n in nodes && n.kind == Post && !IsOverview(n)
  {
    Filter(nodes, IsListedPost)
  }

  /** `getPostsByCategory(category)`. */
  function PostsByCategory(nodes: seq<TreeNode>, category: string): (r: seq<TreeNode>)
    ensures IsSubsequence(r, AllPosts(nodes))
    ensures forall n :: n in r <==> n in AllPosts(nodes) && n.category == Some(category)
  {
    Filter(AllPosts(nodes), (n: TreeNode) => n.category == Some(category))
  }

  predicate HasTag(n: TreeNode, tag: string) {
    n.tags.Some? && tag in n.tags.value
  }

  /** `getPostsByTag(tag)`. */
  function PostsByTag(nodes: seq<TreeNode>, tag: string): (r: seq<TreeNode>)
    ensures IsSubsequence(r, AllPosts(nodes))
    ensures forall n :: n in r <==> n in AllPosts(nodes) && HasTag(n, tag)
  {
    Filter(AllPosts(nodes), (n: TreeNode) => HasTag(n, tag))
  }

  /** Some post of `posts` carries `tag`. */
  predicate TaggedSomewhere(posts: seq<TreeNode>, tag: string) {
    exists k :: 0 <= k < |posts| && HasTag(posts[k], tag)
  }

  lemma TaggedSomewhereSnoc(posts: seq<TreeNode>, p: TreeNode, tag: string)
    ensures TaggedSomewhere(posts + [p], tag) <==> TaggedSomewhere(posts, tag) || HasTag(p, tag)
  {
    if TaggedSomewhere(posts + [p], tag) {
      var k :| 0 <= k < |posts + [p]| && HasTag((posts + [p])[k], tag);
      if k < |posts| {
        assert posts[k] == (posts + [p])[k];
      }
    }
    if TaggedSomewhere(posts, tag) {
      var k :| 0 <= k < |posts| && HasTag(posts[k], tag);
      assert (posts + [p])[k] == posts[k];
    }
    if HasTag(p, tag) {
      assert (posts + [p])[|posts|] == p;
    }
  }

  /** `post.tags?.forEach((tag) => tags.add(tag))`: the `Set` is a sequence in insertion
      order, which gains each tag not yet in it, at the end. */
  method AddAll(tags: seq<string>, postTags: seq<string>) returns (r: seq<string>)
    requires Distinct(tags)
    ensures Distinct(r)
    ensures forall t :: t in r <==> t in tags || t in postTags
    ensures |tags| <= |r| && r[..|tags|] == tags
  {
    r := tags;
    for j := 0 to |postTags|
      invariant Distinct(r)
      invariant forall t :: t in r <==> t in tags || t in postTags[..j]
      invariant |tags| <= |r| && r[..|tags|] == tags
    {
      if postTags[j] !in r {
        r := r + [postTags[j]];
      }
      assert postTags[..j + 1] == postTags[..j] + [postTags[j]];
    }
    assert postTags[..|postTags|] == postTags;
  }

  /** A post's tags, none when it has no tag list. */
  function TagsOf(post: TreeNode): (tags: seq<string>)
    ensures forall t :: t in tags <==> HasTag(post, t)
  {
    if post.tags.Some? then post.tags.value else []
  }

  /** Adding the tags of the next post keeps the set equal to the tags seen so far. */
  lemma TagsStep(posts: seq<TreeNode>, i: nat, before: seq<string>, after: seq<string>)
    requires i < |posts|
    requires forall t :: t in before <==> TaggedSomewhere(posts[..i], t)
    requires forall t :: t in after <==> t in before || t in TagsOf(posts[i])
    ensures forall t :: t in after <==> TaggedSomewhere(posts[..i + 1], t)
  {
    assert posts[..i + 1] == posts[..i] + [posts[i]];
    forall t ensures TaggedSomewhere(posts[..i + 1], t) <==> TaggedSomewhere(posts[..i], t) || HasTag(posts[i], t) {
      TaggedSomewhereSnoc(posts[..i], posts[i], t);
    }
  }

  /** `getAllTags()`: every tag of every listed post, once each, in ascending order. */
  method GetAllTags(nodes: seq<TreeNode>) returns (r: seq<string>)
    ensures forall t :: t in r <==> TaggedSomewhere(AllPosts(nodes), t)
    ensures forall i, j :: 0 <= i < j < |r| ==> LexLeq(r[i], r[j]) && r[i] != r[j]
  {
    var posts := AllPosts(nodes);
    var tags: seq<string> := [];
    for i := 0 to |posts|
      invariant Distinct(tags)
      invariant forall t :: t in tags <==> TaggedSomewhere(posts[..i], t)
    {
      ghost var before := tags;
      tags := AddAll(tags, TagsOf(posts[i]));
      TagsStep(posts, i, before, tags);
    }
    assert posts[..|posts|] == posts;
    r := SortLex(tags);
    PermutationDistinct(tags, r);
    forall t ensures t in r <==> t in tags {
      assert t in r <==> t in multiset(r);
    }
  }
}

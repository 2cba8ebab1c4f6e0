/** The notes endpoints of the API (`apps/api/src/routes/notes.ts`): the subtree of a
    root node collected by a breadth-first walk over a parent-to-children index, and the
    decision of when a note's post body is attached. Database queries are inputs. */
module NotesApi {
  import opened Wrappers
  import opened Seqs
  import opened Text
  import opened ApiTypes

  /* ---------------- parent links ---------------- */

  /** `if (n.parent_id)`: only a non-empty parent id links a node to a parent. */
  predicate HasParent(n: NoteNode) {
    Truthy(n.parentId)
  }

  predicate ChildOf(n: NoteNode, parentId: string) {
    HasParent(n) && n.parentId.value == parentId
  }

  function Ids(s: seq<NoteNode>): (r: seq<string>)
    ensures |r| == |s|
    ensures forall i :: 0 <= i < |s| ==> r[i] == s[i].id
  {
    seq(|s|, i requires 0 <= i < |s| => s[i].id)
  }

  /** `id` is the primary key of `note_nodes`. */
  predicate UniqueIds(nodes: seq<NoteNode>) {
    Distinct(Ids(nodes))
  }

  function FindById(nodes: seq<NoteNode>, id: string): Option<NoteNode> {
    Find(nodes, (n: NoteNode) => n.id == id)
  }

  /** The node a parent link points at, if any. */
  function ParentOf(nodes: seq<NoteNode>, n: NoteNode): (r: Option<NoteNode>)
    ensures r.Some? ==> r.value in nodes && ChildOf(n, r.value.id)
  {
    if HasParent(n) then FindById(nodes, n.parentId.value) else None
  }

  /** `n` lies below the node with id `ancestorId`, at most `k` levels deeper than
      one of its children. */
  predicate DescendsWithin(nodes: seq<NoteNode>, n: NoteNode, ancestorId: string, k: nat)
    decreases k
  {
    ChildOf(n, ancestorId) ||
    (k > 0 && match ParentOf(nodes, n)
      case None => false
      case Some(p) => DescendsWithin(nodes, p, ancestorId, k - 1))
  }

  /** `n` is a proper descendant of the node with id `ancestorId`. */
  ghost predicate IsDescendant(nodes: seq<NoteNode>, n: NoteNode, ancestorId: string) {
    exists k: nat :: DescendsWithin(nodes, n, ancestorId, k)
  }

  /** No node lies below itself. */
  ghost predicate Acyclic(nodes: seq<NoteNode>) {
    forall n, k: nat :: n in nodes ==> !DescendsWithin(nodes, n, n.id, k)
  }

  lemma {:induction false} DescendsMonotone(nodes: seq<NoteNode>, n: NoteNode, ancestorId: string, k: nat, k': nat)
    requires k <= k' && DescendsWithin(nodes, n, ancestorId, k)
    ensures DescendsWithin(nodes, n, ancestorId, k')
    decreases k
  {
    if !ChildOf(n, ancestorId) {
      DescendsMonotone(nodes, ParentOf(nodes, n).value, ancestorId, k - 1, k' - 1);
    }
  }

  lemma FindByIdUnique(nodes: seq<NoteNode>, n: NoteNode)
    requires UniqueIds(nodes) && n in nodes
    ensures FindById(nodes, n.id) == Some(n)
  {
    var k :| 0 <= k < |nodes| && nodes[k] == n;
    var f := FirstIndex(nodes, (m: NoteNode) => m.id == n.id);
    assert f <= k;
    assert Ids(nodes)[f] == Ids(nodes)[k];
  }

  lemma IdsAppend(a: seq<NoteNode>, b: seq<NoteNode>)
    ensures Ids(a + b) == Ids(a) + Ids(b)
  {
  }

  /** Nodes with distinct ids are distinct. */
  lemma DistinctIds(s: seq<NoteNode>)
    requires Distinct(Ids(s))
    ensures Distinct(s)
  {
    forall a, b | 0 <= a < b < |s| ensures s[a] != s[b] {
      assert Ids(s)[a] != Ids(s)[b];
    }
  }

  /* ---------------- the parent-to-children index ---------------- */

  /** The bucket of `parentId` once the index is complete: its children, in input order. */
  function Bucket(nodes: seq<NoteNode>, parentId: string): (r: seq<NoteNode>)
    ensures forall n :: n in r <==> n in nodes && ChildOf(n, parentId)
    ensures IsSubsequence(r, nodes)
  {
    Filter(nodes, (n: NoteNode) => ChildOf(n, parentId))
  }

  lemma BucketSnoc(nodes: seq<NoteNode>, n: NoteNode, parentId: string)
    ensures Bucket(nodes + [n], parentId) == Bucket(nodes, parentId) + (if ChildOf(n, parentId) then [n] else [])
  {
    var p := (m: NoteNode) => ChildOf(m, parentId);
    FilterAppend(nodes, [n], p);
    FilterCons(n, [], p);
  }

  /** `nodesByParent[parentId] || []`: an absent key reads as no children. */
  function Lookup(index: map<string, seq<NoteNode>>, parentId: string): seq<NoteNode> {
    if parentId in index then index[parentId] else []
  }

  /** `index` is the dictionary built from `nodes`: every key reads as its bucket, and
      only keys with a non-empty bucket are present. */
  ghost predicate Indexes(index: map<string, seq<NoteNode>>, nodes: seq<NoteNode>) {
    (forall parentId :: Lookup(index, parentId) == Bucket(nodes, parentId)) &&
    (forall parentId :: parentId in index ==> index[parentId] != [])
  }

  /** The dictionary after one turn of the loop: `n` pushed onto the bucket of its
      parent, which is created when missing; a node without a parent changes nothing. */
  function Pushed(index: map<string, seq<NoteNode>>, n: NoteNode): map<string, seq<NoteNode>> {
    if HasParent(n) then index[n.parentId.value := Lookup(index, n.parentId.value) + [n]] else index
  }

  lemma LookupStep(index: map<string, seq<NoteNode>>, nodes: seq<NoteNode>, n: NoteNode, parentId: string)
    requires Lookup(index, parentId) == Bucket(nodes, parentId)
    ensures Lookup(Pushed(index, n), parentId) == Bucket(nodes + [n], parentId)
  {
    BucketSnoc(nodes, n, parentId);
  }

  /** One turn of the loop indexes one more node. */
  lemma IndexStep(index: map<string, seq<NoteNode>>, nodes: seq<NoteNode>, n: NoteNode)
    requires Indexes(index, nodes)
    ensures Indexes(Pushed(index, n), nodes + [n])
  {
    forall parentId ensures Lookup(Pushed(index, n), parentId) == Bucket(nodes + [n], parentId) {
      LookupStep(index, nodes, n, parentId);
    }
  }

  /** The `for (const n of nodes)` loop that fills `nodesByParent`. */
  method BuildIndex(nodes: seq<NoteNode>) returns (index: map<string, seq<NoteNode>>)
    ensures forall parentId :: Lookup(index, parentId) == Bucket(nodes, parentId)
    ensures forall parentId :: parentId in index <==> Bucket(nodes, parentId) != []
  {
    index := map[];
    for i := 0 to |nodes|
      invariant Indexes(index, nodes[..i])
    {
      var n := nodes[i];
      ghost var before := index;
      IndexStep(index, nodes[..i], n);
      TakeSnoc(nodes, i + 1);
      if HasParent(n) {
        var parentId := n.parentId.value;
        if parentId !in index {
          index := index[parentId := []];
        }
        index := index[parentId := index[parentId] + [n]];
      }
      assert index == Pushed(before, n);
    }
    assert nodes[..|nodes|] == nodes;
  }

  /** Sorted input gives sorted buckets: the query orders rows by `sort_order`,
      and each bucket keeps the input order. */
  predicate SortedByOrder(s: seq<NoteNode>) {
    forall i, j :: 0 <= i < j < |s| ==> s[i].sortOrder <= s[j].sortOrder
  }

  lemma {:induction false} SubsequenceSorted(r: seq<NoteNode>, s: seq<NoteNode>)
    requires IsSubsequence(r, s) && SortedByOrder(s)
    ensures SortedByOrder(r)
    decreases |s|
  {
    if r != [] {
      if r[0] == s[0] && IsSubsequence(r[1..], s[1..]) {
        SubsequenceSorted(r[1..], s[1..]);
        SubsequenceElements(r[1..], s[1..]);
        forall j | 1 <= j < |r| ensures r[0].sortOrder <= r[j].sortOrder {
          assert r[j] == r[1..][j - 1];
          assert r[j] in s[1..];
        }
      } else {
        SubsequenceSorted(r, s[1..]);
      }
    }
  }

  lemma BucketsSorted(nodes: seq<NoteNode>, parentId: string)
    requires SortedByOrder(nodes)
    ensures SortedByOrder(Bucket(nodes, parentId))
  {
    SubsequenceSorted(Bucket(nodes, parentId), nodes);
  }

  /* ---------------- breadth-first walk ---------------- */

  /** The children of each id of `queue` in turn, each bucket kept whole: what the walk
      has appended after expanding the ids of `queue`. */
  function Expand(nodes: seq<NoteNode>, queue: seq<string>): seq<NoteNode>
    decreases |queue|
  {
    if queue == [] then [] else Expand(nodes, queue[..|queue| - 1]) + Bucket(nodes, queue[|queue| - 1])
  }

  lemma ExpandSnoc(nodes: seq<NoteNode>, queue: seq<string>, id: string)
    ensures Expand(nodes, queue + [id]) == Expand(nodes, queue) + Bucket(nodes, id)
  {
    assert (queue + [id])[..|queue|] == queue;
  }

  /** Everything appended while expanding `queue` is a child of one of its ids. */
  lemma {:induction false} ExpandMember(nodes: seq<NoteNode>, queue: seq<string>, n: NoteNode) returns (j: nat)
    requires n in Expand(nodes, queue)
    ensures j < |queue| && ChildOf(n, queue[j])
    decreases |queue|
  {
    var init := queue[..|queue| - 1];
    if n in Bucket(nodes, queue[|queue| - 1]) {
      j := |queue| - 1;
    } else {
      j := ExpandMember(nodes, init, n);
    }
  }

  /** Every child of an id of `queue` is appended while expanding `queue`. */
  lemma {:induction false} ExpandContains(nodes: seq<NoteNode>, queue: seq<string>, j: nat, n: NoteNode)
    requires j < |queue| && n in nodes && ChildOf(n, queue[j])
    ensures n in Expand(nodes, queue)
    decreases |queue|
  {
    if j < |queue| - 1 {
      ExpandContains(nodes, queue[..|queue| - 1], j, n);
    }
  }

  lemma IdsSubsequence(r: seq<NoteNode>, s: seq<NoteNode>)
    requires IsSubsequence(r, s)
    ensures IsSubsequence(Ids(r), Ids(s))
    decreases |s|
  {
    if r != [] {
      assert Ids(r)[1..] == Ids(r[1..]);
      assert Ids(s)[1..] == Ids(s[1..]);
      if r[0] == s[0] && IsSubsequence(r[1..], s[1..]) {
        IdsSubsequence(r[1..], s[1..]);
      } else {
        IdsSubsequence(r, s[1..]);
      }
    }
  }

  /** Each node of `descendants` is a node of the list at most its own position
      levels below a child of the root. */
  ghost predicate DepthBounded(nodes: seq<NoteNode>, rootId: string, descendants: seq<NoteNode>) {
    forall j :: 0 <= j < |descendants| ==> descendants[j] in nodes && DescendsWithin(nodes, descendants[j], rootId, j)
  }

  /** A child found while expanding `queue[i]` is new to the queue: it is not the root
      (the root would lie below itself) and not an earlier descendant (that one is the
      child of an earlier, different id). */
  lemma ChildIsNew(nodes: seq<NoteNode>, rootId: string, queue: seq<string>, descendants: seq<NoteNode>, i: nat, c: NoteNode)
    requires UniqueIds(nodes) && Acyclic(nodes)
    requires queue == [rootId] + Ids(descendants) && Distinct(queue) && i < |queue|
    requires descendants == Expand(nodes, queue[..i])
    requires DepthBounded(nodes, rootId, descendants)
    requires c in nodes && ChildOf(c, queue[i])
    ensures DescendsWithin(nodes, c, rootId, i)
    ensures c.id !in queue
  {
    if i == 0 {
      assert ChildOf(c, rootId);
    } else {
      var d := descendants[i - 1];
      assert queue[i] == d.id;
      FindByIdUnique(nodes, d);
      assert ParentOf(nodes, c) == Some(d);
      assert DescendsWithin(nodes, d, rootId, i - 1);
    }
    assert c.id != rootId by {
      assert !DescendsWithin(nodes, c, c.id, i);
    }
    forall k | 0 <= k < |descendants| ensures descendants[k].id != c.id {
      var d := descendants[k];
      var j := ExpandMember(nodes, queue[..i], d);
      assert queue[..i][j] != queue[i];
      assert d != c;
      FindByIdUnique(nodes, d);
      FindByIdUnique(nodes, c);
    }
  }

  /** The state of the walk before the test `i < queue.length`: the queue is the root
      followed by the ids of the nodes found, each id at most once, and the nodes found
      are the children of the first `i` queued ids. */
  ghost predicate WalkState(nodes: seq<NoteNode>, rootId: string, queue: seq<string>, descendants: seq<NoteNode>, i: nat) {
    i <= |queue| &&
    queue == [rootId] + Ids(descendants) && Distinct(queue) &&
    descendants == Expand(nodes, queue[..i]) &&
    DepthBounded(nodes, rootId, descendants) &&
    |descendants| <= |nodes|
  }

  /** The children of `queue[i]` lie within depth `i` and are new to the queue. */
  lemma NewChildren(nodes: seq<NoteNode>, rootId: string, queue: seq<string>, descendants: seq<NoteNode>, i: nat)
    requires UniqueIds(nodes) && Acyclic(nodes)
    requires WalkState(nodes, rootId, queue, descendants, i) && i < |queue|
    ensures forall c :: c in Bucket(nodes, queue[i]) ==> DescendsWithin(nodes, c, rootId, i) && c.id !in queue
  {
    forall c | c in Bucket(nodes, queue[i])
      ensures DescendsWithin(nodes, c, rootId, i) && c.id !in queue
    {
      ChildIsNew(nodes, rootId, queue, descendants, i, c);
    }
  }

  /** Appending the ids of the children keeps the queue duplicate-free. */
  lemma QueueStep(nodes: seq<NoteNode>, rootId: string, queue: seq<string>, descendants: seq<NoteNode>, i: nat)
    requires UniqueIds(nodes) && Acyclic(nodes)
    requires WalkState(nodes, rootId, queue, descendants, i) && i < |queue|
    ensures Distinct(queue + Ids(Bucket(nodes, queue[i])))
  {
    var children := Bucket(nodes, queue[i]);
    IdsSubsequence(children, nodes);
    SubsequenceDistinct(Ids(children), Ids(nodes));
    NewChildren(nodes, rootId, queue, descendants, i);
    forall x | x in Ids(children) ensures x !in queue {
      var k :| 0 <= k < |children| && Ids(children)[k] == x;
      assert children[k] in children;
    }
    DistinctConcat(queue, Ids(children));
  }

  /** With a duplicate-free queue, the nodes found are no more numerous than the list. */
  lemma LengthStep(nodes: seq<NoteNode>, rootId: string, queue: seq<string>, descendants: seq<NoteNode>, children: seq<NoteNode>)
    requires queue == [rootId] + Ids(descendants)
    requires Distinct(queue + Ids(children))
    requires forall n :: n in descendants ==> n in nodes
    requires forall n :: n in children ==> n in nodes
    ensures |descendants + children| <= |nodes|
  {
    var d' := descendants + children;
    IdsAppend(descendants, children);
    assert Ids(d') == (queue + Ids(children))[1..];
    DistinctIds(d');
    DistinctLength(d', nodes);
  }

  /** The children appended at positions from `|descendants|` on lie within that depth. */
  lemma DepthStep(nodes: seq<NoteNode>, rootId: string, queue: seq<string>, descendants: seq<NoteNode>, i: nat)
    requires UniqueIds(nodes) && Acyclic(nodes)
    requires WalkState(nodes, rootId, queue, descendants, i) && i < |queue|
    ensures DepthBounded(nodes, rootId, descendants + Bucket(nodes, queue[i]))
  {
    var children := Bucket(nodes, queue[i]);
    var d' := descendants + children;
    NewChildren(nodes, rootId, queue, descendants, i);
    forall j | 0 <= j < |d'|
      ensures d'[j] in nodes && DescendsWithin(nodes, d'[j], rootId, j)
    {
      if j >= |descendants| {
        assert d'[j] == children[j - |descendants|];
        assert d'[j] in children;
        DescendsMonotone(nodes, d'[j], rootId, i, j);
      } else {
        assert d'[j] == descendants[j];
      }
    }
  }

  /** One turn of the walk: expanding `queue[i]` keeps the walk state. */
  lemma WalkStep(nodes: seq<NoteNode>, rootId: string, queue: seq<string>, descendants: seq<NoteNode>, i: nat)
    requires UniqueIds(nodes) && Acyclic(nodes)
    requires WalkState(nodes, rootId, queue, descendants, i) && i < |queue|
    ensures WalkState(nodes, rootId, queue + Ids(Bucket(nodes, queue[i])),
                      descendants + Bucket(nodes, queue[i]), i + 1)
  {
    var children := Bucket(nodes, queue[i]);
    var q', d' := queue + Ids(children), descendants + children;
    assert Distinct(q') by {
      QueueStep(nodes, rootId, queue, descendants, i);
    }
    assert DepthBounded(nodes, rootId, d') by {
      DepthStep(nodes, rootId, queue, descendants, i);
    }
    assert |d'| <= |nodes| by {
      forall n | n in descendants ensures n in nodes {
        var k :| 0 <= k < |descendants| && descendants[k] == n;
      }
      LengthStep(nodes, rootId, queue, descendants, children);
    }
    assert d' == Expand(nodes, q'[..i + 1]) by {
      PrefixSnoc(queue, Ids(children), i);
      ExpandSnoc(nodes, queue[..i], queue[i]);
    }
    assert q' == [rootId] + Ids(d') by {
      IdsAppend(descendants, children);
      AppendAssoc([rootId], Ids(descendants), Ids(children));
    }
  }

  /** `children.forEach((c) => queue.push(c.id))`. */
  method EnqueueIds(queue: seq<string>, children: seq<NoteNode>) returns (q: seq<string>)
    ensures q == queue + Ids(children)
  {
    q := queue;
    for k := 0 to |children|
      invariant q == queue + Ids(children[..k])
    {
      assert Ids(children[..k + 1]) == Ids(children[..k]) + [children[k].id];
      q := q + [children[k].id];
    }
    assert children[..|children|] == children;
  }

  /** Once every queued id is expanded, the walk holds exactly the proper descendants
      of the root, and not the root itself. */
  lemma WalkComplete(nodes: seq<NoteNode>, rootId: string, descendants: seq<NoteNode>)
    requires Acyclic(nodes)
    requires descendants == Expand(nodes, [rootId] + Ids(descendants))
    requires DepthBounded(nodes, rootId, descendants)
    ensures forall n :: n in descendants <==> n in nodes && IsDescendant(nodes, n, rootId)
    ensures forall n :: n in descendants ==> n.id != rootId
    ensures Bucket(nodes, rootId) == [] ==> descendants == []
  {
    if descendants != [] {
      assert DescendsWithin(nodes, descendants[0], rootId, 0);
      assert descendants[0] in Bucket(nodes, rootId);
    }
    forall n | n in nodes && IsDescendant(nodes, n, rootId) ensures n in descendants {
      var k: nat :| DescendsWithin(nodes, n, rootId, k);
      ClosedUnderChildren(nodes, rootId, descendants, n, k);
    }
    forall n | n in descendants ensures n in nodes && IsDescendant(nodes, n, rootId) && n.id != rootId {
      var j :| 0 <= j < |descendants| && descendants[j] == n;
      assert DescendsWithin(nodes, n, rootId, j);
    }
  }

  /** The `while (i < queue.length)` walk of `GET /tree` from the node with id `rootId`:
      every proper descendant exactly once, never the root, children of each expanded
      id appended together in bucket order. The parent links must be acyclic: on a
      cycle below the root the walk never ends. */
  method Descendants(nodes: seq<NoteNode>, rootId: string) returns (descendants: seq<NoteNode>)
    requires UniqueIds(nodes) && Acyclic(nodes)
    ensures descendants == Expand(nodes, [rootId] + Ids(descendants))
    ensures UniqueIds(descendants)
    ensures forall n :: n in descendants <==> n in nodes && IsDescendant(nodes, n, rootId)
    ensures forall n :: n in descendants ==> n.id != rootId
    ensures Bucket(nodes, rootId) == [] ==> descendants == []
  {
    var index := BuildIndex(nodes);
    descendants := [];
    var queue := [rootId];
    var i := 0;
    while i < |queue|
      invariant WalkState(nodes, rootId, queue, descendants, i)
      decreases |nodes| + 1 - i
    {
      var parentId := queue[i];
      WalkStep(nodes, rootId, queue, descendants, i);
      i := i + 1;
      var children := Lookup(index, parentId);
      descendants := descendants + children;
      queue := EnqueueIds(queue, children);
    }
    assert queue[..i] == queue;
    WalkComplete(nodes, rootId, descendants);
    DistinctAfterRoot(rootId, descendants);
  }

  /** The visited nodes have distinct ids when, with the root id in front, the queue does. */
  lemma DistinctAfterRoot(rootId: string, descendants: seq<NoteNode>)
    requires Distinct([rootId] + Ids(descendants))
    ensures UniqueIds(descendants)
  {
    var q := [rootId] + Ids(descendants);
    forall i, j | 0 <= i < j < |descendants| ensures Ids(descendants)[i] != Ids(descendants)[j] {
      assert q[i + 1] == Ids(descendants)[i] && q[j + 1] == Ids(descendants)[j];
    }
  }

  /** A list that holds the children of the root and of each of its own members holds
      every descendant of the root. */
  lemma {:induction false} ClosedUnderChildren(nodes: seq<NoteNode>, rootId: string, descendants: seq<NoteNode>, n: NoteNode, k: nat)
    requires descendants == Expand(nodes, [rootId] + Ids(descendants))
    requires n in nodes && DescendsWithin(nodes, n, rootId, k)
    ensures n in descendants
    decreases k
  {
    var queue := [rootId] + Ids(descendants);
    if ChildOf(n, rootId) {
      ExpandContains(nodes, queue, 0, n);
    } else {
      var p := ParentOf(nodes, n).value;
      ClosedUnderChildren(nodes, rootId, descendants, p, k - 1);
      var j :| 0 <= j < |descendants| && descendants[j] == p;
      assert queue[j + 1] == p.id;
      ExpandContains(nodes, queue, j + 1, n);
    }
  }

  /* ---------------- the endpoints ---------------- */

  /** What `GET /tree` answers. */
  datatype TreeResponse =
    | RootNotFound
    | ServerError(message: string)
    | TreeBody(root: Option<NoteNode>, nodes: seq<NoteNode>)

  /** `GET /tree?root=rootSlug`. `rootLookup` is the outcome of the single-row query for
      the root slug (`None` for an error or no row); `allNodes` is the outcome of the
      query for every node, ordered by `sort_order`. A missing root answers 404 before
      the node query's error is looked at. */
  method GetTree(rootSlug: Option<string>, rootLookup: Option<NoteNode>, allNodes: Result<seq<NoteNode>, string>)
    returns (r: TreeResponse)
    requires allNodes.Success? && Truthy(rootSlug) && rootLookup.Some? ==> UniqueIds(allNodes.value) && Acyclic(allNodes.value)
    ensures r.RootNotFound? <==> Truthy(rootSlug) && rootLookup.None?
    ensures r.ServerError? <==> !r.RootNotFound? && allNodes.Failure?
    ensures r.ServerError? ==> r.message == allNodes.error
    ensures r.TreeBody? && !Truthy(rootSlug) ==> r.root == None && r.nodes == allNodes.value
    ensures r.TreeBody? && Truthy(rootSlug) ==>
      r.root == rootLookup &&
      r.nodes == Expand(allNodes.value, [rootLookup.value.id] + Ids(r.nodes)) &&
      UniqueIds(r.nodes) &&
      forall n :: n in r.nodes <==> n in allNodes.value && IsDescendant(allNodes.value, n, rootLookup.value.id)
  {
    var rootNode: Option<NoteNode> := None;
    if Truthy(rootSlug) {
      if rootLookup.None? {
        return RootNotFound;
      }
      rootNode := rootLookup;
    }
    if allNodes.Failure? {
      return ServerError(allNodes.error);
    }
    var nodes := allNodes.value;
    if rootNode.Some? {
      nodes := Descendants(nodes, rootNode.value.id);
    }
    return TreeBody(rootNode, nodes);
  }

  /** What `GET /content/:id` answers. */
  datatype ContentResponse =
    | NodeNotFound
    | Content(node: NoteNode, post: Option<Post>)

  /** `GET /content/:id`. `nodeLookup` is the outcome of the single-row query for the
      id; `postFetch` is the outcome the query for the note's post would have, and it is
      consulted only for a post node with a post id. */
  function GetContent(nodeLookup: Option<NoteNode>, postFetch: Result<Post, string>): (r: ContentResponse)
    ensures r.NodeNotFound? <==> nodeLookup.None?
    ensures r.Content? ==> r.node == nodeLookup.value
    ensures r.Content? ==>
      (r.post.Some? <==> r.node.nodeType == PostNode && Truthy(r.node.postId) && postFetch.Success?)
    ensures r.Content? && r.post.Some? ==> r.post.value == postFetch.value
  {
    match nodeLookup
    case None => NodeNotFound
    case Some(node) =>
      var post :=
        if node.nodeType == PostNode && Truthy(node.postId) && postFetch.Success?
        then Some(postFetch.value) else None;
      Content(node, post)
  }
}

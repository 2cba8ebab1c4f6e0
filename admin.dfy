/** The content-management page (`apps/web/app/admin/page.tsx`): the node list, the
    selected node and the expanded folders as the fields of one object, and the
    editing operations as its methods. React re-rendering is left out; the state
    setters become field assignments. */
module Admin {
  import opened Wrappers
  import opened Seqs
  import opened Text
  import opened Tree
  import opened TreePaths
  import opened ExpandedIds

  /* ---------------- replacing a node ---------------- */

  /** `prev.map((node) => (node.id === updated.id ? updated : node))`. */
  function ReplaceById(tree: seq<TreeNode>, updated: TreeNode): (r: seq<TreeNode>)
    ensures |r| == |tree|
    ensures forall i :: 0 <= i < |tree| ==> r[i].id == tree[i].id
    ensures forall i :: 0 <= i < |tree| && tree[i].id != updated.id ==> r[i] == tree[i]
    ensures forall i :: 0 <= i < |tree| && tree[i].id == updated.id ==> r[i] == updated
  {
    seq(|tree|, i requires 0 <= i < |tree| => if tree[i].id == updated.id then updated else tree[i])
  }

  /** Replacing twice with the same node is replacing once. */
  lemma ReplaceIdempotent(tree: seq<TreeNode>, updated: TreeNode)
    ensures ReplaceById(ReplaceById(tree, updated), updated) == ReplaceById(tree, updated)
  {
  }

  /** A replacement keeps the ids, so it keeps them unique. */
  lemma ReplaceKeepsUniqueIds(tree: seq<TreeNode>, updated: TreeNode)
    requires UniqueIds(tree)
    ensures UniqueIds(ReplaceById(tree, updated))
  {
  }

  /* ---------------- adding a node ---------------- */

  /** The category a new post gets from the folder it is added to. */
  function CategoryFor(parentId: Option<string>): (c: string)
    ensures parentId == Some("root-projects") ==> c == "projects"
    ensures parentId == Some("root-certifications") ==> c == "certifications"
    ensures parentId != Some("root-projects") && parentId != Some("root-certifications") ==> c == "notes"
  {
    if parentId == Some("root-projects") then "projects"
    else if parentId == Some("root-certifications") then "certifications"
    else "notes"
  }

  /** The node `handleAddNode` creates. `idNow` and `slugNow` stand for the decimal
      text of the two `Date.now()` readings (one for the id, one for a post's slug;
      they may differ), and `today` for the `YYYY-MM-DD` part of the current time. */
  function NewNode(parentId: Option<string>, kind: NodeType, siblings: nat, idNow: string, slugNow: string, today: string): (n: TreeNode)
    ensures n.id == "new-" + idNow && n.kind == kind && n.parentId == parentId && n.sortOrder == siblings
    ensures n.name == if kind == Folder then "new-folder" else "new-post"
    ensures kind == Folder ==>
      n.title.None? && n.excerpt.None? && n.contentMd.None? && n.tags.None? &&
      n.category.None? && n.date.None? && n.slug.None?
    ensures kind == Post ==>
      n.title == Some("新しい記事") && n.excerpt == Some("") && n.contentMd == Some("") &&
      n.tags == Some([]) && n.category == Some(CategoryFor(parentId)) &&
      n.date == Some(today) && n.slug == Some("new-post-" + slugNow)
  {
    if kind == Folder then
      TreeNode("new-" + idNow, kind, "new-folder", parentId, siblings, None, None, None, None, None, None, None)
    else
      TreeNode("new-" + idNow, kind, "new-post", parentId, siblings,
        Some("新しい記事"), Some(""), Some(""), Some([]), Some(CategoryFor(parentId)), Some(today),
        Some("new-post-" + slugNow))
  }

  /** A new node whose id no listed node has keeps the ids of the tree unique. */
  lemma NewNodeKeepsUniqueIds(tree: seq<TreeNode>, parentId: Option<string>, kind: NodeType, idNow: string, slugNow: string, today: string)
    requires UniqueIds(tree) && forall m :: m in tree ==> m.id != "new-" + idNow
    ensures UniqueIds(tree + [NewNode(parentId, kind, |Children(tree, parentId)|, idNow, slugNow, today)])
  {
    var t := tree + [NewNode(parentId, kind, |Children(tree, parentId)|, idNow, slugNow, today)];
    forall i, j | 0 <= i < j < |t| ensures t[i].id != t[j].id {
      if j == |tree| {
        assert t[i] == tree[i];
      }
    }
  }

  /** Appending a node adds it, last, to the children of its parent and to no other
      parent's children. */
  lemma AppendedIsLastChild(tree: seq<TreeNode>, n: TreeNode, parentId: Option<string>)
    ensures Children(tree + [n], parentId) ==
      Children(tree, parentId) + (if n.parentId == parentId then [n] else [])
  {
    var p := (m: TreeNode) => m.parentId == parentId;
    FilterAppend(tree, [n], p);
    FilterCons(n, [], p);
  }

  /* ---------------- deleting a subtree ---------------- */

  /** The recursion of `collectIds` from `id` ends within `fuel` levels: the nodes below
      `id` form a finite tree. On a cycle of parent links the recursion never ends. */
  ghost predicate Bounded(tree: seq<TreeNode>, id: string, fuel: nat)
    decreases fuel
  {
    fuel > 0 && forall c :: c in tree && c.parentId == Some(id) ==> Bounded(tree, c.id, fuel - 1)
  }

  /** The recursion ends below each child too, one level sooner. */
  lemma BoundedChild(tree: seq<TreeNode>, id: string, fuel: nat, c: TreeNode)
    requires Bounded(tree, id, fuel) && c in tree && c.parentId == Some(id)
    ensures fuel > 0 && Bounded(tree, c.id, fuel - 1)
  {
  }

  /** The children of `id` in list order, the nodes `collectIds(id)` recurses into.
      This is `Children(tree, Some(id))` written without a contract: the subtree
      definitions below are stated over it because the quantified ensures of
      `Children` would be in scope in every proof about them, and the inductions
      over the subtree only need the membership fact `KidsMembers`. */
  ghost function Kids(tree: seq<TreeNode>, id: string): seq<TreeNode>
  {
    if tree == [] then [] else (if tree[0].parentId == Some(id) then [tree[0]] else []) + Kids(tree[1..], id)
  }

  /** It is the same list as the child listing `Children`. */
  lemma {:induction false} KidsAreChildren(tree: seq<TreeNode>, id: string)
    ensures Kids(tree, id) == Children(tree, Some(id))
  {
    if tree != [] {
      KidsAreChildren(tree[1..], id);
      FilterCons(tree[0], tree[1..], (n: TreeNode) => n.parentId == Some(id));
      assert tree == [tree[0]] + tree[1..];
    }
  }

  /** `treeData.filter((n) => n.parent_id === id)` as `collectIds` computes it. */
  method ChildrenOf(tree: seq<TreeNode>, id: string) returns (cs: seq<TreeNode>)
    ensures cs == Kids(tree, id)
  {
    cs := Children(tree, Some(id));
    KidsAreChildren(tree, id);
  }

  /** The children of `id` are the listed nodes whose parent is `id`. */
  lemma KidsMembers(tree: seq<TreeNode>, id: string, c: TreeNode)
    ensures c in Kids(tree, id) <==> c in tree && c.parentId == Some(id)
  {
    KidsAreChildren(tree, id);
  }

  /** The ids `collectIds(id)` adds: `id` and the ids collected from each child. */
  ghost function SubtreeIds(tree: seq<TreeNode>, id: string, fuel: nat): set<string>
    decreases fuel, 0
  {
    {id} + (if fuel == 0 then {} else ChildrenIds(tree, Kids(tree, id), fuel - 1))
  }

  /** The ids collected from each node of `cs`. */
  ghost function ChildrenIds(tree: seq<TreeNode>, cs: seq<TreeNode>, fuel: nat): set<string>
    decreases fuel, 1, |cs|
  {
    if cs == [] then {} else ChildrenIds(tree, cs[..|cs| - 1], fuel) + SubtreeIds(tree, cs[|cs| - 1].id, fuel)
  }

  /** `x` is the id of a node below the node with id `id`, at most `k` levels below
      one of its children. Parent links are followed by id, as `collectIds` does. */
  ghost predicate Below(tree: seq<TreeNode>, x: string, id: string, k: nat)
    decreases k
  {
    exists c :: c in tree && c.parentId == Some(id) &&
      (c.id == x || (k > 0 && Below(tree, x, c.id, k - 1)))
  }

  /** An id collected from `cs` was collected from one node of `cs`. */
  lemma {:induction false} ChildrenIdsWitness(tree: seq<TreeNode>, cs: seq<TreeNode>, fuel: nat, x: string)
    returns (j: nat)
    requires x in ChildrenIds(tree, cs, fuel)
    ensures j < |cs| && x in SubtreeIds(tree, cs[j].id, fuel)
    decreases |cs|
  {
    var init := cs[..|cs| - 1];
    if x in ChildrenIds(tree, init, fuel) {
      j := ChildrenIdsWitness(tree, init, fuel, x);
      assert cs[j] == init[j];
    } else {
      j := |cs| - 1;
    }
  }

  /** The ids collected from one node of `cs` are among those collected from `cs`. */
  lemma {:induction false} ChildrenIdsHas(tree: seq<TreeNode>, cs: seq<TreeNode>, fuel: nat, c: TreeNode, x: string)
    requires c in cs && x in SubtreeIds(tree, c.id, fuel)
    ensures x in ChildrenIds(tree, cs, fuel)
    decreases |cs|
  {
    var init := cs[..|cs| - 1];
    if c != cs[|cs| - 1] {
      assert c in init by {
        assert cs == init + [cs[|cs| - 1]];
      }
      ChildrenIdsHas(tree, init, fuel, c, x);
    }
  }

  /** One level of `Below`: a child of `id` leads to everything below it. */
  lemma BelowStep(tree: seq<TreeNode>, x: string, id: string, c: TreeNode, k: nat)
    requires c in tree && c.parentId == Some(id)
    requires c.id == x || (k > 0 && Below(tree, x, c.id, k - 1))
    ensures Below(tree, x, id, k)
  {
  }

  /** The collected ids of `id` with some fuel left: `id` and those of its children. */
  lemma SubtreeIdsUnfold(tree: seq<TreeNode>, id: string, fuel: nat)
    ensures fuel == 0 ==> SubtreeIds(tree, id, fuel) == {id}
    ensures fuel > 0 ==> SubtreeIds(tree, id, fuel) == {id} + ChildrenIds(tree, Kids(tree, id), fuel - 1)
  {
  }

  /** Every collected id other than `id` is the id of a node below it. */
  lemma {:induction false} CollectedAreBelow(tree: seq<TreeNode>, id: string, fuel: nat, x: string)
    requires fuel > 0 && x in SubtreeIds(tree, id, fuel) && x != id
    ensures exists k: nat :: Below(tree, x, id, k)
    decreases fuel
  {
    var cs := Kids(tree, id);
    SubtreeIdsUnfold(tree, id, fuel);
    var j := ChildrenIdsWitness(tree, cs, fuel - 1, x);
    var c := cs[j];
    KidsMembers(tree, id, c);
    if x == c.id {
      BelowStep(tree, x, id, c, 0);
    } else {
      SubtreeIdsUnfold(tree, c.id, fuel - 1);
      CollectedAreBelow(tree, c.id, fuel - 1, x);
      var k: nat :| Below(tree, x, c.id, k);
      BelowStep(tree, x, id, c, k + 1);
    }
  }

  /** What is collected from a child of `id` is collected from `id`. */
  lemma CollectedViaChild(tree: seq<TreeNode>, id: string, fuel: nat, c: TreeNode, x: string)
    requires fuel > 0 && c in tree && c.parentId == Some(id) && x in SubtreeIds(tree, c.id, fuel - 1)
    ensures x in SubtreeIds(tree, id, fuel)
  {
    var cs := Kids(tree, id);
    KidsMembers(tree, id, c);
    ChildrenIdsHas(tree, cs, fuel - 1, c, x);
    SubtreeIdsUnfold(tree, id, fuel);
  }

  /** The child through which `x` lies below `id`. */
  lemma BelowWitness(tree: seq<TreeNode>, x: string, id: string, k: nat) returns (c: TreeNode)
    requires Below(tree, x, id, k)
    ensures c in tree && c.parentId == Some(id)
    ensures c.id == x || (k > 0 && Below(tree, x, c.id, k - 1))
  {
    c :| c in tree && c.parentId == Some(id) && (c.id == x || (k > 0 && Below(tree, x, c.id, k - 1)));
  }

  /** The id of every node below `id` is collected, provided the recursion ends. */
  lemma {:induction false} BelowAreCollected(tree: seq<TreeNode>, id: string, fuel: nat, x: string, k: nat)
    requires Bounded(tree, id, fuel) && Below(tree, x, id, k)
    ensures x in SubtreeIds(tree, id, fuel)
    decreases k
  {
    var c := BelowWitness(tree, x, id, k);
    BoundedChild(tree, id, fuel, c);
    if c.id != x {
      BelowAreCollected(tree, c.id, fuel - 1, x, k - 1);
    } else {
      SubtreeIdsUnfold(tree, c.id, fuel - 1);
    }
    CollectedViaChild(tree, id, fuel, c, x);
  }

  /** The collected ids are `id` and the ids of exactly the nodes below it. */
  lemma SubtreeIdsAreBelow(tree: seq<TreeNode>, id: string, fuel: nat, x: string)
    requires Bounded(tree, id, fuel)
    ensures x in SubtreeIds(tree, id, fuel) <==> x == id || exists k: nat :: Below(tree, x, id, k)
  {
    if x in SubtreeIds(tree, id, fuel) && x != id {
      CollectedAreBelow(tree, id, fuel, x);
    }
    if exists k: nat :: Below(tree, x, id, k) {
      var k: nat :| Below(tree, x, id, k);
      BelowAreCollected(tree, id, fuel, x, k);
    }
  }

  lemma ChildrenIdsSnoc(tree: seq<TreeNode>, cs: seq<TreeNode>, k: nat, fuel: nat)
    requires k < |cs|
    ensures ChildrenIds(tree, cs[..k + 1], fuel) == ChildrenIds(tree, cs[..k], fuel) + SubtreeIds(tree, cs[k].id, fuel)
  {
    assert cs[..k + 1][..k] == cs[..k];
  }

  /** `collectIds(id)`: adds `id` to `acc`, then collects from each child in turn. */
  method CollectIds(tree: seq<TreeNode>, id: string, acc: set<string>, ghost fuel: nat) returns (r: set<string>)
    requires Bounded(tree, id, fuel)
    ensures r == acc + SubtreeIds(tree, id, fuel)
    decreases fuel
  {
    r := acc + {id};
    var children := ChildrenOf(tree, id);
    ghost var cs := children;
    for k := 0 to |children|
      invariant r == acc + {id} + ChildrenIds(tree, cs[..k], fuel - 1)
    {
      KidsMembers(tree, id, cs[k]);
      BoundedChild(tree, id, fuel, cs[k]);
      r := CollectIds(tree, children[k].id, r, fuel - 1);
      ChildrenIdsSnoc(tree, cs, k, fuel - 1);
    }
    assert cs[..|cs|] == cs;
    SubtreeIdsUnfold(tree, id, fuel);
  }

  /** With unique ids, no top-level node lies below any node. */
  lemma {:induction false} RootNotBelow(tree: seq<TreeNode>, n: TreeNode, id: string, k: nat)
    requires UniqueIds(tree) && n in tree && n.parentId == None
    ensures !Below(tree, n.id, id, k)
    decreases k
  {
    forall c | c in tree && c.parentId == Some(id)
      ensures c.id != n.id && (k > 0 ==> !Below(tree, n.id, c.id, k - 1))
    {
      DifferentNodesDifferentIds(tree, c, n);
      if k > 0 {
        RootNotBelow(tree, n, c.id, k - 1);
      }
    }
  }

  /** A top-level node survives the deletion of any other node, when ids are unique:
      the menu offers deletion only below the top level, so the top level stays. */
  lemma RootSurvives(tree: seq<TreeNode>, id: string, fuel: nat, n: TreeNode)
    requires UniqueIds(tree) && Bounded(tree, id, fuel)
    requires n in tree && n.parentId == None && n.id != id
    ensures n.id !in SubtreeIds(tree, id, fuel)
  {
    SubtreeIdsAreBelow(tree, id, fuel, n.id);
    forall k: nat ensures !Below(tree, n.id, id, k) {
      RootNotBelow(tree, n, id, k);
    }
  }

  /** `prev.filter((n) => !idsToDelete.has(n.id))`. */
  function Without(tree: seq<TreeNode>, ids: set<string>): (r: seq<TreeNode>)
    ensures IsSubsequence(r, tree)
    ensures forall n :: n in r <==> n in tree && n.id !in ids
  {
    Filter(tree, (n: TreeNode) => n.id !in ids)
  }

  /* ---------------- tags ---------------- */

  /** `addTag`: the tag list after adding `input`, or `None` when nothing changes
      (an empty input, or a tag already present). */
  function AddTag(tags: Option<seq<string>>, input: string): (r: Option<seq<string>>)
    ensures r.Some? <==> input != "" && !(tags.Some? && input in tags.value)
    ensures r.Some? ==> r.value == tags.GetOr([]) + [input]
  {
    if input != "" && !(tags.Some? && input in tags.value) then Some(tags.GetOr([]) + [input]) else None
  }

  /** Adding tags never creates a duplicate. */
  lemma AddTagKeepsDistinct(tags: Option<seq<string>>, input: string)
    requires Distinct(tags.GetOr([]))
    ensures AddTag(tags, input).Some? ==> Distinct(AddTag(tags, input).value)
  {
  }

  /** `removeTag`: every occurrence of `tag` dropped, the other tags kept in order. */
  function RemoveTag(tags: Option<seq<string>>, tag: string): (r: seq<string>)
    ensures IsSubsequence(r, tags.GetOr([]))
    ensures forall t :: t in r <==> t in tags.GetOr([]) && t != tag
  {
    if tags.Some? then Filter(tags.value, (t: string) => t != tag) else []
  }

  /** Removing a tag just added gives back the list it was added to. */
  lemma RemoveUndoesAdd(tags: Option<seq<string>>, input: string)
    requires AddTag(tags, input).Some?
    ensures RemoveTag(AddTag(tags, input), input) == tags.GetOr([])
  {
    var ts := tags.GetOr([]);
    var p := (t: string) => t != input;
    FilterAppend(ts, [input], p);
    FilterCons(input, [], p);
    FilterAll(ts, p);
  }

  /* ---------------- the page ---------------- */

  /** The tree item menu offers "delete" only for nodes with a parent. */
  predicate CanDelete(n: TreeNode) {
    n.parentId != None
  }

  /** The tree item menu offers "add folder" and "add post" only for folders. */
  predicate CanAddChild(n: TreeNode) {
    n.kind == Folder
  }

  class AdminPage {
    var selected: Option<TreeNode>
    var tree: seq<TreeNode>
    var expanded: set<string>

    constructor (initial: seq<TreeNode>)
      ensures selected == None && tree == initial && expanded == InitiallyExpanded
    {
      selected := None;
      tree := initial;
      expanded := InitiallyExpanded;
    }

    /** `toggleExpanded(id)`: copies the set, then deletes or adds `id`. */
    method ToggleExpanded(id: string)
      modifies this
      ensures expanded == Toggled(old(expanded), id)
      ensures tree == old(tree) && selected == old(selected)
    {
      var next := expanded;
      if id in next {
        next := next - {id};
      } else {
        next := next + {id};
      }
      expanded := next;
    }

    /** `handleNodeUpdate(updated)`. */
    method HandleNodeUpdate(updated: TreeNode)
      modifies this
      ensures tree == ReplaceById(old(tree), updated)
      ensures selected == Some(updated) && expanded == old(expanded)
    {
      tree := ReplaceById(tree, updated);
      selected := Some(updated);
    }

    /** `handleAddNode(parentId, kind)`, with the clock readings as parameters. */
    method HandleAddNode(parentId: Option<string>, kind: NodeType, idNow: string, slugNow: string, today: string)
      modifies this
      ensures tree == old(tree) + [NewNode(parentId, kind, |Children(old(tree), parentId)|, idNow, slugNow, today)]
      ensures selected == Some(tree[|tree| - 1])
      ensures expanded == if Truthy(parentId) then old(expanded) + {parentId.value} else old(expanded)
    {
      var siblings := Children(tree, parentId);
      var newNode := NewNode(parentId, kind, |siblings|, idNow, slugNow, today);
      tree := tree + [newNode];
      selected := Some(newNode);
      if Truthy(parentId) {
        expanded := expanded + {parentId.value};
      }
    }

    /** `handleDeleteNode(nodeId)`: collects the ids of the subtree, keeps the other
        nodes in order, and clears the selection if it was deleted. */
    method HandleDeleteNode(nodeId: string, ghost fuel: nat)
      requires Bounded(tree, nodeId, fuel)
      modifies this
      ensures tree == Without(old(tree), SubtreeIds(old(tree), nodeId, fuel))
      ensures selected == if old(selected).Some? && old(selected).value.id in SubtreeIds(old(tree), nodeId, fuel)
        then None else old(selected)
      ensures expanded == old(expanded)
    {
      var idsToDelete := CollectIds(tree, nodeId, {}, fuel);
      assert idsToDelete == SubtreeIds(tree, nodeId, fuel);
      tree := Without(tree, idsToDelete);
      if selected.Some? && selected.value.id in idsToDelete {
        selected := None;
      }
    }
  }

  /** What deletion keeps: exactly the nodes whose id was not collected, in order. */
  lemma DeletionKeeps(tree: seq<TreeNode>, nodeId: string, fuel: nat, n: TreeNode)
    requires Bounded(tree, nodeId, fuel)
    ensures n in Without(tree, SubtreeIds(tree, nodeId, fuel)) <==>
      n in tree && n.id != nodeId && !exists k: nat :: Below(tree, n.id, nodeId, k)
  {
    SubtreeIdsAreBelow(tree, nodeId, fuel, n.id);
  }
}

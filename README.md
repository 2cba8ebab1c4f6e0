# tech-blog core, modelled in Dafny

The tech-blog repository is a portfolio and blog site. A small API reads posts, tags and a
notes tree from a hosted database. A web front end renders article lists, a notes browser,
Markdown pages and an admin editor. Most of the code is views, database queries and HTTP
glue. Underneath sits a small amount of real logic over three things. The first is a flat
list of nodes that refer to their parent by id. The second is lists of posts. The third is
Markdown text.

This project models that logic and proves what it promises:

- **Tree** (`tree.dfy`, `tree_paths.dfy`) covers the helpers of `apps/web/lib/mock-data.ts`.
  These are:
  - sorted child listing (`buildTree`);
  - descent along a path of names (`getNodeByPath`);
  - the ancestor walk (`getBreadcrumbs`);
  - post filtering and tag collection.

  The node list is a parameter instead of the module constant. The admin tree lists a
  node's children with the same filter and sort (`apps/web/app/admin/page.tsx:187`), so
  `BuildTree` models that listing too. `GetNodeByPath`,
  `GetBreadcrumbs` and `GetAllTags` keep the loops of the source. Their results are tied to
  recursive functions. The path/breadcrumb round trips are proved about those functions.
- **NotesApi** (`notes_api.dfy`) covers `GET /notes/tree` and `GET /notes/content/:id` of
  the API.
  - The tree endpoint fills the parent→children dictionary and runs the queue-driven
    breadth-first walk. Both are loops, proved against `Bucket` and `Expand`.
  - The database results are parameters.
- **Admin** (`admin.dfy`, `expanded_ids.dfy`) covers the admin page's state updates.
  - They are methods of the `AdminPage` class, whose fields are the page's three pieces of
    state.
  - The recursive `collectIds` is a method that threads the id set.
  - Tag editing and the node replacement are functions.
- **NotesTree** (`notes_tree.dfy`) covers the notes browser:
  - the slug path of a node, walked upward through a pool of nodes at most three levels deep;
  - the `isActive` comparison and the link;
  - the expanded-id state.
- **Articles** (`articles.dfy`) covers the article list's filter predicate, tag toggling,
  clearing and the active-filter test.
- **TableOfContents** (`table_of_contents.dfy`) covers the `\n` normalisation, the
  `^(#{1,3})\s+(.+)$` heading scan and the anchor-id slug. The scan is written as a
  line-based matcher that agrees with the regular expression.
- **MarkdownRenderer** (`markdown_renderer.dfy`) covers:
  - `escapeHtml`;
  - the heading and list line rewrites;
  - the paragraph split and wrap.
- **PostsApi** (`posts_api.dfy`) covers `GET /posts` and `GET /posts/:slug`:
  - the page-range arithmetic;
  - the short circuit taken when a tag matches no post;
  - the reshaping of rows into summaries and details.

  The database calls are parameters.

Shared pieces: `wrappers.dfy` (Option, Result), `seqs.dfy` (filter, subsequence,
distinctness) and `text.dfy` (ASCII lower-casing, infix search, JavaScript trim, join, split,
code-point order). `api_types.dfy` holds the API's record shapes.

Where the code differs from the repository's design notes, the model follows the code:

- An empty path resolves to no node. There is no separate "root" result.
- Path segments are compared with a node's `name`.
- Nothing stops a path from descending below a post node. A descent fails only when no child
  has the next name.
- Siblings are ordered by `sort_order` alone, through a stable sort. So ties keep list order.
  In the API, the order comes from the database query.
- Overview posts are recognised by a first tag `"overview"`, not by a reserved slug.
- No code in the modelled files counts descendant posts, so there is nothing to model for that.

## Model

| member | source | states |
|---|---|---|
| Tree.Children | apps/web/lib/mock-data.ts:197 | the nodes under a parent are exactly the list's nodes with that `parent_id`, with their multiplicities, in list order |
| Tree.InsertByOrder | apps/web/lib/mock-data.ts:197 | inserting into a list sorted by `sort_order` keeps it sorted and adds exactly one element |
| Tree.InsertPastHead | apps/web/lib/mock-data.ts:197 | a node with a larger `sort_order` than the head goes after it: the result stays sorted and gains exactly that node |
| Tree.InsertByOrderRuns | apps/web/lib/mock-data.ts:197 | insertion places the new node after every node with an equal `sort_order` |
| Tree.SortByOrder | apps/web/lib/mock-data.ts:197 | the sort is a permutation and sorted by `sort_order` |
| Tree.SortByOrderStable | apps/web/lib/mock-data.ts:197 | the sort is stable: for every key, the nodes with that key keep their list order |
| Tree.BuildTree | apps/web/lib/mock-data.ts:196-198 | `buildTree(p)` is a permutation of the `parent_id == p` filter, sorted by `sort_order`, with ties in list order |
| Tree.ResolveFrom | apps/web/lib/mock-data.ts:201-213 | a resolved node belongs to the list, and its name is the last segment; an empty path resolves to nothing |
| Tree.GetNodeByPath | apps/web/lib/mock-data.ts:201-213 | the loop returns `ResolvePath`'s result: null for an empty path, and otherwise a listed node named by the last segment |
| Tree.ParentOf | apps/web/lib/mock-data.ts:222 | a found parent belongs to the list and its id is the node's `parent_id` |
| Tree.AncestorChain | apps/web/lib/mock-data.ts:216-225 | the chain ends at the node, starts at a node with no resolvable parent, and each element is the parent of the next |
| Tree.AncestorChainStep | apps/web/lib/mock-data.ts:220-223 | one step of the walk prepends the parent's chain |
| Tree.Breadcrumbs | apps/web/lib/mock-data.ts:216-226 | on a walk that ends, breadcrumbs are empty iff the id is unknown; otherwise they end with that node, start at a top node, and link parent to child |
| Tree.GetBreadcrumbs | apps/web/lib/mock-data.ts:216-226 | the `unshift` loop computes exactly the breadcrumbs |
| Tree.AllPosts | apps/web/lib/mock-data.ts:172-174 | the posts whose first tag is not `"overview"`, in list order |
| Tree.PostsByCategory | apps/web/lib/mock-data.ts:177-179 | an order-preserving sub-filter of the listed posts: those in the category |
| Tree.PostsByTag | apps/web/lib/mock-data.ts:182-184 | an order-preserving sub-filter of the listed posts: those carrying the tag |
| Tree.TaggedSomewhereSnoc | apps/web/lib/mock-data.ts:189-191 | adding one post's tags to the set adds exactly that post's tags |
| Tree.TagsOf | apps/web/lib/mock-data.ts:189 | `post.tags ?? []` holds exactly the tags the post carries |
| Tree.AddAll | apps/web/lib/mock-data.ts:189 | adding tags one by one to a duplicate-free collection keeps it duplicate-free, keeps what it held in place, and adds exactly the new tags |
| Tree.GetAllTags | apps/web/lib/mock-data.ts:187-193 | the result is strictly ascending (hence duplicate-free), and a tag is in it iff some listed post carries it |
| TreePaths.FindChildUnique | apps/web/lib/mock-data.ts:206 | with unique sibling names, looking a node up by its parent and name finds that node |
| TreePaths.ResolveDownChain | apps/web/lib/mock-data.ts:201-213 | resolving the names of a parent-to-child chain reaches the chain's last node |
| TreePaths.ResolvedChain | apps/web/lib/mock-data.ts:201-213 | a successful resolution has a witness chain from the roots whose names are the path |
| TreePaths.AncestorChainRetraces | apps/web/lib/mock-data.ts:216-225 | the ancestor walk from a chain's last node gives back the chain |
| TreePaths.BreadcrumbsDownChain | apps/web/lib/mock-data.ts:216-225 | with unique ids, no dangling parent ids and a walk up from the node that ends, breadcrumbs form a chain from a top-level node down to the node |
| TreePaths.BreadcrumbPathFindsNode | apps/web/lib/mock-data.ts:201-226 | with unique ids, no dangling parent ids, unique sibling names and a walk up from the node that ends, resolving the names of a node's breadcrumbs finds the node |
| TreePaths.PathBreadcrumbsSpellPath | apps/web/lib/mock-data.ts:201-226 | with unique ids alone, the walk up from a resolved node ends and its breadcrumbs spell the path that found it |
| TreePaths.ResolvedWalkEnds | apps/web/lib/mock-data.ts:201-226 | with unique ids, the walk up from a node a path finds ends within as many steps as the list has nodes, whatever cycles the rest of the list holds |
| TreePaths.FailedPrefixFails | apps/web/lib/mock-data.ts:205-207 | once a prefix fails to resolve, every longer path fails |
| ExpandedIds.Toggled | apps/web/app/admin/page.tsx:49-59 | toggling flips the given id's membership and no other id's |
| ExpandedIds.ToggleTwice | apps/web/app/admin/page.tsx:49-59 | toggling the same id twice restores the set |
| ExpandedIds.ToggleCommutes | apps/web/app/admin/page.tsx:49-59 | toggles of two ids commute |
| Admin.ReplaceById | apps/web/app/admin/page.tsx:62 | length and ids are unchanged, each node with the edited id becomes the edited node, and every other node is unchanged |
| Admin.ReplaceIdempotent | apps/web/app/admin/page.tsx:62 | replacing twice is replacing once |
| Admin.ReplaceKeepsUniqueIds | apps/web/app/admin/page.tsx:62 | replacement keeps ids unique |
| Admin.CategoryFor | apps/web/app/admin/page.tsx:80-81 | a new post's category is `projects` and `certifications` under those two roots, and `notes` everywhere else |
| Admin.NewNode | apps/web/app/admin/page.tsx:66-85 | every field of the new node: id from the first clock reading, kind, parent, `sort_order` (the sibling count) and name; a folder has no title, excerpt, content, tags, category, date or slug; a post has the fixed title, empty excerpt and content, no tags, the category of its folder, today's date and a slug from the second clock reading |
| Admin.NewNodeKeepsUniqueIds | apps/web/app/admin/page.tsx:66-86 | appending a node whose id is new keeps the tree's ids unique |
| Admin.AppendedIsLastChild | apps/web/app/admin/page.tsx:68-74 | after an append, the parent's children are the old ones followed by the new node |
| Admin.KidsAreChildren | apps/web/app/admin/page.tsx:98 | the recursive children filter and the `filter` call agree |
| Admin.KidsMembers | apps/web/app/admin/page.tsx:98 | a node is a child of an id iff it is in the tree with that `parent_id` |
| Admin.ChildrenOf | apps/web/app/admin/page.tsx:98 | `treeData.filter((n) => n.parent_id === id)` yields the children of `id` in tree order |
| Admin.CollectedAreBelow | apps/web/app/admin/page.tsx:96-100 | every collected id other than the start lies below the start |
| Admin.BelowAreCollected | apps/web/app/admin/page.tsx:96-100 | every id below the start is collected |
| Admin.SubtreeIdsAreBelow | apps/web/app/admin/page.tsx:96-100 | the collected ids are exactly the start and its descendants |
| Admin.CollectIds | apps/web/app/admin/page.tsx:96-100 | the recursive collection adds exactly the subtree's ids to the set it is given |
| Admin.RootNotBelow | apps/web/app/admin/page.tsx:192 | a top-level node is below no node |
| Admin.RootSurvives | apps/web/app/admin/page.tsx:255-259 | deleting any other node never removes a top-level node |
| Admin.Without | apps/web/app/admin/page.tsx:102 | the delete filter keeps, in order, exactly the nodes whose id is not collected |
| Admin.AddTag | apps/web/app/admin/page.tsx:304-309 | a tag is appended iff it is non-empty and absent |
| Admin.AddTagKeepsDistinct | apps/web/app/admin/page.tsx:304-309 | adding keeps the tag list duplicate-free |
| Admin.RemoveTag | apps/web/app/admin/page.tsx:311-313 | removal drops every copy of the tag and keeps the others in order |
| Admin.RemoveUndoesAdd | apps/web/app/admin/page.tsx:304-313 | removing a tag just added restores the list |
| Admin.AdminPage.constructor | apps/web/app/admin/page.tsx:43-47 | no selection, the given tree, and the three roots expanded |
| Admin.AdminPage.ToggleExpanded | apps/web/app/admin/page.tsx:49-59 | the expanded set is toggled at one id; the tree and the selection are unchanged |
| Admin.AdminPage.HandleNodeUpdate | apps/web/app/admin/page.tsx:61-64 | the tree is replaced by id, the edited node becomes selected, and the expanded set is unchanged |
| Admin.AdminPage.HandleAddNode | apps/web/app/admin/page.tsx:66-91 | exactly one new node is appended and selected; a non-null parent becomes expanded |
| Admin.AdminPage.HandleDeleteNode | apps/web/app/admin/page.tsx:93-106 | the tree loses exactly the subtree's ids; the selection is cleared iff it was deleted |
| Admin.DeletionKeeps | apps/web/app/admin/page.tsx:93-106 | a node survives deletion iff it is neither the deleted node nor below it |
| NotesApi.Bucket | apps/api/src/routes/notes.ts:71-79 | a bucket holds, in input order, exactly the nodes with that non-empty `parent_id` |
| NotesApi.BucketSnoc | apps/api/src/routes/notes.ts:77 | pushing a node extends exactly its parent's bucket |
| NotesApi.LookupStep | apps/api/src/routes/notes.ts:73-77 | one push keeps every bucket lookup in step with the nodes seen |
| NotesApi.IndexStep | apps/api/src/routes/notes.ts:72-78 | one loop step keeps the dictionary equal to the buckets, with no empty entries |
| NotesApi.BuildIndex | apps/api/src/routes/notes.ts:71-79 | the dictionary maps each parent id to its bucket, and has a key iff the bucket is non-empty; top-level nodes are in no bucket |
| NotesApi.SubsequenceSorted | apps/api/src/routes/notes.ts:26 | an order-preserving selection from a list sorted by `sort_order` is sorted |
| NotesApi.BucketsSorted | apps/api/src/routes/notes.ts:26 | input sorted by `sort_order` gives sorted buckets |
| NotesApi.ExpandSnoc | apps/api/src/routes/notes.ts:86-91 | expanding one more queued id appends that id's bucket, contiguously |
| NotesApi.ExpandMember | apps/api/src/routes/notes.ts:86-88 | every expanded node is a child of some expanded id |
| NotesApi.ExpandContains | apps/api/src/routes/notes.ts:86-88 | every child of an expanded id is collected |
| NotesApi.ChildIsNew | apps/api/src/routes/notes.ts:86-91 | on an acyclic list, a child of the dequeued id has not been queued before |
| NotesApi.NewChildren | apps/api/src/routes/notes.ts:86-91 | every child of the dequeued id is a new descendant one level deeper |
| NotesApi.QueueStep | apps/api/src/routes/notes.ts:91 | the queue stays free of duplicates |
| NotesApi.LengthStep | apps/api/src/routes/notes.ts:88-91 | the descendants never outnumber the nodes, which bounds the walk |
| NotesApi.DepthStep | apps/api/src/routes/notes.ts:88 | the i-th collected node lies within i levels below the root |
| NotesApi.WalkStep | apps/api/src/routes/notes.ts:83-92 | one loop iteration preserves the walk invariant (queue is the root then the descendants' ids, distinct, expanded up to i) |
| NotesApi.EnqueueIds | apps/api/src/routes/notes.ts:91 | the `forEach` appends the children's ids in order |
| NotesApi.WalkComplete | apps/api/src/routes/notes.ts:82-92 | when every queued id has been expanded, the result is exactly the root's proper descendants, never the root, and empty for a childless root |
| NotesApi.ClosedUnderChildren | apps/api/src/routes/notes.ts:82-92 | a completed walk contains every node reachable below the root |
| NotesApi.Descendants | apps/api/src/routes/notes.ts:63-95 | the breadth-first walk returns each proper descendant of the root exactly once, in breadth-first order, never the root |
| NotesApi.GetTree | apps/api/src/routes/notes.ts:20-101 | 404 iff a root slug was given and not found; 500 on a failed fetch; without a root, the whole list and a null root; with one, exactly its descendants, in the breadth-first order of the queue |
| NotesApi.GetContent | apps/api/src/routes/notes.ts:116-153 | 404 iff the node is missing; the body is attached iff the node is a post with a `post_id` and the body fetch succeeded |
| NotesTree.ChildrenOfEach | apps/web/components/notes/notes-tree.tsx:97 | the flattened child lists hold exactly the children of the given nodes |
| NotesTree.BlockMembers | apps/web/components/notes/notes-tree.tsx:97 | one root's block holds exactly its children and grandchildren |
| NotesTree.BlocksMembers | apps/web/components/notes/notes-tree.tsx:96-98 | the concatenated blocks hold exactly the members of each root's block |
| NotesTree.PoolOnlyTopLevels | apps/web/components/notes/notes-tree.tsx:96-98 | the pool holds only nodes at depth 0 to 2 |
| NotesTree.Level1InPool | apps/web/components/notes/notes-tree.tsx:96-98 | every child of a top-level node is in the pool |
| NotesTree.Level2InPool | apps/web/components/notes/notes-tree.tsx:96-98 | every grandchild of a top-level node is in the pool |
| NotesTree.PoolMembers | apps/web/components/notes/notes-tree.tsx:96-98 | pool membership is exactly "a listed node at depth 0 to 2" |
| NotesTree.PoolClosed | apps/web/components/notes/notes-tree.tsx:96-98 | every pool node's parent, when present, comes earlier in the pool |
| NotesTree.PoolParent | apps/web/components/notes/notes-tree.tsx:101 | the parent found in the pool has the node's `parent_id`; none is found iff the parent id is empty or absent from the pool |
| NotesTree.ParentRanksLower | apps/web/components/notes/notes-tree.tsx:100-104 | the parent lies strictly earlier in the pool, so the walk ends |
| NotesTree.WalkUpLinks | apps/web/components/notes/notes-tree.tsx:100-108 | the upward walk links each element to the next by parenthood and stops where no parent is found in the pool |
| NotesTree.PoolAncestorsStep | apps/web/components/notes/notes-tree.tsx:100-108 | one step of the walk prepends the parent |
| NotesTree.NodePath | apps/web/components/notes/notes-tree.tsx:93-111 | the path is non-empty and ends with the node's name |
| NotesTree.PathStateStep | apps/web/components/notes/notes-tree.tsx:102-104 | an `unshift` step keeps the path equal to the ancestors still to visit plus the chain so far |
| NotesTree.PathStateDone | apps/web/components/notes/notes-tree.tsx:100-108 | when the loop stops, the chain is all the pool ancestors and the node |
| NotesTree.GetNodePath | apps/web/components/notes/notes-tree.tsx:93-111 | the `while` loop computes exactly the node path |
| NotesTree.ChainInPool | apps/web/components/notes/notes-tree.tsx:96-98 | the first three nodes of a chain from a root are in the pool |
| NotesTree.ChainLevels | apps/web/components/notes/notes-tree.tsx:96-98 | the fourth node of a chain and deeper ones are at depth 3 or more |
| NotesTree.ChainNotInPool | apps/web/components/notes/notes-tree.tsx:96-98 | nodes at depth 3 or more are outside the pool |
| NotesTree.ChainParent | apps/web/components/notes/notes-tree.tsx:101 | along a chain, the pool lookup finds the previous node exactly when that node is in the pool |
| NotesTree.WalkUpChain | apps/web/components/notes/notes-tree.tsx:100-108 | for a node at depth at most 3, the pool ancestors are its whole chain from the root |
| NotesTree.ShallowNodePath | apps/web/components/notes/notes-tree.tsx:93-111 | a node at depth at most 3 gets its full root-to-node name path, the names of its breadcrumbs |
| NotesTree.DeepNodePath | apps/web/components/notes/notes-tree.tsx:93-111 | a deeper node gets only its own name |
| NotesTree.TopOfPoolPath | apps/web/components/notes/notes-tree.tsx:93-111 | a node whose parent is not in the pool gets only its own name |
| NotesTree.NodePathRoundTrip | apps/web/components/notes/notes-tree.tsx:93-111 | with unique sibling names and depth at most 3, resolving the node path finds the node |
| NotesTree.IsActiveIffSamePath | apps/web/components/notes/notes-tree.tsx:44 | for non-empty paths of slash-free names, the joined paths are equal iff the paths are equal |
| NotesTree.EmptyPathMatchesEmptyName | apps/web/components/notes/notes-tree.tsx:44 | an empty current path is active for a node named by the empty string |
| NotesTree.HrefSplits | apps/web/components/notes/notes-tree.tsx:69 | splitting the part of the link after `/notes/` at `/` gives back the path, for a non-empty path whose segments hold no `/` |
| NotesTree.HrefFindsNode | apps/web/components/notes/notes-tree.tsx:69 | the notes page (`app/notes/[[...path]]/page.tsx`) looks up the segments of a node's link with `getNodeByPath` and finds that node, at depth at most 3 with unique sibling names and no `/` in names |
| NotesTree.NotesTreeState.constructor | apps/web/components/notes/notes-tree.tsx:114-116 | the three roots start expanded |
| NotesTree.NotesTreeState.ToggleExpanded | apps/web/components/notes/notes-tree.tsx:118-128 | the expanded set is toggled at the given id only |
| Articles.ClearFilters | apps/web/components/articles/articles-content.tsx:54-58 | after clearing, no filter is active |
| Articles.InactiveIffCleared | apps/web/components/articles/articles-content.tsx:54-60 | no filter is active iff the state is the cleared one |
| Articles.InitialFilters | apps/web/components/articles/articles-content.tsx:16-20 | the category comes from a non-empty query parameter, otherwise `"all"`; no tags and no search text |
| Articles.KeepIffEachFilter | apps/web/components/articles/articles-content.tsx:27-46 | a post is kept iff it passes the category, tag and search filters |
| Articles.FilteredPosts | apps/web/components/articles/articles-content.tsx:25-46 | the result is an order-preserving sub-multiset of the listed posts, holding exactly those that pass all three filters |
| Articles.InactiveShowsAll | apps/web/components/articles/articles-content.tsx:29-45 | with every filter off, all listed posts are shown |
| Articles.MoreTagsWiden | apps/web/components/articles/articles-content.tsx:33 | once a tag is selected, selecting one more can only widen the list |
| Articles.FirstTagNarrows | apps/web/components/articles/articles-content.tsx:33 | selecting the first tag can only narrow the list |
| Articles.UntaggedHiddenByTags | apps/web/components/articles/articles-content.tsx:33 | a post without tags fails any active tag filter |
| Articles.ToggleTag | apps/web/components/articles/articles-content.tsx:50-52 | a selected tag is removed and an unselected one added; other tags, category and search are untouched |
| Articles.UnselectAppended | apps/web/components/articles/articles-content.tsx:51 | removing a tag just appended to a selection without it gives the selection back |
| Articles.ToggleKeepsDistinct | apps/web/components/articles/articles-content.tsx:50-52 | toggling keeps the selection duplicate-free |
| Articles.ToggleTwiceSameTags | apps/web/components/articles/articles-content.tsx:50-52 | toggling twice selects the same set of tags |
| Articles.ToggleTwiceRestores | apps/web/components/articles/articles-content.tsx:50-52 | toggling twice restores the exact selection when the tag was unselected or selected last |
| Articles.ToggleTwiceSameList | apps/web/components/articles/articles-content.tsx:25-52 | toggling a tag twice always restores the shown list |
| Articles.SameSelectionSameList | apps/web/components/articles/articles-content.tsx:25-46 | the shown list depends only on the category, the search text and the set of selected tags, not on their order |
| TableOfContents.Normalize | apps/web/components/markdown/table-of-contents.tsx:18 | the result never shrinks to nothing, never grows, and holds no literal backslash-n pair |
| TableOfContents.NormalizeUndoesEscape | apps/web/components/markdown/table-of-contents.tsx:18 | normalising text whose newlines were written as backslash-n gives back the text |
| TableOfContents.NormalizeNoBackslash | apps/web/components/markdown/table-of-contents.tsx:18 | text without a backslash is unchanged |
| TableOfContents.LastTextStart | apps/web/components/markdown/table-of-contents.tsx:20 | the backtracking point of `\s+(.+)$` is the last admissible start of the heading text |
| TableOfContents.MatchAt | apps/web/components/markdown/table-of-contents.tsx:20 | a match found at a position is a heading match there: one to three `#` at a line start, white space, and text up to a line end |
| TableOfContents.MatchAtComplete | apps/web/components/markdown/table-of-contents.tsx:20 | wherever a heading match exists, the matcher finds one at that position with the same level and the latest text start, which is where the greedy `\s+` leaves `(.+)` |
| TableOfContents.FourHashesNeverMatch | apps/web/components/markdown/table-of-contents.tsx:20 | four `#` at a line start never form a heading |
| TableOfContents.LevelCountsHashes | apps/web/components/markdown/table-of-contents.tsx:24 | the level equals the number of leading `#` |
| TableOfContents.Exec | apps/web/components/markdown/table-of-contents.tsx:23 | `exec` returns the first match at or after `lastIndex`; none exists before it |
| TableOfContents.ExecFinds | apps/web/components/markdown/table-of-contents.tsx:23 | when a heading match exists at or after `lastIndex`, `exec` finds one no later than it |
| TableOfContents.MatchesFrom | apps/web/components/markdown/table-of-contents.tsx:20-23 | the successive matches are heading matches, in document order and non-overlapping |
| TableOfContents.MatchesFromComplete | apps/web/components/markdown/table-of-contents.tsx:20-23 | every heading line of the text is covered by some match |
| TableOfContents.CoveringMatch | apps/web/components/markdown/table-of-contents.tsx:20-23 | names the visited match that covers a given heading match |
| TableOfContents.CollapseRuns | apps/web/components/markdown/table-of-contents.tsx:28 | after replacing every run of non-id characters by one `-`, the result holds only id characters and `-`, and has no `--` |
| TableOfContents.CollapseKeepsIdChars | apps/web/components/markdown/table-of-contents.tsx:28 | collapsing keeps the id characters, in order |
| TableOfContents.CollapseFixesSlugs | apps/web/components/markdown/table-of-contents.tsx:28 | collapsing leaves a well-formed id unchanged |
| TableOfContents.StripDashes | apps/web/components/markdown/table-of-contents.tsx:29 | stripping never lengthens the text |
| TableOfContents.StripDashesWellFormed | apps/web/components/markdown/table-of-contents.tsx:29 | after stripping, the id neither starts nor ends with `-` |
| TableOfContents.StripDashesKeepsIdChars | apps/web/components/markdown/table-of-contents.tsx:29 | stripping keeps the id characters |
| TableOfContents.SlugWellFormed | apps/web/components/markdown/table-of-contents.tsx:26-29 | an id holds only lower-case letters, digits, kana, CJK and `-`, has no `--`, no `-` at either end, and keeps the lower-cased text's id characters |
| TableOfContents.SlugOfSlug | apps/web/components/markdown/table-of-contents.tsx:26-29 | a well-formed id is its own slug |
| TableOfContents.SlugIdempotent | apps/web/components/markdown/table-of-contents.tsx:26-29 | slugging twice is slugging once |
| TableOfContents.TracksSnoc | apps/web/components/markdown/table-of-contents.tsx:31 | pushing an item keeps the items in step with the matches |
| TableOfContents.ResumesStep | apps/web/components/markdown/table-of-contents.tsx:23 | each `exec` advances `lastIndex` past its match, and the rest of the scan is the rest of the matches |
| TableOfContents.ResumesDone | apps/web/components/markdown/table-of-contents.tsx:23 | when `exec` finds nothing, every match has been seen |
| TableOfContents.ScanHeadings | apps/web/components/markdown/table-of-contents.tsx:19-34 | the `while (exec)` loop yields one item per match, in document order |
| TableOfContents.ExtractHeadings | apps/web/components/markdown/table-of-contents.tsx:17-35 | the headings of the normalised content, absent content reading as empty |
| TableOfContents.ItemWellFormed | apps/web/components/markdown/table-of-contents.tsx:23-31 | an item's level is 1 to 3, its text is a non-empty single line, and its id is the well-formed slug of the text |
| TableOfContents.HeadingsWellFormed | apps/web/components/markdown/table-of-contents.tsx:17-35 | every extracted heading is well formed in that sense |
| MarkdownRenderer.ReplaceChar | apps/web/components/markdown/markdown-renderer.tsx:61-65 | a replaced character no longer occurs (unless the replacement holds it), nothing new appears, and the text does not shrink |
| MarkdownRenderer.EscapeHtml | apps/web/components/markdown/markdown-renderer.tsx:59-66 | the output holds no `<`, `>`, `"` or `'`, and is at least as long as the input |
| MarkdownRenderer.ReplaceCharAppend | apps/web/components/markdown/markdown-renderer.tsx:61-65 | a global replace distributes over concatenation |
| MarkdownRenderer.EscapeHtmlAppend | apps/web/components/markdown/markdown-renderer.tsx:59-66 | escaping distributes over concatenation |
| MarkdownRenderer.EscapeHtmlChar | apps/web/components/markdown/markdown-renderer.tsx:59-66 | escaping one character gives its entity, or the character itself when it is not special |
| MarkdownRenderer.EscapeHtmlPerChar | apps/web/components/markdown/markdown-renderer.tsx:59-66 | the replace chain escapes character by character, so characters other than the five are unchanged |
| MarkdownRenderer.UnescapeEscapeChar | apps/web/components/markdown/markdown-renderer.tsx:60-65 | decoding one escaped character gives it back, whatever follows |
| MarkdownRenderer.UnescapeEscapeEach | apps/web/components/markdown/markdown-renderer.tsx:60-65 | decoding a per-character escape gives back the text |
| MarkdownRenderer.UnescapeEscapeHtml | apps/web/components/markdown/markdown-renderer.tsx:60-65 | because `&` is escaped first, decoding the five entities recovers the input |
| MarkdownRenderer.MapLinesCompose | apps/web/components/markdown/markdown-renderer.tsx:25-31 | two successive line rewrites equal one rewrite by their composition |
| MarkdownRenderer.PrefixRule | apps/web/components/markdown/markdown-renderer.tsx:25-30 | a rule over one line yields one line |
| MarkdownRenderer.PrefixRuleHit | apps/web/components/markdown/markdown-renderer.tsx:25-30 | a line with the prefix and non-empty text is wrapped in the tag |
| MarkdownRenderer.PrefixRuleMiss | apps/web/components/markdown/markdown-renderer.tsx:25-30 | a line without the prefix is unchanged |
| MarkdownRenderer.RulesKeepOneLine | apps/web/components/markdown/markdown-renderer.tsx:25-31 | every rewrite rule maps a line to a line |
| MarkdownRenderer.LinePasses | apps/web/components/markdown/markdown-renderer.tsx:25-31 | the five global replaces equal one per-line rewrite |
| MarkdownRenderer.TagLineUnchanged | apps/web/components/markdown/markdown-renderer.tsx:26-31 | a line already turned into a tag is left alone by the later rules |
| MarkdownRenderer.H3Line | apps/web/components/markdown/markdown-renderer.tsx:25 | a `### x` line becomes an `h3` and never an `h2` or `h1` |
| MarkdownRenderer.H2Line | apps/web/components/markdown/markdown-renderer.tsx:26 | a `## x` line becomes an `h2` |
| MarkdownRenderer.H1Line | apps/web/components/markdown/markdown-renderer.tsx:27 | a `# x` line becomes an `h1` |
| MarkdownRenderer.DiscLine | apps/web/components/markdown/markdown-renderer.tsx:30 | a `- x` line becomes a disc list item |
| MarkdownRenderer.DecimalLine | apps/web/components/markdown/markdown-renderer.tsx:31 | an `N. x` line becomes a decimal list item holding `x` |
| MarkdownRenderer.DeepHeadingUnchanged | apps/web/components/markdown/markdown-renderer.tsx:25-31 | a line starting with `####` is left unchanged |
| MarkdownRenderer.WrapChunk | apps/web/components/markdown/markdown-renderer.tsx:36-50 | block-opening chunks pass unchanged, chunks whose trimmed form starts with `<li` are wrapped in `ul`, all others in `p` |
| MarkdownRenderer.Blocks | apps/web/components/markdown/markdown-renderer.tsx:34-50 | there is one output block per `\n\n` chunk |
| MarkdownRenderer.UnwrapWrapChunk | apps/web/components/markdown/markdown-renderer.tsx:36-50 | wrapping loses nothing: the chunk can be read back from its block |
| MarkdownRenderer.ParagraphPassNoBlankLine | apps/web/components/markdown/markdown-renderer.tsx:34-51 | the output starts with a tag and holds no blank line, so no chunk boundary survives the join |
| MarkdownRenderer.ParagraphPassKeepsText | apps/web/components/markdown/markdown-renderer.tsx:34-51 | one block per chunk, and unwrapping the blocks and rejoining them gives back the text |
| PostsApi.Range | apps/api/src/routes/posts.ts:36-37 | the inclusive range has exactly `limit` slots and starts at or after 0 for page at least 1 |
| PostsApi.RequestRange | apps/api/src/routes/posts.ts:32-37 | absent parameters mean page 1 and limit 20, the range 0..19 |
| PostsApi.NextPageFollows | apps/api/src/routes/posts.ts:36-37 | page p+1 starts right after page p ends |
| PostsApi.PagesDisjoint | apps/api/src/routes/posts.ts:36-37 | distinct pages never overlap |
| PostsApi.PageOf | apps/api/src/routes/posts.ts:36-37 | every row index lies on some page |
| PostsApi.OnlyPage | apps/api/src/routes/posts.ts:36-37 | and on only that page |
| PostsApi.PostIds | apps/api/src/routes/posts.ts:76 | the ids are the rows' `post_id`s, in row order |
| PostsApi.PostIdsAppend | apps/api/src/routes/posts.ts:76 | the mapping distributes over concatenation |
| PostsApi.PostIdsMembership | apps/api/src/routes/posts.ts:76 | an id is listed iff some row carries it |
| PostsApi.PlanList | apps/api/src/routes/posts.ts:28-93 | a failed tag lookup is an error; a tag with no posts short-circuits before the query; otherwise the query carries exactly the given filters and the page range |
| PostsApi.ListPosts | apps/api/src/routes/posts.ts:28-121 | errors answer 500 with the error's message; an unmatched tag answers `{items: [], total: 0}`; otherwise one summary per row and the query's count |
| PostsApi.PresentTags | apps/api/src/routes/posts.ts:145 | null tag entries are dropped and every present one is kept |
| PostsApi.PresentTagsAll | apps/api/src/routes/posts.ts:145 | when every entry is present, all are kept in order |
| PostsApi.TagNames | apps/api/src/routes/posts.ts:107 | the names are non-empty and no more than the entries |
| PostsApi.TagNamesOfPresent | apps/api/src/routes/posts.ts:107 | the names are, in order, the non-empty names of the present tags |
| PostsApi.TagNamesMembership | apps/api/src/routes/posts.ts:107 | a name is listed iff it is non-empty and some present tag has it |
| PostsApi.TagNamesAllNamed | apps/api/src/routes/posts.ts:107 | when every tag is present and named, every name is kept in order |
| PostsApi.Summary | apps/api/src/routes/posts.ts:104-118 | a summary copies the row's fields and flattens its tags to their names |
| PostsApi.NoteNodeId | apps/api/src/routes/posts.ts:148 | the first note-node id, or none if there is none |
| PostsApi.GetPost | apps/api/src/routes/posts.ts:130-163 | a failed lookup answers 404; otherwise the detail copies the post, keeps its present tags and its first note node |

## Left out

- Database queries, HTTP routing and status mapping are left out. Their results are parameters: option and result values, and the `fetch` function of `PostsApi.ListPosts`. This covers `eq`, `in`, `or`/`ilike`, `range`, `order`, `count` and `single`.
- React rendering, hooks and styling are left out. The state updaters are functions, or methods of a class holding the page state.
- The database's `order('sort_order')` and `order('published_date')` are not computed. `NotesApi.BucketsSorted` takes the sorted input as a precondition.
- `Date.now()` and `toISOString` are parameters of `Admin.NewNode` and `Admin.AdminPage.HandleAddNode`: `idNow` and `slugNow` for the two separate clock readings (id and slug, which can differ), and `today` for the date.
- The fenced-code and inline-code regular expressions (`apps/web/components/markdown/markdown-renderer.tsx:15-22`) depend on regex-engine behaviour. They are not modelled. `MarkdownRenderer.RenderBlocks` takes the text as it stands after those two replaces.
- `apps/api/src/routes/tags.ts` is not part of this model. It only reshapes a count from the database.
- Articles.FilteredPosts: the date sort at `apps/web/components/articles/articles-content.tsx:47` is not modelled, because `new Date("")` is NaN and the comparator is ill-defined. The result is the filter's output before sorting.
- Articles.ToggleTwiceRestores: requires the tag to be unselected or selected last. Toggling an earlier-selected tag twice moves it to the end of the selection. `Articles.ToggleTwiceSameTags` and `Articles.ToggleTwiceSameList` hold without that condition.
- Text.Lower: lower-cases ASCII letters only. JavaScript's Unicode `toLowerCase` is not modelled, so the search filter and the anchor ids treat other characters as their own lower case.
- Tree.GetAllTags: orders tags by code point. JavaScript's default sort compares UTF-16 code units, and the two differ only for characters outside the Basic Multilingual Plane.
- PostsApi.RequestRange: `page` and `limit` are integers, and `None` stands for a missing or empty parameter. `Number()` parsing, NaN and fractional values are not modelled.
- PostsApi.Range: states the slot count and the start for any limit. A negative or zero limit, which the source does not reject, gives an empty or inverted range, and what the database does with it is not modelled.
- PostsApi.ListPosts: the `ilike` search, the `in` filter and the count are done by the database. The model states only how the request shapes the query and how rows become summaries.
- Tree.Breadcrumbs and Tree.GetBreadcrumbs: require `WalkEnds`, that the walk up from the given node reaches a top node within `|nodes|` steps. That is exactly when the source's `while` loop ends; when the walk enters a cycle of parent links the source loops forever. Cycles elsewhere in the list are allowed.
- Admin.CollectIds and Admin.AdminPage.HandleDeleteNode: require the subtree to have bounded depth. On a cycle below the deleted node the source recursion exhausts the call stack and throws a `RangeError`; `handleDeleteNode` then stops before `setTreeData`, leaving the tree, the selection and the expanded set as they were. The model does not cover that failure.
- NotesApi.Descendants and NotesApi.GetTree: when a root is given, require unique ids and an acyclic parent relation over the whole list. The source queue grows forever only when a parent cycle is reachable below the root, or when a duplicate id makes a node's children enqueue again; other lists the source handles and the model excludes. Without a root the list is returned unchanged and nothing is required.
- NotesApi.BuildIndex and NotesApi.Lookup: ids are assumed not to name `Object.prototype` properties (`constructor`, `toString`, `__proto__`, ...). The source keys a plain object `{}`, so such a parent id makes `.push` or the spread of `nodesByParent[parentId] || []` throw and `GET /tree` fail, where the model's map answers normally.
- TreePaths.BreadcrumbsDownChain, TreePaths.BreadcrumbPathFindsNode, NotesTree.ShallowNodePath, NotesTree.DeepNodePath, NotesTree.DeepParentNotPooled, NotesTree.NodePathRoundTrip and NotesTree.HrefFindsNode: require unique ids, no dangling parent ids and `WalkEnds` for the node (the walk up from it enters no cycle; cycles elsewhere in the list are allowed); the NotesTree lemmas also require no empty ids, and the round trips unique sibling names. The source guarantees none of these. TreePaths.PathBreadcrumbsSpellPath needs unique ids only.
- NotesTree.HrefSplits and NotesTree.HrefFindsNode: the browser's percent-encoding of the link and the router's decoding of each segment are not modelled; a segment is taken to reach the page unchanged.
- `Admin.CanDelete` and `Admin.CanAddChild` model when the delete and add-child menu entries are shown (`apps/web/app/admin/page.tsx:238, 255`). They are plain predicates with nothing further to prove.
- Breadcrumb and notes-tree rendering beyond the path, the link and the active flag is not modelled.

/** The article list page (`articles-content.tsx`): the posts of the content tree
    narrowed by a category, a set of selected tags and a free-text search, and the
    three state updates the page offers (toggling a tag, clearing every filter and
    the initial state read from the `category` query parameter). */
module Articles {
  import opened Wrappers
  import opened Seqs
  import opened Text
  import opened Tree

  /** The page's filter state: `selectedCategory`, `selectedTags`, `searchQuery`. */
  datatype Filters = Filters(category: string, tags: seq<string>, query: string)

  /** The category value that switches the category filter off. */
  const AllCategories: string := "all"

  /** The state every filter is switched off in. */
  function ClearFilters(): (f: Filters)
    ensures !HasActiveFilters(f)
  {
    Filters(AllCategories, [], "")
  }

  /** `hasActiveFilters`: some filter narrows the list. */
  predicate HasActiveFilters(f: Filters) {
    f.category != AllCategories || |f.tags| > 0 || f.query != ""
  }

  /** "No filter is active" means exactly "the state is the cleared one". */
  lemma InactiveIffCleared(f: Filters)
    ensures !HasActiveFilters(f) <==> f == ClearFilters()
  {
    if !HasActiveFilters(f) {
      assert f.tags == [];
    }
  }

  /** The state on first render: the `category` search parameter when it is a
      non-empty string, otherwise `"all"`; no tag and no search text. */
  function InitialFilters(categoryParam: Option<string>): (f: Filters)
    ensures f.tags == [] && f.query == ""
    ensures f.category != ""
    ensures !Truthy(categoryParam) ==> f == ClearFilters()
    ensures Truthy(categoryParam) ==> f.category == categoryParam.value
    ensures HasActiveFilters(f) <==> Truthy(categoryParam) && categoryParam.value != AllCategories
  {
    Filters(if Truthy(categoryParam) then categoryParam.value else AllCategories, [], "")
  }

  /* ---------------- the filter predicate ---------------- */

  /** The search text, lower-cased, occurs in the title, the excerpt or one of the
      tags, each lower-cased; an absent field does not match. */
  predicate MatchesQuery(post: TreeNode, lowered: string) {
    (post.title.Some? && IsInfix(lowered, Lower(post.title.value))) ||
    (post.excerpt.Some? && IsInfix(lowered, Lower(post.excerpt.value))) ||
    (post.tags.Some? && exists t :: t in post.tags.value && IsInfix(lowered, Lower(t)))
  }

  /** The callback given to `allPosts.filter`, with its three early exits in order. */
  predicate Keep(post: TreeNode, f: Filters) {
    if f.category != AllCategories && post.category != Some(f.category) then false
    else if |f.tags| > 0 && !(exists t :: t in f.tags && HasTag(post, t)) then false
    else if f.query != "" then MatchesQuery(post, Lower(f.query))
    else true
  }

  /** The category filter on its own: off, or the post is in that category. A post
      without a category passes only when the filter is off. */
  predicate InCategory(post: TreeNode, f: Filters) {
    f.category == AllCategories || post.category == Some(f.category)
  }

  /** The tag filter on its own: off, or the post carries at least one selected tag. */
  predicate HasSelectedTag(post: TreeNode, f: Filters) {
    f.tags == [] || exists t :: t in f.tags && HasTag(post, t)
  }

  /** The search filter on its own: off, or the text matches ignoring case. */
  predicate MatchesSearch(post: TreeNode, f: Filters) {
    f.query == "" || MatchesQuery(post, Lower(f.query))
  }

  /** The three filters are independent: a post is kept exactly when it passes each. */
  lemma KeepIffEachFilter(post: TreeNode, f: Filters)
    ensures Keep(post, f) <==> InCategory(post, f) && HasSelectedTag(post, f) && MatchesSearch(post, f)
  {
    assert |f.tags| > 0 <==> f.tags != [];
  }

  /** `filteredPosts` before its date sort: the listed posts that pass every filter,
      in their original order. */
  function FilteredPosts(nodes: seq<TreeNode>, f: Filters): (r: seq<TreeNode>)
    ensures IsSubsequence(r, AllPosts(nodes))
    ensures forall x :: multiset(r)[x] <= multiset(AllPosts(nodes))[x]
    ensures forall p :: p in r <==>
      p in AllPosts(nodes) && InCategory(p, f) && HasSelectedTag(p, f) && MatchesSearch(p, f)
  {
    forall p ensures Keep(p, f) <==> InCategory(p, f) && HasSelectedTag(p, f) && MatchesSearch(p, f) {
      KeepIffEachFilter(p, f);
    }
    Filter(AllPosts(nodes), (p: TreeNode) => Keep(p, f))
  }

  /** With no filter active every listed post is shown, in its original order. */
  lemma InactiveShowsAll(nodes: seq<TreeNode>, f: Filters)
    requires !HasActiveFilters(f)
    ensures FilteredPosts(nodes, f) == AllPosts(nodes)
  {
    FilterAll(AllPosts(nodes), (p: TreeNode) => Keep(p, f));
  }

  /** Once some tag is selected, selecting one more can only widen the list (the
      selected tags are alternatives). */
  lemma MoreTagsWiden(nodes: seq<TreeNode>, f: Filters, tag: string)
    requires f.tags != []
    ensures forall p :: p in FilteredPosts(nodes, f) ==> p in FilteredPosts(nodes, f.(tags := f.tags + [tag]))
  {
    var g := f.(tags := f.tags + [tag]);
    forall p | p in FilteredPosts(nodes, f) ensures p in FilteredPosts(nodes, g) {
      var t :| t in f.tags && HasTag(p, t);
      assert t in g.tags;
    }
  }

  /** Selecting the first tag can only narrow the list. */
  lemma FirstTagNarrows(nodes: seq<TreeNode>, f: Filters)
    ensures forall p :: p in FilteredPosts(nodes, f) ==> p in FilteredPosts(nodes, f.(tags := []))
  {
  }

  /** A post without tags never passes a tag filter that is on. */
  lemma UntaggedHiddenByTags(nodes: seq<TreeNode>, f: Filters, p: TreeNode)
    requires f.tags != [] && p.tags.None?
    ensures p !in FilteredPosts(nodes, f)
  {
  }

  /* ---------------- toggling a tag ---------------- */

  /** `toggleTag(tag)`: a selected tag is removed (every copy of it), an unselected
      one is appended; the category and the search text are untouched. */
  function ToggleTag(f: Filters, tag: string): (g: Filters)
    ensures g.category == f.category && g.query == f.query
    ensures tag in g.tags <==> tag !in f.tags
    ensures forall t :: t != tag ==> (t in g.tags <==> t in f.tags)
  {
    f.(tags := if tag in f.tags then Unselect(f.tags, tag) else f.tags + [tag])
  }

  /** `selectedTags.filter((t) => t !== tag)`. */
  function Unselect(tags: seq<string>, tag: string): seq<string> {
    Filter(tags, (t: string) => t != tag)
  }

  /** Removing a tag just appended to a selection without it gives the selection back. */
  lemma UnselectAppended(tags: seq<string>, tag: string)
    requires tag !in tags
    ensures Unselect(tags + [tag], tag) == tags
  {
    var notTag := (t: string) => t != tag;
    FilterAppend(tags, [tag], notTag);
    FilterAll(tags, notTag);
    assert Filter([tag], notTag) == [];
  }

  /** Toggling keeps the selection free of duplicates. */
  lemma ToggleKeepsDistinct(f: Filters, tag: string)
    requires Distinct(f.tags)
    ensures Distinct(ToggleTag(f, tag).tags)
  {
    if tag in f.tags {
      SubsequenceDistinct(ToggleTag(f, tag).tags, f.tags);
    } else {
      DistinctConcat(f.tags, [tag]);
    }
  }

  /** Toggling the same tag twice selects the same tags as before. */
  lemma ToggleTwiceSameTags(f: Filters, tag: string)
    ensures forall t :: t in ToggleTag(ToggleTag(f, tag), tag).tags <==> t in f.tags
  {
  }

  /** Toggling the same tag twice restores the exact selection when the tag was not
      selected, or was the one selected last (a tag selected earlier moves to the end). */
  lemma ToggleTwiceRestores(f: Filters, tag: string)
    requires Distinct(f.tags)
    requires tag !in f.tags || f.tags[|f.tags| - 1] == tag
    ensures ToggleTag(ToggleTag(f, tag), tag) == f
  {
    if tag !in f.tags {
      UnselectAppended(f.tags, tag);
      assert tag in f.tags + [tag];
    } else {
      var front := f.tags[..|f.tags| - 1];
      assert f.tags == front + [tag];
      assert tag !in front by {
        forall i | 0 <= i < |front| ensures front[i] != tag {
          assert front[i] == f.tags[i];
        }
      }
      UnselectAppended(front, tag);
    }
  }

  /** The shown posts depend only on which tags are selected, so toggling a tag twice
      always restores the list. */
  lemma ToggleTwiceSameList(nodes: seq<TreeNode>, f: Filters, tag: string)
    ensures FilteredPosts(nodes, ToggleTag(ToggleTag(f, tag), tag)) == FilteredPosts(nodes, f)
  {
    var g := ToggleTag(ToggleTag(f, tag), tag);
    ToggleTwiceSameTags(f, tag);
    SameSelectionSameList(nodes, g, f);
  }

  /** Two states with the same category, search text and set of selected tags show
      the same list, whatever the order of the tags. */
  lemma SameSelectionSameList(nodes: seq<TreeNode>, f: Filters, g: Filters)
    requires f.category == g.category && f.query == g.query
    requires forall t :: t in f.tags <==> t in g.tags
    ensures FilteredPosts(nodes, f) == FilteredPosts(nodes, g)
  {
    assert f.tags == [] <==> g.tags == [] by {
      if f.tags != [] {
        assert f.tags[0] in g.tags;
      }
      if g.tags != [] {
        assert g.tags[0] in f.tags;
      }
    }
    var posts := AllPosts(nodes);
    forall i | 0 <= i < |posts| ensures Keep(posts[i], f) == Keep(posts[i], g) {
      KeepIffEachFilter(posts[i], f);
      KeepIffEachFilter(posts[i], g);
    }
    FilterAgree(posts, (p: TreeNode) => Keep(p, f), (p: TreeNode) => Keep(p, g));
  }
}

/** The posts API (`apps/api/src/routes/posts.ts`): the page range of `GET /posts`,
    the two-step tag filter with its early empty answer, and the reshaping of the
    database rows into `PostSummary` and `PostDetail`. The database is not modelled:
    what each query returns is a parameter. */
module PostsApi {
  import opened Wrappers
  import opened Seqs
  import opened Text
  import opened ApiTypes

  /* ---------------- pagination ---------------- */

  const DefaultPage: int := 1
  const DefaultLimit: int := 20

  /** The inclusive row range handed to `range(from, to)`. */
  datatype PageRange = PageRange(from: int, to: int)

  /** `from = (page - 1) * limit`, `to = from + limit - 1`. */
  function Range(page: int, limit: int): (r: PageRange)
    ensures r.to - r.from + 1 == limit
    ensures page >= 1 && limit >= 0 ==> r.from >= 0
  {
    var from := (page - 1) * limit;
    PageRange(from, from + limit - 1)
  }

  /** The range for the request's `page` and `limit`; `None` stands for a parameter
      that is absent or empty, which falls back to page 1 and limit 20. */
  function RequestRange(page: Option<int>, limit: Option<int>): (r: PageRange)
    ensures page.None? && limit.None? ==> r == PageRange(0, 19)
    ensures page.None? ==> r.from == 0
  {
    Range(page.GetOr(DefaultPage), limit.GetOr(DefaultLimit))
  }

  /** The next page starts right after this one ends. */
  lemma NextPageFollows(page: int, limit: int)
    ensures Range(page + 1, limit).from == Range(page, limit).to + 1
  {
    assert page * limit == (page - 1) * limit + limit;
  }

  /** Distinct pages never share a row. */
  lemma {:induction false} PagesDisjoint(p: int, q: int, limit: int)
    requires 1 <= p < q && limit >= 1
    ensures Range(p, limit).to < Range(q, limit).from
    decreases q - p
  {
    NextPageFollows(p, limit);
    if p + 1 < q {
      PagesDisjoint(p + 1, q, limit);
    }
  }

  /** The page a row index falls on. */
  function PageOf(i: nat, limit: int): (page: int)
    requires limit >= 1
    ensures page >= 1
    ensures Range(page, limit).from <= i <= Range(page, limit).to
  {
    var q := i / limit;
    assert q * limit <= i < q * limit + limit;
    q + 1
  }

  /** Every row is on exactly one page: a page whose range holds row `i` is `PageOf(i)`. */
  lemma OnlyPage(i: nat, page: int, limit: int)
    requires limit >= 1 && page >= 1
    requires Range(page, limit).from <= i <= Range(page, limit).to
    ensures page == PageOf(i, limit)
  {
    var p := PageOf(i, limit);
    if p < page {
      PagesDisjoint(p, page, limit);
    } else if page < p {
      PagesDisjoint(page, p, limit);
    }
  }

  /* ---------------- the tag filter and the list query ---------------- */

  /** The parameters of `GET /posts`; `None` is an absent parameter. */
  datatype ListRequest = ListRequest(
    category: Option<string>,
    tag: Option<string>,
    q: Option<string>,
    page: Option<int>,
    limit: Option<int>)

  /** A row of the first step: a `post_tags` row whose tag has the requested slug. */
  datatype TagMatch = TagMatch(postId: string, tagSlug: string)

  /** `tagData.map(row => row.post_id)`. */
  function PostIds(rows: seq<TagMatch>): (ids: seq<string>)
    ensures |ids| == |rows|
    ensures forall i :: 0 <= i < |rows| ==> ids[i] == rows[i].postId
  {
    if rows == [] then [] else [rows[0].postId] + PostIds(rows[1..])
  }

  /** The ids of a concatenation of rows are the ids of each part, in order. */
  lemma {:induction false} PostIdsAppend(a: seq<TagMatch>, b: seq<TagMatch>)
    ensures PostIds(a + b) == PostIds(a) + PostIds(b)
  {
    if a != [] {
      assert (a + b)[1..] == a[1..] + b;
      PostIdsAppend(a[1..], b);
    } else {
      assert a + b == b;
    }
  }

  /** Every post id of the matching rows is kept, and nothing else. */
  lemma PostIdsMembership(rows: seq<TagMatch>, id: string)
    ensures id in PostIds(rows) <==> exists r :: r in rows && r.postId == id
  {
    var ids := PostIds(rows);
    if id in ids {
      var i :| 0 <= i < |ids| && ids[i] == id;
      assert rows[i] in rows;
    }
    if exists r :: r in rows && r.postId == id {
      var r :| r in rows && r.postId == id;
      var i :| 0 <= i < |rows| && rows[i] == r;
      assert ids[i] == id;
    }
  }

  /** The filters accumulated on the posts query before it runs. */
  datatype PostQuery = PostQuery(
    category: Option<string>,
    ids: Option<seq<string>>,
    search: Option<string>,
    range: PageRange)

  /** What the handler does once the tag step is over. */
  datatype ListPlan =
    | TagLookupFailed(message: string)
    | NoTaggedPosts
    | RunQuery(query: PostQuery)

  /** The handler up to the posts query. `tagLookup` is the outcome the first query
      would have; it is consulted only when the `tag` parameter is truthy. */
  function PlanList(req: ListRequest, tagLookup: Result<seq<TagMatch>, string>): (plan: ListPlan)
    ensures plan.TagLookupFailed? <==> Truthy(req.tag) && tagLookup.Failure?
    ensures plan.NoTaggedPosts? <==> Truthy(req.tag) && tagLookup == Success([])
    ensures plan.RunQuery? ==>
      plan.query.range == RequestRange(req.page, req.limit) &&
      (plan.query.category.Some? <==> Truthy(req.category)) &&
      (plan.query.category.Some? ==> plan.query.category == req.category) &&
      (plan.query.search.Some? <==> Truthy(req.q)) &&
      (plan.query.search.Some? ==> plan.query.search == req.q) &&
      (plan.query.ids.Some? <==> Truthy(req.tag))
    ensures plan.RunQuery? && plan.query.ids.Some? ==>
      tagLookup.Success? && plan.query.ids.value == PostIds(tagLookup.value) && plan.query.ids.value != []
  {
    if Truthy(req.tag) && tagLookup.Failure? then TagLookupFailed(tagLookup.error)
    else if Truthy(req.tag) && PostIds(tagLookup.value) == [] then NoTaggedPosts
    else
      RunQuery(PostQuery(
        if Truthy(req.category) then req.category else None,
        if Truthy(req.tag) then Some(PostIds(tagLookup.value)) else None,
        if Truthy(req.q) then req.q else None,
        RequestRange(req.page, req.limit)))
  }

  /* ---------------- shaping the rows ---------------- */

  /** A row of the posts query: the listed columns and the embedded `post_tags`, each
      holding its tag record or `null`. */
  datatype ListRow = ListRow(
    id: string,
    slug: string,
    title: string,
    excerpt: string,
    category: string,
    publishedDate: string,
    postTags: seq<Option<ApiTag>>)

  /** The tag records that are present, in order (`.filter(Boolean)` on objects). */
  function PresentTags(postTags: seq<Option<ApiTag>>): (tags: seq<ApiTag>)
    ensures |tags| <= |postTags|
    ensures forall t :: t in tags <==> Some(t) in postTags
  {
    if postTags == [] then []
    else
      assert postTags == [postTags[0]] + postTags[1..];
      (if postTags[0].Some? then [postTags[0].value] else []) + PresentTags(postTags[1..])
  }

  /** `pt.tags?.name` for each entry, then `.filter(Boolean)`: a missing tag or an
      empty name is dropped. */
  function TagNames(postTags: seq<Option<ApiTag>>): (names: seq<string>)
    ensures |names| <= |postTags|
    ensures forall i :: 0 <= i < |names| ==> names[i] != ""
  {
    if postTags == [] then []
    else
      var pt := postTags[0];
      (if pt.Some? && pt.value.name != "" then [pt.value.name] else []) + TagNames(postTags[1..])
  }

  /** The name of each tag record. */
  function NamesOf(tags: seq<ApiTag>): seq<string> {
    Map(tags, (t: ApiTag) => t.name)
  }

  predicate NonEmpty(s: string) { s != "" }

  lemma NamesOfCons(t: ApiTag, rest: seq<ApiTag>)
    ensures NamesOf([t] + rest) == [t.name] + NamesOf(rest)
  {
  }

  lemma PresentTagsCons(pt: Option<ApiTag>, rest: seq<Option<ApiTag>>)
    ensures PresentTags([pt] + rest) == (if pt.Some? then [pt.value] else []) + PresentTags(rest)
    ensures TagNames([pt] + rest) == (if pt.Some? && pt.value.name != "" then [pt.value.name] else []) + TagNames(rest)
  {
    assert ([pt] + rest)[0] == pt && ([pt] + rest)[1..] == rest;
  }

  /** The summary's names are the names of the present tags with the empty ones
      dropped: the same list the detail endpoint's records would give. */
  lemma {:induction false} TagNamesOfPresent(postTags: seq<Option<ApiTag>>)
    ensures TagNames(postTags) == Filter(NamesOf(PresentTags(postTags)), NonEmpty)
  {
    if postTags != [] {
      var pt, tail := postTags[0], postTags[1..];
      assert postTags == [pt] + tail;
      TagNamesOfPresent(tail);
      PresentTagsCons(pt, tail);
      var rest := PresentTags(tail);
      if pt.Some? {
        var n := pt.value.name;
        NamesOfCons(pt.value, rest);
        FilterCons(n, NamesOf(rest), NonEmpty);
        assert PresentTags(postTags) == [pt.value] + rest;
        assert NonEmpty(n) <==> n != "";
      } else {
        assert PresentTags(postTags) == rest;
        assert TagNames(postTags) == TagNames(tail);
      }
    }
  }

  /** A name is listed exactly when some present tag carries it and it is not empty. */
  lemma TagNamesMembership(postTags: seq<Option<ApiTag>>, n: string)
    ensures n in TagNames(postTags) <==> n != "" && n in NamesOf(PresentTags(postTags))
  {
    TagNamesOfPresent(postTags);
  }

  /** When every entry holds a named tag, the names are all kept, one per entry. */
  lemma {:induction false} TagNamesAllNamed(postTags: seq<Option<ApiTag>>)
    requires forall i :: 0 <= i < |postTags| ==> postTags[i].Some? && postTags[i].value.name != ""
    ensures |TagNames(postTags)| == |postTags|
    ensures forall i :: 0 <= i < |postTags| ==> TagNames(postTags)[i] == postTags[i].value.name
  {
    if postTags != [] {
      TagNamesAllNamed(postTags[1..]);
    }
  }

  /** The `PostSummary` built from a row. */
  function Summary(row: ListRow): (s: PostSummary)
    ensures s.id == row.id && s.slug == row.slug && s.title == row.title
    ensures s.excerpt == row.excerpt && s.category == row.category
    ensures s.publishedDate == row.publishedDate
    ensures s.tags == TagNames(row.postTags)
  {
    PostSummary(row.id, row.slug, row.title, row.excerpt, row.category, row.publishedDate,
      TagNames(row.postTags))
  }

  /** What `GET /posts` answers. */
  datatype ListResponse =
    | ListError(status: int, message: string)
    | ListBody(items: seq<PostSummary>, total: Option<int>)

  /** `GET /posts`. `fetch` stands for the database: the outcome of running a posts
      query, as its rows and its exact count (`null` when absent). */
  function ListPosts(req: ListRequest, tagLookup: Result<seq<TagMatch>, string>,
                     fetch: PostQuery -> Result<(seq<ListRow>, Option<int>), string>): (r: ListResponse)
    ensures Truthy(req.tag) && tagLookup.Failure? ==> r == ListError(500, tagLookup.error)
    ensures Truthy(req.tag) && tagLookup == Success([]) ==> r == ListBody([], Some(0))
    ensures PlanList(req, tagLookup).RunQuery? ==>
      var result := fetch(PlanList(req, tagLookup).query);
      (r.ListError? <==> result.Failure?) &&
      (result.Failure? ==> r == ListError(500, result.error)) &&
      (r.ListBody? ==>
        |r.items| == |result.value.0| && r.total == result.value.1 &&
        forall i :: 0 <= i < |r.items| ==> r.items[i] == Summary(result.value.0[i]))
  {
    match PlanList(req, tagLookup)
    case TagLookupFailed(message) => ListError(500, message)
    case NoTaggedPosts => ListBody([], Some(0))
    case RunQuery(query) =>
      match fetch(query)
      case Failure(message) => ListError(500, message)
      case Success((rows, count)) =>
        ListBody(seq(|rows|, i requires 0 <= i < |rows| => Summary(rows[i])), count)
  }

  /* ---------------- the detail ---------------- */

  /** The row of the detail query: the post, its embedded `post_tags` and its
      `note_nodes` ids (the embedding itself may be `null`). */
  datatype DetailRow = DetailRow(post: Post, postTags: seq<Option<ApiTag>>, noteNodes: Option<seq<string>>)

  /** `note_nodes?.[0]?.id ?? null`: the first note node, if there is one. */
  function NoteNodeId(noteNodes: Option<seq<string>>): (id: Option<string>)
    ensures id.Some? <==> noteNodes.Some? && noteNodes.value != []
    ensures id.Some? ==> id.value == noteNodes.value[0]
  {
    if noteNodes.Some? && noteNodes.value != [] then Some(noteNodes.value[0]) else None
  }

  /** What `GET /posts/:slug` answers. */
  datatype DetailResponse =
    | DetailError(status: int, message: string)
    | DetailBody(detail: PostDetail)

  /** `GET /posts/:slug`. `lookup` is the outcome of the single-row query for the slug;
      a failed lookup (no row, or more than one) answers 404. */
  function GetPost(lookup: Result<DetailRow, string>): (r: DetailResponse)
    ensures r.DetailError? <==> lookup.Failure?
    ensures r.DetailError? ==> r == DetailError(404, lookup.error)
    ensures r.DetailBody? ==>
      var p := lookup.value.post;
      r.detail.id == p.id && r.detail.slug == p.slug && r.detail.title == p.title &&
      r.detail.excerpt == p.excerpt && r.detail.contentMd == p.contentMd &&
      r.detail.category == p.category && r.detail.publishedDate == p.publishedDate
    ensures r.DetailBody? ==>
      r.detail.tags == PresentTags(lookup.value.postTags) &&
      (forall t :: t in r.detail.tags <==> Some(t) in lookup.value.postTags) &&
      r.detail.noteNodeId == NoteNodeId(lookup.value.noteNodes)
  {
    match lookup
    case Failure(message) => DetailError(404, message)
    case Success(row) =>
      var p := row.post;
      DetailBody(PostDetail(p.id, p.slug, p.title, p.excerpt, p.contentMd, p.category,
        p.publishedDate, PresentTags(row.postTags), NoteNodeId(row.noteNodes)))
  }

  /** A post whose tags all resolved gets every one of them, in order. */
  lemma {:induction false} PresentTagsAll(postTags: seq<Option<ApiTag>>)
    requires forall i :: 0 <= i < |postTags| ==> postTags[i].Some?
    ensures |PresentTags(postTags)| == |postTags|
    ensures forall i :: 0 <= i < |postTags| ==> PresentTags(postTags)[i] == postTags[i].value
  {
    if postTags != [] {
      PresentTagsAll(postTags[1..]);
    }
  }
}

/** The records the API reads from its tables and returns (`apps/api/src/types.ts`).
    The `created_at` / `updated_at` timestamps are carried by no modelled operation and
    are left out. */
module ApiTypes {
  import opened Wrappers

  datatype NoteKind = FolderNode | PostNode

  /** A row of `note_nodes`: one folder or post of the notes tree. */
  datatype NoteNode = NoteNode(
    id: string,
    parentId: Option<string>,
    nodeType: NoteKind,
    slug: string,
    title: string,
    sortOrder: int,
    postId: Option<string>)

  /** A row of `posts`. */
  datatype Post = Post(
    id: string,
    slug: string,
    title: string,
    excerpt: string,
    contentMd: string,
    category: string,
    publishedDate: string)

  /** A row of `tags`, as embedded in a post. */
  datatype ApiTag = ApiTag(id: string, name: string, slug: string)

  /** An entry of the post list: the post without its body, and its tag names. */
  datatype PostSummary = PostSummary(
    id: string,
    slug: string,
    title: string,
    excerpt: string,
    category: string,
    publishedDate: string,
    tags: seq<string>)

  /** A single post with its tag records and the note node that shows it, if any. */
  datatype PostDetail = PostDetail(
    id: string,
    slug: string,
    title: string,
    excerpt: string,
    contentMd: string,
    category: string,
    publishedDate: string,
    tags: seq<ApiTag>,
    noteNodeId: Option<string>)
}

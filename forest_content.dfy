/**
 * The indexed contents: the application's own tree, whose rows point at a parent content
 * and carry a tree type. The index rows are attached to a content by its identifier.
 */
module ForestContent {
  import opened Wrappers
  import opened ForestIndexEntity
  import opened ForestIndexRepository

  /** One content: its parent content, if any, and the tree type it is indexed in. */
  datatype ContentRecord = ContentRecord(parent: Option<ContentId>, treeType: TreeType)

  /** The content table, by identifier. */
  type Contents = map<ContentId, ContentRecord>

  /** A content's parent is an object reference, so it is always a content itself. */
  ghost predicate ParentsPresent(contents: Contents) {
    forall c :: c in contents && contents[c].parent.Some? ==> contents[c].parent.value in contents
  }

  /** A content and its parent are indexed in the same tree type. */
  ghost predicate TypedForest(contents: Contents) {
    forall c :: c in contents && contents[c].parent.Some? && contents[c].parent.value in contents ==>
      contents[contents[c].parent.value].treeType == contents[c].treeType
  }

  /** An index row attached to a content has that content's tree type. */
  ghost predicate IndexesTyped(rows: Table, contents: Contents) {
    forall i :: i in rows && rows[i].contentId.Some? && rows[i].contentId.value in contents ==>
      rows[i].treeType == contents[rows[i].contentId.value].treeType
  }

  /** Following parent links from content `d` reaches content `c` within `n + 1` steps. */
  ghost predicate ContentDescends(contents: Contents, d: ContentId, c: ContentId, n: nat)
    decreases n
  {
    d in contents && contents[d].parent.Some?
    && (contents[d].parent.value == c || (n > 0 && ContentDescends(contents, contents[d].parent.value, c, n - 1)))
  }

  /** The descendants of content `c` in the content tree, at any depth. */
  ghost function ContentDescendantsOf(contents: Contents, c: ContentId): set<ContentId> {
    set d | d in contents && exists n: nat :: ContentDescends(contents, d, c, n)
  }

  /** The content repository's roots of a tree type: contents without a parent. */
  function ContentRoots(contents: Contents, t: TreeType): (s: set<ContentId>)
    ensures forall c :: c in s <==> c in contents && contents[c].parent.None? && contents[c].treeType == t
  {
    set c | c in contents && contents[c].parent.None? && contents[c].treeType == t
  }

  /** The content repository's direct children of a content, of any tree type. */
  function ContentChildren(contents: Contents, parent: ContentId): (s: set<ContentId>)
    ensures forall c :: c in s <==> c in contents && contents[c].parent == Some(parent)
  {
    set c | c in contents && contents[c].parent == Some(parent)
  }
}

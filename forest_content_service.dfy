/**
 * The content service: rebuilds the index of a tree type by walking the content tree from
 * its roots, and hands the indexing of single contents to the index service.
 */
module ForestContentService {
  import opened Wrappers
  import opened ForestIndexEntity
  import opened ForestIndexRepository
  import opened NestedSetInvariant
  import opened ForestContent
  import opened ForestIndexService
  import opened FiniteSets

  // ---------------------------------------------------------------- the shape of the content walk

  /** Every content in `s` that has a parent has its parent in `s` too. */
  ghost predicate ContentUpClosed(contents: Contents, s: set<ContentId>) {
    forall c :: c in s && c in contents && contents[c].parent.Some? ==> contents[c].parent.value in s
  }

  /** No child of content `x` is in `s`. */
  ghost predicate NoChildOf(contents: Contents, x: ContentId, s: set<ContentId>) {
    forall c :: c in s && c in contents ==> contents[c].parent != Some(x)
  }

  /** The contents the walk under `x` added to `before` hang from `x` or from each other. */
  ghost predicate HungUnder(contents: Contents, x: ContentId, before: set<ContentId>, after: set<ContentId>) {
    forall c :: c in after - before ==>
      c in contents && contents[c].parent.Some? && contents[c].parent.value in (after - before) + {x}
  }

  /** Every child of a content in `s` is in `done`. */
  ghost predicate ChildrenIn(contents: Contents, s: set<ContentId>, done: set<ContentId>) {
    forall d :: d in contents && contents[d].parent.Some? && contents[d].parent.value in s ==> d in done
  }

  /** Every content in `s` has an index row. */
  ghost predicate AllIndexed(rows: Table, s: set<ContentId>) {
    forall c :: c in s ==> FindByContentId(rows, c) != {}
  }

  /** Every content in `s` is of tree type `t`. */
  ghost predicate AllTyped(contents: Contents, t: TreeType, s: set<ContentId>) {
    forall c :: c in s ==> c in contents && contents[c].treeType == t
  }

  /** The index rows of tree type `t` that are attached to a content are attached to one in `s`. */
  ghost predicate OnlyIndexedIn(rows: Table, t: TreeType, s: set<ContentId>) {
    forall i :: i in rows && rows[i].contentId.Some? && rows[i].treeType == t ==> rows[i].contentId.value in s
  }

  /** Content `c` has exactly one index row, hung under its parent content's index. */
  ghost predicate AttachedOnce(rows: Table, contents: Contents, c: ContentId)
    requires c in contents
  {
    exists k :: FindByContentId(rows, c) == {k} && ParentLink(rows, contents, c, k)
  }

  /** Every content in `s` has exactly one index row, hung under its parent content's index. */
  ghost predicate AllAttached(rows: Table, contents: Contents, s: set<ContentId>)
    requires s <= contents.Keys
  {
    forall c :: c in s ==> AttachedOnce(rows, contents, c)
  }

  /** The rows of type `t` without a content: at most one, and it has no parent. It is the
      synthetic root the content roots of the type hang under. */
  ghost predicate SingleAnchor(rows: Table, t: TreeType) {
    forall i, j ::
      i in rows && j in rows && rows[i].treeType == t && rows[j].treeType == t
      && rows[i].contentId.None? && rows[j].contentId.None?
      ==> i == j && rows[i].parent.None?
  }

  /**
   * What the walk keeps while the contents in `done` have been indexed: the walked contents
   * have index rows; with `ready` they are of the tree type, each has exactly one row hung
   * under its parent content's index, no other content of the type is indexed, the only
   * other row of the type is a single parentless anchor, and the rows of the type are all
   * numbered and form a nested set.
   */
  ghost predicate WalkState(rows: Table, contents: Contents, t: TreeType, done: set<ContentId>, ready: bool) {
    done <= contents.Keys && ContentUpClosed(contents, done) && AllIndexed(rows, done)
    && (ready ==>
          NestedSet(rows, t) && IndexesTyped(rows, contents) && TypedForest(contents)
          && AllTyped(contents, t, done) && OnlyIndexedIn(rows, t, done) && AllAttached(rows, contents, done)
          && SingleAnchor(rows, t) && FullyNumbered(rows, t))
  }

  /** A content about to be indexed in a ready walk has no index row yet. */
  lemma NotYetIndexed(rows: Table, contents: Contents, t: TreeType, done: set<ContentId>, c: ContentId)
    requires c in contents && c !in done && contents[c].treeType == t
    requires OnlyIndexedIn(rows, t, done) && IndexesTyped(rows, contents)
    ensures FindByContentId(rows, c) == {}
  {
    if k :| k in FindByContentId(rows, c) {
    }
  }

  /** The rows a save adds besides the indexed one `k`: at most one, with no content and no
      parent. */
  ghost predicate OthersBare(before: Table, after: Table, k: Id) {
    (forall i :: i in after && i !in before && i != k ==> after[i].contentId.None? && after[i].parent.None?)
    && forall i, j :: i in after && i !in before && i != k && j in after && j !in before && j != k ==> i == j
  }

  /** Indexing content `c` keeps a single parentless anchor: a new one is only created for a
      content root when the type has no root at all. */
  lemma IndexKeepsAnchor(before: Table, after: Table, contents: Contents, t: TreeType, done: set<ContentId>,
                         c: ContentId, n: IndexNode)
    requires c in contents && contents[c].treeType == t
    requires contents[c].parent.Some? ==> contents[c].parent.value in done
    requires AllIndexed(before, done) && SingleAnchor(before, t)
    requires IndexedAs(before, after, contents, c, n) && OthersBare(before, after, n.id.value)
    requires NoDetour(before, contents, c) ==> after.Keys <= before.Keys + {n.id.value}
    ensures SingleAnchor(after, t)
  {
    var k := n.id.value;
    forall i, j | i in after && j in after && after[i].treeType == t && after[j].treeType == t
                  && after[i].contentId.None? && after[j].contentId.None?
      ensures i == j && after[i].parent.None?
    {
      if i !in before || j !in before {
        assert !NoDetour(before, contents, c);
      }
    }
  }

  /** Indexing content `c` keeps the contents walked so far indexed. */
  lemma IndexKeepsIndexed(before: Table, after: Table, contents: Contents, done: set<ContentId>,
                          c: ContentId, n: IndexNode)
    requires c in contents && c !in done && AllIndexed(before, done)
    requires IndexedAs(before, after, contents, c, n)
    ensures AllIndexed(after, done + {c})
  {
    var k := n.id.value;
    forall x | x in done
      ensures FindByContentId(after, x) != {}
    {
      var i :| i in FindByContentId(before, x);
      assert i != k by {
        if k in before {
          assert FindByContentId(before, c) == {k};
        }
      }
      assert i in FindByContentId(after, x);
    }
    assert k in FindByContentId(after, c);
  }

  /** In a ready walk, indexing content `c` attaches index rows of the type to walked contents only. */
  lemma IndexKeepsOnly(before: Table, after: Table, contents: Contents, t: TreeType, done: set<ContentId>,
                       c: ContentId, n: IndexNode)
    requires c in contents && n.id.Some? && n.id.value !in before
    requires OnlyIndexedIn(before, t, done) && IndexFrame(before, after, {n.id.value})
    requires n.id.value in after && after[n.id.value].contentId == Some(c) && OthersBare(before, after, n.id.value)
    ensures OnlyIndexedIn(after, t, done + {c})
  {
    var k := n.id.value;
    forall i | i in after && after[i].contentId.Some? && after[i].treeType == t
      ensures after[i].contentId.value in done + {c}
    {
      if i in before {
        assert before[i].contentId == after[i].contentId;
      }
    }
  }

  /** In a ready walk, indexing content `c` with a new row keeps every walked content attached once. */
  lemma IndexKeepsAttached(before: Table, after: Table, contents: Contents, done: set<ContentId>,
                           c: ContentId, n: IndexNode)
    requires c in contents && c !in done && done <= contents.Keys && AllAttached(before, contents, done)
    requires n.id.Some? && n.id.value !in before && IndexedAs(before, after, contents, c, n)
    requires OthersBare(before, after, n.id.value)
    ensures AllAttached(after, contents, done + {c})
  {
    var k := n.id.value;
    forall x | x in done + {c}
      ensures AttachedOnce(after, contents, x)
    {
      if x == c {
        assert FindByContentId(after, c) == {k};
      } else {
        var j :| FindByContentId(before, x) == {j} && ParentLink(before, contents, x, j);
        assert FindByContentId(after, x) == {j} by {
          forall i | i in after && after[i].contentId == Some(x)
            ensures i == j
          {
            if i in before {
              assert before[i].contentId == Some(x);
              assert i in FindByContentId(before, x);
            }
          }
          assert j in FindByContentId(before, x);
        }
        assert ParentLink(after, contents, x, j);
      }
    }
  }

  /** A content whose parent is walked joins the walked set, which stays closed upwards. */
  lemma ContentAdded(contents: Contents, t: TreeType, done: set<ContentId>, c: ContentId, ready: bool)
    requires c in contents && done <= contents.Keys && ContentUpClosed(contents, done)
    requires contents[c].parent.Some? ==> contents[c].parent.value in done
    requires ready ==> AllTyped(contents, t, done) && contents[c].treeType == t
    ensures done + {c} <= contents.Keys && ContentUpClosed(contents, done + {c})
    ensures ready ==> AllTyped(contents, t, done + {c})
  {
  }

  /** Indexing content `c` keeps the walk state, with `c` added to the walked contents. */
  lemma IndexStep(before: Table, after: Table, contents: Contents, t: TreeType, done: set<ContentId>,
                  c: ContentId, n: IndexNode, ready: bool)
    requires c in contents && c !in done && WalkState(before, contents, t, done, ready)
    requires contents[c].parent.Some? ==> contents[c].parent.value in done
    requires ready ==>
               contents[c].treeType == t && NestedSet(after, t) && IndexesTyped(after, contents)
               && FullyNumbered(after, t)
    requires IndexedAs(before, after, contents, c, n) && OthersBare(before, after, n.id.value)
    requires NoDetour(before, contents, c) ==> after.Keys <= before.Keys + {n.id.value}
    ensures WalkState(after, contents, t, done + {c}, ready)
  {
    ContentAdded(contents, t, done, c, ready);
    IndexKeepsIndexed(before, after, contents, done, c, n);
    if ready {
      NotYetIndexed(before, contents, t, done, c);
      IndexKeepsOnly(before, after, contents, t, done, c, n);
      IndexKeepsAttached(before, after, contents, done, c, n);
      IndexKeepsAnchor(before, after, contents, t, done, c, n);
    }
  }

  /** The walk under `c` starts from a set that holds no child of `c`. */
  lemma ChildStart(contents: Contents, x: ContentId, cur: set<ContentId>, c: ContentId)
    requires x in cur && c in contents && contents[c].parent == Some(x) && c !in cur && ContentUpClosed(contents, cur)
    ensures NoChildOf(contents, c, cur + {c})
  {
  }

  /** The children of `x` still to visit stay unvisited after the walk under child `c`. */
  lemma KidsStayUnwalked(contents: Contents, x: ContentId, cur: set<ContentId>, c: ContentId, sub: set<ContentId>,
                         kids: set<ContentId>)
    requires x in cur && c !in cur && kids * cur == {} && c in kids
    requires forall d :: d in kids ==> d in contents && contents[d].parent == Some(x)
    requires cur + {c} <= sub && HungUnder(contents, c, cur + {c}, sub)
    ensures (kids - {c}) * sub == {}
  {
    forall d | d in kids - {c}
      ensures d !in sub
    {
    }
  }

  /** The walk under `x`, so far: the facts the loop over `x`'s children keeps. */
  ghost predicate ChildLoop(rows: Table, contents: Contents, t: TreeType, x: ContentId, done: set<ContentId>,
                            cur: set<ContentId>, kids: set<ContentId>, ready: bool) {
    x in done && done <= cur && WalkState(rows, contents, t, cur, ready)
    && HungUnder(contents, x, done, cur) && ChildrenIn(contents, cur - done, cur)
    && kids <= ContentChildren(contents, x) && kids * cur == {}
    && ContentChildren(contents, x) - kids <= cur
  }

  /** The loop over the roots: the roots left are unwalked, those done are walked, and the
      walked contents are closed under children and hang from roots. */
  ghost predicate RootLoop(contents: Contents, t: TreeType, walked: set<ContentId>, roots: set<ContentId>) {
    roots <= ContentRoots(contents, t) && roots * walked == {}
    && ContentRoots(contents, t) - roots <= walked && ChildrenIn(contents, walked, walked)
    && forall c :: c in walked && c in contents && contents[c].parent.None? ==> c in ContentRoots(contents, t)
  }

  /** The loop over the roots goes on after the walk under root `r`. */
  lemma RootNext(contents: Contents, t: TreeType, walked: set<ContentId>, roots: set<ContentId>, r: ContentId,
                 sub: set<ContentId>)
    requires RootLoop(contents, t, walked, roots) && r in roots
    requires walked + {r} <= sub && HungUnder(contents, r, walked + {r}, sub)
    requires ChildrenIn(contents, (sub - (walked + {r})) + {r}, sub)
    ensures RootLoop(contents, t, sub, roots - {r})
  {
    forall c | c in sub - (walked + {r}) ensures c !in roots {
      assert contents[c].parent.Some?;
    }
  }

  /** The loop over `x`'s children goes on after the walk under child `c`. */
  lemma ChildNext(contents: Contents, x: ContentId, done: set<ContentId>, cur: set<ContentId>, c: ContentId,
                  sub: set<ContentId>)
    requires x in done && done <= cur && c !in cur && c in contents && contents[c].parent == Some(x)
    requires HungUnder(contents, x, done, cur) && ChildrenIn(contents, cur - done, cur)
    requires cur + {c} <= sub && HungUnder(contents, c, cur + {c}, sub)
    requires ChildrenIn(contents, (sub - (cur + {c})) + {c}, sub)
    ensures HungUnder(contents, x, done, sub) && ChildrenIn(contents, sub - done, sub)
  {
    assert sub - done == (cur - done) + ((sub - (cur + {c})) + {c});
  }

  /** The loop over `x`'s children has ended: the walk under `x` has covered its subtree. */
  lemma ChildDone(contents: Contents, x: ContentId, done: set<ContentId>, cur: set<ContentId>)
    requires x in done && done <= cur && ChildrenIn(contents, cur - done, cur)
    requires ContentChildren(contents, x) <= cur
    ensures ChildrenIn(contents, (cur - done) + {x}, cur)
  {
  }

  // ---------------------------------------------------------------- what a finished walk leaves

  /** A nested set with a node has a root node: the node that holds label 1 has no parent,
      since a parent would start further left. */
  lemma RootOfNestedSet(rows: Table, t: TreeType, x: Id) returns (r: Id)
    requires NestedSet(rows, t) && IsNode(rows, t, x)
    ensures IsNode(rows, t, r) && rows[r].parent.None?
  {
    assert IsLabel(rows, t, 1);
    r :| IsNode(rows, t, r) && (rows[r].lft.value == 1 || rows[r].rgt.value == 1);
    if rows[r].parent.Some? {
      assert false;
    }
  }

  /** In a ready walk the only parentless row of the type is the anchor: a content's row
      hangs under its parent content's index. */
  lemma WalkedRoots(rows: Table, contents: Contents, t: TreeType, walked: set<ContentId>)
    requires WalkState(rows, contents, t, walked, true)
    ensures forall i :: i in FindRoots(rows, t) ==> rows[i].contentId.None?
    ensures |FindRoots(rows, t)| <= 1
  {
    var roots := FindRoots(rows, t);
    forall i | i in roots ensures rows[i].contentId.None? {
      if rows[i].contentId.Some? {
        WalkedRow(rows, contents, t, walked, rows[i].contentId.value, i);
      }
    }
    if roots != {} {
      var r := SomeElement(roots);
      assert roots == {r};
    }
  }

  /** The content's own index row in a ready walk: the one row attached to it, a node of the
      type. */
  lemma WalkedRow(rows: Table, contents: Contents, t: TreeType, walked: set<ContentId>, c: ContentId, k: Id)
    requires WalkState(rows, contents, t, walked, true) && c in walked && k in FindByContentId(rows, c)
    ensures FindByContentId(rows, c) == {k} && ParentLink(rows, contents, c, k) && IsNode(rows, t, k)
  {
    var k0 :| FindByContentId(rows, c) == {k0} && ParentLink(rows, contents, c, k0);
  }

  /** In a ready walk, a row below content `c`'s row by parent links is the row of a content
      below `c`, as many steps down. */
  lemma {:induction false} RowDescendsContent(rows: Table, contents: Contents, t: TreeType, walked: set<ContentId>,
                                              c: ContentId, k: Id, j: Id, n: nat)
    requires WalkState(rows, contents, t, walked, true)
    requires k in rows && rows[k].contentId == Some(c) && Descends(rows, t, j, k, n)
    ensures rows[j].contentId.Some? && rows[j].contentId.value in walked
    ensures ContentDescends(contents, rows[j].contentId.value, c, n)
    decreases n
  {
    var q := rows[j].parent.value;
    if rows[j].contentId.None? {
      assert false;
    }
    var d := rows[j].contentId.value;
    WalkedRow(rows, contents, t, walked, d, j);
    if contents[d].parent.None? {
      if q == k {
        WalkedRow(rows, contents, t, walked, c, k);
      }
      assert false;
    }
    var pc := contents[d].parent.value;
    assert rows[q].contentId == Some(pc);
    if q != k {
      RowDescendsContent(rows, contents, t, walked, c, k, q, n - 1);
    }
  }

  /** After a ready walk closed under children, a content below walked content `c` has its
      own row, below `c`'s row by parent links, as many steps down. */
  lemma {:induction false} ContentDescendsRow(rows: Table, contents: Contents, t: TreeType, walked: set<ContentId>,
                                              c: ContentId, k: Id, d: ContentId, n: nat)
    returns (j: Id)
    requires WalkState(rows, contents, t, walked, true) && ChildrenIn(contents, walked, walked)
    requires c in walked && FindByContentId(rows, c) == {k} && ContentDescends(contents, d, c, n)
    ensures d in walked && FindByContentId(rows, d) == {j} && Descends(rows, t, j, k, n)
    decreases n
  {
    var p := contents[d].parent.value;
    var kp := k;
    if p != c {
      kp := ContentDescendsRow(rows, contents, t, walked, c, k, p, n - 1);
    }
    assert d in walked;
    j :| FindByContentId(rows, d) == {j} && ParentLink(rows, contents, d, j);
    WalkedRow(rows, contents, t, walked, d, j);
    assert rows[j].parent.value in FindByContentId(rows, p);
  }

  /**
   * After a ready walk closed under children, the children count of a walked content's
   * index row counts that content's descendants in the content tree: the row's descendants
   * by parent links are exactly the rows of those contents, one each.
   */
  lemma WalkedCountsContentDescendants(rows: Table, contents: Contents, t: TreeType, walked: set<ContentId>,
                                       c: ContentId, k: Id)
    requires WalkState(rows, contents, t, walked, true) && ChildrenIn(contents, walked, walked)
    requires c in walked && k in FindByContentId(rows, c)
    ensures IsNode(rows, t, k)
    ensures rows[k].rgt.value - rows[k].lft.value == 2 * |ContentDescendantsOf(contents, c)| + 1
  {
    WalkedRow(rows, contents, t, walked, c, k);
    var r := WalkedOneRoot(rows, contents, t, walked, k);
    DescendantsByLink(rows, t, r, k);
    var below, above := DescendantsOf(rows, t, k), ContentDescendantsOf(contents, c);
    RowsToContents(rows, contents, t, walked, c, k);
    ContentsToRows(rows, contents, t, walked, c, k);
    var f: Id -> ContentId := (j: Id) => ContentOf(rows, j);
    ImageSize(below, above, f);
  }

  /** The content a row is attached to, or 0 for a row without one. */
  ghost function ContentOf(rows: Table, j: Id): ContentId {
    if j in rows && rows[j].contentId.Some? then rows[j].contentId.value else 0
  }

  /** After a ready walk the type has exactly one parentless node. */
  lemma WalkedOneRoot(rows: Table, contents: Contents, t: TreeType, walked: set<ContentId>, k: Id) returns (r: Id)
    requires WalkState(rows, contents, t, walked, true) && IsNode(rows, t, k)
    ensures IsNode(rows, t, r) && forall i :: IsNode(rows, t, i) && rows[i].parent.None? ==> i == r
  {
    r := RootOfNestedSet(rows, t, k);
    WalkedRoots(rows, contents, t, walked);
    forall i | IsNode(rows, t, i) && rows[i].parent.None? ensures i == r {
      assert i in FindRoots(rows, t) && r in FindRoots(rows, t);
    }
  }

  /** Each row below content `c`'s row is the one row of a content below `c`. */
  lemma RowsToContents(rows: Table, contents: Contents, t: TreeType, walked: set<ContentId>, c: ContentId, k: Id)
    requires WalkState(rows, contents, t, walked, true)
    requires c in walked && k in rows && rows[k].contentId == Some(c)
    ensures forall j :: j in DescendantsOf(rows, t, k) ==>
              ContentOf(rows, j) in ContentDescendantsOf(contents, c) && FindByContentId(rows, ContentOf(rows, j)) == {j}
  {
    forall j | j in DescendantsOf(rows, t, k)
      ensures ContentOf(rows, j) in ContentDescendantsOf(contents, c) && FindByContentId(rows, ContentOf(rows, j)) == {j}
    {
      var n: nat :| Descends(rows, t, j, k, n);
      RowDescendsContent(rows, contents, t, walked, c, k, j, n);
      WalkedRow(rows, contents, t, walked, ContentOf(rows, j), j);
    }
  }

  /** Each content below `c` has its row below `c`'s row. */
  lemma ContentsToRows(rows: Table, contents: Contents, t: TreeType, walked: set<ContentId>, c: ContentId, k: Id)
    requires WalkState(rows, contents, t, walked, true) && ChildrenIn(contents, walked, walked)
    requires c in walked && FindByContentId(rows, c) == {k}
    ensures forall d :: d in ContentDescendantsOf(contents, c) ==>
              exists j :: j in DescendantsOf(rows, t, k) && ContentOf(rows, j) == d
  {
    forall d | d in ContentDescendantsOf(contents, c)
      ensures exists j :: j in DescendantsOf(rows, t, k) && ContentOf(rows, j) == d
    {
      var n: nat :| ContentDescends(contents, d, c, n);
      var j := ContentDescendsRow(rows, contents, t, walked, c, k, d, n);
      assert j in FindByContentId(rows, d);
      assert j in DescendantsOf(rows, t, k);
    }
  }


  // ---------------------------------------------------------------- the service

  /** The content service over the index service it delegates to. */
  class ForestContentService {
    const engine: ForestIndexService

    constructor (engine: ForestIndexService)
      ensures this.engine == engine
    {
      this.engine := engine;
    }

    /**
     * Indexes one content through the index service, which files it under its parent
     * content's index. The service's update is the same call.
     */
    method CreateIndex(contents: Contents, cid: ContentId, ghost ready: bool) returns (res: Result<IndexNode, IndexError>)
      requires engine.Valid() && cid in contents && ParentsPresent(contents)
      requires ready ==> IndexReady(engine.rows, contents, cid)
      modifies engine
      ensures engine.Valid()
      ensures res.Err? ==> engine.rows == old(engine.rows)
      ensures res.Ok? ==> IndexedAs(old(engine.rows), engine.rows, contents, cid, res.value)
      ensures res.Ok? && ready ==> NestedSet(engine.rows, contents[cid].treeType) && IndexesTyped(engine.rows, contents)
      ensures ready ==> OtherTypesKept(old(engine.rows), engine.rows, contents[cid].treeType)
      ensures res.Ok? && ready && FindByContentId(old(engine.rows), cid) == {}
              && FullyNumbered(old(engine.rows), contents[cid].treeType) ==>
                FullyNumbered(engine.rows, contents[cid].treeType)
      ensures res.Ok? && NoDetour(old(engine.rows), contents, cid) ==> engine.rows.Keys <= old(engine.rows).Keys + {res.value.id.value}
      ensures res.Ok? && contents[cid].parent.None? ==> OthersBare(old(engine.rows), engine.rows, res.value.id.value)
    {
      res := engine.Index(contents, cid, {}, ready);
    }

    /** Drops the index of one content through the index service. */
    method DeleteIndex(cid: ContentId) returns (res: Result<Option<Id>, IndexError>)
      requires engine.Valid()
      modifies engine
      ensures engine.Valid()
      ensures res.Err? <==> |FindByContentId(old(engine.rows), cid)| > 1
      ensures res.Err? || res == Ok(None) ==> engine.rows == old(engine.rows)
      ensures res.Ok? && res.value.Some? ==>
                var k := res.value.value;
                FindByContentId(old(engine.rows), cid) == {k} && k in old(engine.rows)
                && var row := old(engine.rows)[k];
                   engine.rows == AfterDelete(Delete(old(engine.rows), row.treeType, row.lft, row.rgt), row.treeType, row.lft, row.rgt)
                   && (old(NestedSet(engine.rows, row.treeType)) && IsNode(old(engine.rows), row.treeType, k) ==>
                         NestedSet(engine.rows, row.treeType) && FindByContentId(engine.rows, cid) == {})
    {
      res := engine.DropIndex(cid);
    }

    /**
     * Rebuilds the index of tree type `t`: drops its rows, then indexes every root content
     * of the type and walks down the content tree, indexing each child before its own
     * children. Each content is indexed in its own transaction, so a failure keeps what was
     * indexed before it. `walked` names the contents indexed.
     */
    method RebuildIndexes(contents: Contents, t: TreeType, ghost ready: bool)
      returns (res: Result<(), IndexError>, ghost walked: set<ContentId>)
      requires engine.Valid() && ParentsPresent(contents)
      requires ready ==> IndexesTyped(engine.rows, contents) && TypedForest(contents)
      modifies engine
      ensures engine.Valid()
      ensures res.Ok? ==>
                ContentRoots(contents, t) <= walked && WalkState(engine.rows, contents, t, walked, ready)
                && ChildrenIn(contents, walked, walked)
                && forall c :: c in walked && contents[c].parent.None? ==> c in ContentRoots(contents, t)
      ensures res.Ok? && ready ==> |FindRoots(engine.rows, t)| <= 1
      ensures res.Ok? && ready ==>
                forall c, k :: c in walked && k in FindByContentId(engine.rows, c) ==>
                  IsNode(engine.rows, t, k)
                  && engine.rows[k].rgt.value - engine.rows[k].lft.value == 2 * |ContentDescendantsOf(contents, c)| + 1
    {
      engine.DropIndexes(t);
      var roots := ContentRoots(contents, t);
      walked := {};
      while roots != {}
        invariant engine.Valid() && WalkState(engine.rows, contents, t, walked, ready)
        invariant RootLoop(contents, t, walked, roots)
        decreases |roots|
      {
        ghost var someRoot := SomeElement(roots);
        var r :| r in roots;
        ghost var before := engine.rows;
        if ready {
          NotYetIndexed(engine.rows, contents, t, walked, r);
        }
        var indexed := CreateIndex(contents, r, ready);
        if indexed.Err? {
          return Err(indexed.error), walked;
        }
        IndexStep(before, engine.rows, contents, t, walked, r, indexed.value, ready);
        ghost var sub;
        var children;
        children, sub := RecountIndexes(contents, t, r, walked + {r}, ready);
        if children.Err? {
          return Err(children.error), walked;
        }
        RootNext(contents, t, walked, roots, r, sub);
        walked := sub;
        roots := roots - {r};
      }
      res := Ok(());
      if ready {
        WalkedRoots(engine.rows, contents, t, walked);
        forall c, k | c in walked && k in FindByContentId(engine.rows, c)
          ensures IsNode(engine.rows, t, k)
          ensures engine.rows[k].rgt.value - engine.rows[k].lft.value == 2 * |ContentDescendantsOf(contents, c)| + 1
        {
          WalkedCountsContentDescendants(engine.rows, contents, t, walked, c, k);
        }
      }
    }

    /**
     * Indexes the children of content `x`, each before its own children, as far down as
     * the content tree goes. The walk never meets a content twice: `done` holds no child
     * of `x`, and every content walked has its parent walked.
     */
    method RecountIndexes(contents: Contents, ghost t: TreeType, x: ContentId, ghost done: set<ContentId>, ghost ready: bool)
      returns (res: Result<(), IndexError>, ghost walked: set<ContentId>)
      requires engine.Valid() && ParentsPresent(contents)
      requires x in done && WalkState(engine.rows, contents, t, done, ready) && NoChildOf(contents, x, done)
      requires ready ==> contents[x].treeType == t
      modifies engine
      ensures engine.Valid()
      ensures res.Ok? ==>
                done <= walked && WalkState(engine.rows, contents, t, walked, ready)
                && HungUnder(contents, x, done, walked) && ChildrenIn(contents, (walked - done) + {x}, walked)
      decreases |contents.Keys - done|
    {
      var kids := ContentChildren(contents, x);
      walked := done;
      assert kids * walked == {} by {
        forall d | d in kids
          ensures d !in done
        {
        }
      }
      while kids != {}
        invariant engine.Valid() && ChildLoop(engine.rows, contents, t, x, done, walked, kids, ready)
        decreases |kids|
      {
        ghost var someKid := SomeElement(kids);
        var c :| c in kids;
        ghost var before := engine.rows;
        assert NoDetour(engine.rows, contents, c);
        if ready {
          NotYetIndexed(engine.rows, contents, t, walked, c);
        }
        var indexed := engine.Index(contents, c, {}, ready);
        if indexed.Err? {
          return Err(indexed.error), walked;
        }
        IndexStep(before, engine.rows, contents, t, walked, c, indexed.value, ready);
        ChildStart(contents, x, walked, c);
        FewerLeft(contents.Keys, done, walked, c);
        ghost var sub;
        var children;
        children, sub := RecountIndexes(contents, t, c, walked + {c}, ready);
        if children.Err? {
          return Err(children.error), walked;
        }
        KidsStayUnwalked(contents, x, walked, c, sub, kids);
        ChildNext(contents, x, done, walked, c, sub);
        walked := sub;
        kids := kids - {c};
      }
      ChildDone(contents, x, done, walked);
      res := Ok(());
    }
  }
}

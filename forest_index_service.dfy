/**
 * The forest index service: the engine that keeps the nested-set bounds of the index table
 * consistent while nodes are saved, moved, deleted and the whole tree is rebuilt.
 *
 * The table is the `rows` field of the service object and every public operation changes it
 * in place, statement by statement, as the repository's bulk statements do. A public
 * operation that runs in a transaction and fails leaves the table as it found it; the key
 * generator behind new rows is not rolled back.
 */
module ForestIndexService {
  import opened Wrappers
  import opened ForestIndexEntity
  import opened ForestIndexRepository
  import opened NestedSetInvariant
  import opened NestedSetInsert
  import opened NestedSetRemove
  import opened ForestContent
  import opened FiniteSets

  // ---------------------------------------------------------------- what one count-in does

  /** The effect of counting row `id` in: as the new root when it has no parent, otherwise as
      the last child of its parent, which must exist and have a right bound. */
  ghost function CountedIn(rows: Table, id: Id): (r: Result<Table, IndexError>)
    requires id in rows
    ensures r.Ok? ==> r.value.Keys == rows.Keys
  {
    var t := rows[id].treeType;
    match rows[id].parent
    case None =>
      var placed := RootPlaced(rows, id);
      var previous := SingleResult(FindPreviousRoots(placed, t, id));
      if previous.Err? then Err(previous.error)
      else if previous.value.None? then Ok(placed)
      else Ok(UpdateParent(placed, previous.value.value, Some(id)))
    case Some(p) =>
      if p !in rows || rows[p].rgt.None? then Err(ParentNotIndexed)
      else Ok(AppendedChild(rows, id, p))
  }

  /** Same keys; tree type, parent and content of every row unchanged. */
  ghost predicate SameShape(a: Table, b: Table) {
    a.Keys == b.Keys
    && forall i :: i in a ==>
         b[i].treeType == a[i].treeType && b[i].parent == a[i].parent && b[i].contentId == a[i].contentId
  }

  /** The rows of every other tree type are left alone. */
  ghost predicate OtherTypesKept(a: Table, b: Table, t: TreeType) {
    forall i :: i in a && a[i].treeType != t ==> i in b && b[i] == a[i]
  }

  /** Every row of type `t` afterwards that is new, or was a node, is a node: no node of the
      type loses a bound. */
  ghost predicate NumberedOn(a: Table, b: Table, t: TreeType) {
    forall i :: i in b && b[i].treeType == t && (i in a ==> IsNode(a, t, i)) ==> IsNode(b, t, i)
  }

  /** Every row of type `t` is a node: no row of the type is waiting without bounds. */
  ghost predicate FullyNumbered(rows: Table, t: TreeType) {
    forall i :: i in rows && rows[i].treeType == t ==> IsNode(rows, t, i)
  }

  /** The type gains no root, but for the first one a type without roots may get. */
  ghost predicate RootsKept(a: Table, b: Table, t: TreeType) {
    FindRoots(b, t) <= FindRoots(a, t) || (FindRoots(a, t) == {} && |FindRoots(b, t)| <= 1)
  }

  /** Outside `changed`, a row has a bound afterwards exactly when it had one before. */
  ghost predicate PresenceKept(a: Table, b: Table, changed: set<Id>) {
    forall i :: i in a && i in b && i !in changed ==>
      (b[i].lft.Some? <==> a[i].lft.Some?) && (b[i].rgt.Some? <==> a[i].rgt.Some?)
  }

  /** A node that starts at label 1 is still a node starting at label 1. */
  ghost predicate KeepsFirst(a: Table, b: Table, t: TreeType) {
    forall i :: IsNode(a, t, i) && a[i].lft == Some(1) ==> IsNode(b, t, i) && b[i].lft == Some(1)
  }

  /** Every row of the type hanging under an already counted row, and not counted itself,
      is still waiting without bounds. */
  ghost predicate PendingUnindexed(rows: Table, t: TreeType, done: set<Id>) {
    forall i :: i in rows && rows[i].treeType == t && i !in done && rows[i].parent.Some? && rows[i].parent.value in done ==>
      rows[i].lft.None? && rows[i].rgt.None?
  }

  /** The state in which walking the children of `x` keeps the invariant. */
  ghost predicate WalkReady(rows: Table, t: TreeType, x: Id, done: set<Id>) {
    NestedSet(rows, t) && IsNode(rows, t, x) && PendingUnindexed(rows, t, done)
  }

  /** Every row of the type hanging under a row of `s` is in `done`. */
  ghost predicate ClosedUnder(rows: Table, t: TreeType, s: set<Id>, done: set<Id>) {
    forall i :: i in rows && rows[i].treeType == t && rows[i].parent.Some? && rows[i].parent.value in s ==> i in done
  }

  /** The rows of `done` not already `visited` were counted in since `start`: each is a node
      under a counted row, and nothing else gained or lost a bound. */
  ghost predicate Counted(start: Table, rows: Table, t: TreeType, visited: set<Id>, done: set<Id>) {
    SameShape(start, rows) && OtherTypesKept(start, rows, t)
    && visited <= done <= rows.Keys
    && (forall i :: i in done - visited ==> IsNode(rows, t, i) && rows[i].parent.Some? && rows[i].parent.value in done)
    && PresenceKept(start, rows, done - visited)
  }

  /**
   * What a walk from `x` leaves behind: it counted the rows of `done` that were not already
   * `visited`, each of them is a node under a counted row, and every row of the type under
   * `x` or under a newly counted row has been counted.
   */
  ghost predicate Walked(rows: Table, t: TreeType, x: Id, visited: set<Id>, done: set<Id>) {
    visited <= done <= rows.Keys
    && (forall i :: i in done - visited ==> IsNode(rows, t, i))
    && HungFrom(rows, x, visited, done)
    && ClosedUnder(rows, t, (done - visited) + {x}, done)
  }

  /** Every row of the type hanging, through parent links, from node `x` is a node: some set
      of nodes holds `x` and every row of the type under one of its members. */
  ghost predicate SubtreeNumbered(rows: Table, t: TreeType, x: Id) {
    exists d: set<Id> :: x in d && (forall i :: i in d ==> IsNode(rows, t, i)) && ClosedUnder(rows, t, d, d)
  }

  /** A walk from node `x` that visited only `x` leaves the whole subtree below `x` numbered. */
  lemma WalkedSubtree(rows: Table, t: TreeType, x: Id, done: set<Id>)
    requires Walked(rows, t, x, {x}, done) && IsNode(rows, t, x)
    ensures SubtreeNumbered(rows, t, x)
  {
    assert (done - {x}) + {x} == done;
    forall i | i in done ensures IsNode(rows, t, i) {
      if i != x {
        assert i in done - {x};
      }
    }
  }

  /** Counting row `id` in and walking below it again loses no node of the type. */
  lemma CountAndWalkNumber(u: Table, counted: Table, rows: Table, t: TreeType, id: Id, done: set<Id>)
    requires id in u && u[id].treeType == t && CountedIn(u, id).Ok? && counted == CountedIn(u, id).value
    requires SameShape(counted, rows) && Walked(rows, t, id, {id}, done) && PresenceKept(counted, rows, done - {id})
    requires IsNode(rows, t, id)
    ensures NumberedOn(u, rows, t)
  {
    CountedInFrame(u, id);
    forall i | i in rows && rows[i].treeType == t && (i in u ==> IsNode(u, t, i)) && i != id
      ensures IsNode(rows, t, i)
    {
      if i !in done {
        assert IsNode(counted, t, i);
      } else {
        assert i in done - {id};
      }
    }
  }

  /** Counting a written row in loses no node of its type. */
  lemma CountedNumbered(before: Table, id: Id, row: IndexRow)
    requires CountedIn(before[id := row], id).Ok?
    ensures NumberedOn(before, CountedIn(before[id := row], id).value, row.treeType)
  {
    var t, r := row.treeType, CountedIn(before[id := row], id).value;
    CountedInFrame(before[id := row], id);
    forall i | i in r && r[i].treeType == t && (i in before ==> IsNode(before, t, i)) && i != id
      ensures IsNode(r, t, i)
    {
      assert IsNode(before[id := row], t, i);
    }
  }

  /** Every row of `done` not already `visited` hangs under `x` or under another such row. */
  ghost predicate HungFrom(rows: Table, x: Id, visited: set<Id>, done: set<Id>) {
    forall i :: i in done - visited ==> i in rows && rows[i].parent.Some? && rows[i].parent.value in (done - visited) + {x}
  }

  /** The parent of every row of `s` is in `s`, or the row has none. */
  ghost predicate UpClosed(rows: Table, s: set<Id>) {
    forall i :: i in s ==> i in rows && (rows[i].parent.None? || rows[i].parent.value in s)
  }

  /** No row of `s` hangs under `x`. */
  ghost predicate NoChildIn(rows: Table, x: Id, s: set<Id>) {
    forall i :: i in s && i in rows ==> rows[i].parent != Some(x)
  }

  /** A walk that starts from rows whose parents were counted before them meets no child of
      the walked row that was counted already. */
  ghost predicate WalkAcyclic(rows: Table, x: Id, visited: set<Id>) {
    UpClosed(rows, visited) && NoChildIn(rows, x, visited)
  }

  // ---------------------------------------------------------------- facts about one count-in

  /** The new root alone changes: every other row only has its bounds moved up. */
  lemma RootPlacedRows(rows: Table, id: Id)
    requires id in rows
    ensures var t, placed := rows[id].treeType, RootPlaced(rows, id);
            placed.Keys == rows.Keys
            && placed[id].lft.Some? && placed[id].rgt.Some?
            && placed[id].parent == rows[id].parent && placed[id].treeType == t && placed[id].contentId == rows[id].contentId
            && (forall i :: i in rows && i != id ==>
                  placed[i] == rows[i].(lft := placed[i].lft, rgt := placed[i].rgt)
                  && (placed[i].lft.Some? <==> rows[i].lft.Some?) && (placed[i].rgt.Some? <==> rows[i].rgt.Some?)
                  && (rows[i].treeType != t ==> placed[i] == rows[i]))
    ensures SameShape(rows, RootPlaced(rows, id)) && OtherTypesKept(rows, RootPlaced(rows, id), rows[id].treeType)
  {
    var placed := RootPlaced(rows, id);
    forall i | i in rows && i != id
      ensures placed[i] == rows[i].(lft := placed[i].lft, rgt := placed[i].rgt)
      ensures (placed[i].lft.Some? <==> rows[i].lft.Some?) && (placed[i].rgt.Some? <==> rows[i].rgt.Some?)
      ensures rows[i].treeType != rows[id].treeType ==> placed[i] == rows[i]
    {
      RootPlacedOther(rows, id, i);
    }
  }

  /** A new root shifts each other row of its type by one and leaves the rest. */
  lemma RootPlacedOther(rows: Table, id: Id, i: Id)
    requires id in rows && i in rows && i != id
    ensures var placed := RootPlaced(rows, id);
            placed[i] == rows[i].(lft := placed[i].lft, rgt := placed[i].rgt)
            && (placed[i].lft.Some? <==> rows[i].lft.Some?) && (placed[i].rgt.Some? <==> rows[i].rgt.Some?)
            && (rows[i].treeType != rows[id].treeType ==> placed[i] == rows[i])
  {
    var s := BeforeRootInsert(rows, rows[id].treeType);
    assert RootPlaced(rows, id)[i] == s[i];
  }

  /** A new root writes bounds, and the parent of the previous root. */
  lemma RootPlacedFrame(rows: Table, id: Id)
    requires id in rows && rows[id].parent.None? && CountedIn(rows, id).Ok?
    ensures var t, r := rows[id].treeType, CountedIn(rows, id).value;
            r.Keys == rows.Keys
            && OtherTypesKept(rows, r, t)
            && PresenceKept(rows, r, {id})
            && IsNode(r, t, id) && r[id].parent == rows[id].parent
            && (forall i :: i in rows ==> r[i].treeType == rows[i].treeType && r[i].contentId == rows[i].contentId)
            && (forall i :: i in rows && i != id ==>
                  r[i].parent == rows[i].parent || (i in FindRoots(rows, t) && r[i].parent == Some(id)))
  {
    var t, placed := rows[id].treeType, RootPlaced(rows, id);
    RootPlacedRows(rows, id);
    var previous := SingleResult(FindPreviousRoots(placed, t, id));
    if previous.value.None? {
      assert CountedIn(rows, id).value == placed;
    } else {
      var p := previous.value.value;
      assert p in FindRoots(rows, t);
      assert CountedIn(rows, id).value == UpdateParent(placed, p, Some(id));
      ReparentedRootFrame(rows, id, p);
    }
  }

  /** The previous root `p`, re-parented under the new root, changes only its parent. */
  lemma ReparentedRootFrame(rows: Table, id: Id, p: Id)
    requires id in rows && p in FindRoots(rows, rows[id].treeType) && p != id
    ensures var t := rows[id].treeType;
            var r := UpdateParent(RootPlaced(rows, id), p, Some(id));
            r.Keys == rows.Keys
            && OtherTypesKept(rows, r, t)
            && PresenceKept(rows, r, {id})
            && IsNode(r, t, id) && r[id].parent == rows[id].parent
            && (forall i :: i in rows ==> r[i].treeType == rows[i].treeType && r[i].contentId == rows[i].contentId)
            && (forall i :: i in rows && i != id ==>
                  r[i].parent == rows[i].parent || (i in FindRoots(rows, t) && r[i].parent == Some(id)))
  {
    RootPlacedRows(rows, id);
  }

  /** An appended child writes bounds only. */
  lemma AppendedChildFrame(rows: Table, id: Id)
    requires id in rows && rows[id].parent.Some? && CountedIn(rows, id).Ok?
    ensures var t, r := rows[id].treeType, CountedIn(rows, id).value;
            SameShape(rows, r)
            && OtherTypesKept(rows, r, t)
            && PresenceKept(rows, r, {id})
            && IsNode(r, t, id)
  {
  }

  /** Counting a row in writes only bounds, plus the parent of the previous root. */
  lemma CountedInFrame(rows: Table, id: Id)
    requires id in rows && CountedIn(rows, id).Ok?
    ensures var t, r := rows[id].treeType, CountedIn(rows, id).value;
            r.Keys == rows.Keys
            && OtherTypesKept(rows, r, t)
            && PresenceKept(rows, r, {id})
            && IsNode(r, t, id) && r[id].parent == rows[id].parent
            && (forall i :: i in rows ==> r[i].treeType == rows[i].treeType && r[i].contentId == rows[i].contentId)
            && (forall i :: i in rows && i != id ==>
                  r[i].parent == rows[i].parent
                  || (rows[id].parent.None? && i in FindRoots(rows, t) && r[i].parent == Some(id)))
  {
    if rows[id].parent.None? {
      RootPlacedFrame(rows, id);
    } else {
      AppendedChildFrame(rows, id);
    }
  }

  /** Counting in an unnumbered row keeps the invariant, and the row becomes a node. */
  lemma CountedInKeepsNestedSet(rows: Table, id: Id)
    requires id in rows && rows[id].rgt.None? && NestedSet(Unnumbered(rows, id), rows[id].treeType)
    requires rows[id].parent.Some? ==>
               rows[id].lft.None? && (rows[id].parent.value in rows ==> rows[rows[id].parent.value].treeType == rows[id].treeType)
    ensures var t := rows[id].treeType;
            CountedIn(rows, id).Ok? ==> NestedSet(CountedIn(rows, id).value, t) && IsNode(CountedIn(rows, id).value, t, id)
  {
    var t := rows[id].treeType;
    if rows[id].parent.None? {
      RootPlacedKeepsNestedSet(rows, id);
      var placed := RootPlaced(rows, id);
      var previous := SingleResult(FindPreviousRoots(placed, t, id));
      if previous.Ok? && previous.value.Some? {
        var p := previous.value.value;
        assert p in FindPreviousRoots(placed, t, id);
        assert CountedIn(rows, id).value == UpdateParent(placed, p, Some(id));
      }
    } else if CountedIn(rows, id).Ok? {
      var p := rows[id].parent.value;
      assert Unnumbered(rows, id) == rows;
      assert IsNode(rows, t, p);
      AppendedChildIsNestedSet(rows, AppendedChild(rows, id, p), t, id, p);
    }
  }

  /** Counting in as a child keeps a node starting at label 1 there. */
  lemma AppendedChildKeepsFirst(rows: Table, id: Id, p: Id)
    requires id in rows && IsNode(rows, rows[id].treeType, p) && NestedSet(rows, rows[id].treeType)
    requires rows[id].lft.None? && rows[id].rgt.None?
    ensures KeepsFirst(rows, AppendedChild(rows, id, p), rows[id].treeType)
  {
    AppendedChildBounds(rows, id, p);
  }

  /** Counting in a waiting child keeps the rows still waiting without bounds. */
  lemma AppendedChildKeepsPending(rows: Table, t: TreeType, id: Id, done: set<Id>, p: Id)
    requires id in rows && rows[id].treeType == t && p in rows && rows[p].rgt.Some?
    requires NestedSet(rows, t) && rows[id].lft.None? && rows[id].rgt.None? && PendingUnindexed(rows, t, done)
    ensures PendingUnindexed(AppendedChild(rows, id, p), t, done + {id})
  {
    var r := AppendedChild(rows, id, p);
    forall i | i in r && r[i].treeType == t && i !in done + {id} && r[i].parent.Some? && r[i].parent.value in done + {id}
      ensures r[i].lft.None? && r[i].rgt.None?
    {
      if rows[i].parent.value == id {
        UnindexedChildren(rows, t, id);
      }
    }
  }

  /** The walk counts child `c` of `x` in: the walk's bookkeeping moves on to `done + {c}`. */
  lemma CountStep(start: Table, before: Table, middle: Table, t: TreeType, x: Id, visited: set<Id>,
                  done: set<Id>, c: Id)
    requires Counted(start, before, t, visited, done) && ClosedUnder(before, t, done - visited, done)
    requires x in visited && c in before && before[c].treeType == t && before[c].parent == Some(x) && c !in done
    requires CountedIn(before, c).Ok? && middle == CountedIn(before, c).value
    ensures Counted(start, middle, t, visited, done + {c}) && ClosedUnder(middle, t, done - visited, done)
  {
    AppendedChildFrame(before, c);
    CountedOneMore(start, before, middle, t, visited, done, c);
    ClosedUnderKept(before, middle, t, done - visited, done);
  }

  /** A step that writes bounds only, and numbers `c`, adds `c` to the rows counted. */
  lemma CountedOneMore(start: Table, before: Table, middle: Table, t: TreeType, visited: set<Id>, done: set<Id>, c: Id)
    requires Counted(start, before, t, visited, done) && c in before && before[c].parent.Some?
    requires before[c].parent.value in done && c !in done
    requires SameShape(before, middle) && OtherTypesKept(before, middle, t)
    requires PresenceKept(before, middle, {c}) && IsNode(middle, t, c)
    ensures Counted(start, middle, t, visited, done + {c})
  {
    ShapeChain(start, before, middle, t);
    forall i | i in done - visited ensures IsNode(middle, t, i) {
      assert IsNode(before, t, i);
    }
    assert (done + {c}) - visited == (done - visited) + {c};
  }

  /** Writing bounds only keeps the rows under `s` inside `done`. */
  lemma ClosedUnderKept(before: Table, middle: Table, t: TreeType, s: set<Id>, done: set<Id>)
    requires ClosedUnder(before, t, s, done) && SameShape(before, middle)
    ensures ClosedUnder(middle, t, s, done)
  {
  }

  /** With the invariant at hand, counting child `c` in readies the walk below it. */
  lemma CountStepReady(start: Table, before: Table, middle: Table, t: TreeType, x: Id,
                       done: set<Id>, c: Id)
    requires c in before && before[c].treeType == t && before[c].parent == Some(x) && c !in done && x in done
    requires CountedIn(before, c).Ok? && middle == CountedIn(before, c).value
    requires WalkReady(before, t, x, done) && KeepsFirst(start, before, t)
    ensures WalkReady(middle, t, c, done + {c}) && IsNode(middle, t, x) && KeepsFirst(start, middle, t)
  {
    AppendedChildFrame(before, c);
    assert before[c].lft.None? && before[c].rgt.None?;
    assert Unnumbered(before, c) == before;
    CountedInKeepsNestedSet(before, c);
    AppendedChildKeepsFirst(before, c, x);
    AppendedChildKeepsPending(before, t, c, done, x);
  }

  /** The walk below child `c` returned `sub`: the bookkeeping moves on to `sub`. */
  lemma SubStep(start: Table, middle: Table, after: Table, t: TreeType, x: Id, visited: set<Id>,
                done: set<Id>, c: Id, sub: set<Id>, ready: bool)
    requires Counted(start, middle, t, visited, done + {c}) && ClosedUnder(middle, t, done - visited, done)
    requires c !in done && visited <= done
    requires SameShape(middle, after) && OtherTypesKept(middle, after, t)
    requires Walked(after, t, c, done + {c}, sub) && PresenceKept(middle, after, sub - (done + {c}))
    requires HungFrom(middle, x, visited, done + {c})
    requires ready ==> IsNode(middle, t, x) && KeepsFirst(start, middle, t)
    requires ready ==> WalkReady(after, t, c, sub) && KeepsFirst(middle, after, t)
    ensures Counted(start, after, t, visited, sub) && ClosedUnder(after, t, sub - visited, sub)
    ensures HungFrom(after, x, visited, sub)
    ensures ready ==> WalkReady(after, t, x, sub) && KeepsFirst(start, after, t)
  {
    assert sub - visited == (done - visited) + {c} + (sub - (done + {c}));
    SubCounted(start, middle, after, t, visited, done, c, sub);
    ClosedUnderKept(middle, after, t, done - visited, done);
    assert HungFrom(middle, x, visited, done + {c});
  }

  /** The rows the walk below child `c` counted join the rows counted before it. */
  lemma SubCounted(start: Table, middle: Table, after: Table, t: TreeType, visited: set<Id>,
                   done: set<Id>, c: Id, sub: set<Id>)
    requires Counted(start, middle, t, visited, done + {c}) && c !in done && visited <= done
    requires SameShape(middle, after) && OtherTypesKept(middle, after, t)
    requires Walked(after, t, c, done + {c}, sub) && PresenceKept(middle, after, sub - (done + {c}))
    ensures Counted(start, after, t, visited, sub)
  {
    ShapeChain(start, middle, after, t);
    forall i | i in (done + {c}) - visited ensures IsNode(after, t, i) {
      assert IsNode(middle, t, i);
    }
    assert sub - visited == ((done + {c}) - visited) + (sub - (done + {c}));
  }

  /** Counting child `c` of `x` in keeps the rows counted by the walk from `x` hanging under it. */
  lemma HangStep(before: Table, middle: Table, x: Id, visited: set<Id>, done: set<Id>, c: Id)
    requires HungFrom(before, x, visited, done) && SameShape(before, middle)
    requires c in before && before[c].parent == Some(x) && c !in visited
    ensures HungFrom(middle, x, visited, done + {c})
  {
  }

  /** Below a child met for the first time, the walk again meets no counted child. */
  lemma DeeperAcyclic(rows: Table, x: Id, visited: set<Id>, done: set<Id>, c: Id)
    requires UpClosed(rows, visited) && HungFrom(rows, x, visited, done) && x in visited && visited <= done
    requires c in rows && rows[c].parent == Some(x) && c !in done
    ensures WalkAcyclic(rows, c, done + {c})
  {
  }

  /** The rows a walk below child `c` counted do not hang under `x`, so the children of `x`
      still to visit stay uncounted. */
  lemma KidsStayFresh(rows: Table, x: Id, done: set<Id>, c: Id, sub: set<Id>, kids: set<Id>)
    requires HungFrom(rows, c, done + {c}, sub) && x in done && c !in done
    requires forall k :: k in kids ==> k in rows && rows[k].parent == Some(x)
    requires kids * done == {} && done + {c} <= sub
    ensures (kids - {c}) * sub == {}
  {
  }

  /** The loop state of a walk from `x`: the rows counted so far, the children of `x` still
      to visit, and what `ready` and `acyclic` promise. */
  ghost predicate WalkLoop(start: Table, rows: Table, t: TreeType, x: Id, visited: set<Id>, done: set<Id>,
                           kids: set<Id>, ready: bool, acyclic: bool) {
    x in visited && x in rows && rows[x].treeType == t
    && Counted(start, rows, t, visited, done) && ClosedUnder(rows, t, done - visited, done)
    && kids <= FindDirectChildren(start, x, t) && FindDirectChildren(start, x, t) - kids <= done
    && (ready ==> WalkReady(rows, t, x, done) && KeepsFirst(start, rows, t))
    && HungFrom(rows, x, visited, done)
    && (acyclic ==> kids * done == {} && WalkAcyclic(start, x, visited))
  }

  /** A walk starts in its loop state. */
  lemma WalkStart(rows: Table, t: TreeType, x: Id, visited: set<Id>, ready: bool, acyclic: bool)
    requires x in rows && x in visited && visited <= rows.Keys && rows[x].treeType == t
    requires ready ==> WalkReady(rows, t, x, visited)
    requires acyclic ==> WalkAcyclic(rows, x, visited)
    ensures WalkLoop(rows, rows, t, x, visited, visited, FindDirectChildren(rows, x, t), ready, acyclic)
  {
  }

  /** A child met again can only be met when the walk is not known to be acyclic; under the
      invariant a first-met child is counted in. */
  lemma WalkMeets(start: Table, before: Table, t: TreeType, x: Id, visited: set<Id>, done: set<Id>,
                  kids: set<Id>, ready: bool, acyclic: bool, c: Id)
    requires WalkLoop(start, before, t, x, visited, done, kids, ready, acyclic) && c in kids
    ensures c in before && before[c].treeType == t && before[c].parent == Some(x)
    ensures c in done ==> !acyclic
    ensures c !in done && ready ==> CountedIn(before, c).Ok?
  {
  }

  /** Child `c` of `x`, met first in the walk's loop state over `before`, is counted in as
      `middle`: the walk below `c` may start, and the loop's bookkeeping holds `c`. */
  ghost predicate Descended(start: Table, before: Table, middle: Table, t: TreeType, x: Id, visited: set<Id>,
                            done: set<Id>, kids: set<Id>, ready: bool, acyclic: bool, c: Id) {
    WalkLoop(start, before, t, x, visited, done, kids, ready, acyclic) && c in kids && c !in done
    && SameShape(before, middle) && OtherTypesKept(before, middle, t)
    && c in middle && done + {c} <= middle.Keys && middle[c].treeType == t
    && (ready ==> WalkReady(middle, t, c, done + {c}))
    && (acyclic ==> WalkAcyclic(middle, c, done + {c}))
    && Counted(start, middle, t, visited, done + {c}) && ClosedUnder(middle, t, done - visited, done)
    && HungFrom(middle, x, visited, done + {c})
    && (ready ==> IsNode(middle, t, x) && KeepsFirst(start, middle, t))
  }

  /** Once child `c` is counted in, the walk below it may start. */
  lemma WalkDescend(start: Table, before: Table, middle: Table, t: TreeType, x: Id, visited: set<Id>,
                    done: set<Id>, kids: set<Id>, ready: bool, acyclic: bool, c: Id)
    requires WalkLoop(start, before, t, x, visited, done, kids, ready, acyclic) && c in kids && c !in done
    requires CountedIn(before, c).Ok? && middle == CountedIn(before, c).value
    ensures Descended(start, before, middle, t, x, visited, done, kids, ready, acyclic, c)
    ensures |middle.Keys - (done + {c})| < |middle.Keys - done|
  {
    WalkMeets(start, before, t, x, visited, done, kids, ready, acyclic, c);
    AppendedChildFrame(before, c);
    CountStep(start, before, middle, t, x, visited, done, c);
    HangStep(before, middle, x, visited, done, c);
    if acyclic {
      DeeperAcyclic(start, x, visited, done, c);
    }
    if ready {
      CountStepReady(start, before, middle, t, x, done, c);
    }
    FewerLeft(middle.Keys, done, done, c);
  }

  /** Statements that keep the shape one after the other keep it. */
  lemma ShapeChain(a: Table, b: Table, c: Table, t: TreeType)
    requires SameShape(a, b) && OtherTypesKept(a, b, t) && SameShape(b, c) && OtherTypesKept(b, c, t)
    ensures SameShape(a, c) && OtherTypesKept(a, c, t)
  {
  }

  /**
   * What a walk from `x` over the rows of type `t` promises: only bounds change and other
   * types are left alone; a walk that ends has counted in, as nodes, exactly the rows hanging
   * from `x` that were not visited already, and no other row gained or lost a bound; a
   * `ready` walk keeps the invariant; an `acyclic` walk started `ready` always ends.
   */
  ghost predicate WalkOutcome(start: Table, rows: Table, t: TreeType, x: Id, visited: set<Id>,
                              res: Result<set<Id>, IndexError>, ready: bool, acyclic: bool) {
    SameShape(start, rows) && OtherTypesKept(start, rows, t)
    && (res.Ok? ==> Walked(rows, t, x, visited, res.value) && PresenceKept(start, rows, res.value - visited))
    && (res.Ok? && ready ==> WalkReady(rows, t, x, res.value) && KeepsFirst(start, rows, t))
    && (ready && acyclic ==> res.Ok?)
  }

  /** With no child left to visit, the walk from `x` is complete. */
  lemma WalkDone(start: Table, rows: Table, t: TreeType, x: Id, visited: set<Id>, done: set<Id>,
                 ready: bool, acyclic: bool)
    requires WalkLoop(start, rows, t, x, visited, done, {}, ready, acyclic)
    ensures WalkOutcome(start, rows, t, x, visited, Ok(done), ready, acyclic)
  {
    assert ClosedUnder(rows, t, {x}, done);
  }

  /** A walk that stops early, when it may, has kept the shape it must keep. */
  lemma WalkStops(start: Table, before: Table, rows: Table, t: TreeType, x: Id, visited: set<Id>, e: IndexError,
                  ready: bool, acyclic: bool)
    requires SameShape(start, before) && OtherTypesKept(start, before, t)
    requires SameShape(before, rows) && OtherTypesKept(before, rows, t)
    requires !(ready && acyclic)
    ensures WalkOutcome(start, rows, t, x, visited, Err(e), ready, acyclic)
  {
    ShapeChain(start, before, rows, t);
  }

  /** The walk below child `c` returned `sub`: the loop moves on to the next child. */
  lemma WalkNext(start: Table, before: Table, middle: Table, after: Table, t: TreeType, x: Id, visited: set<Id>,
                 done: set<Id>, kids: set<Id>, ready: bool, acyclic: bool, c: Id, sub: set<Id>)
    requires Descended(start, before, middle, t, x, visited, done, kids, ready, acyclic, c)
    requires SameShape(middle, after) && OtherTypesKept(middle, after, t)
    requires Walked(after, t, c, done + {c}, sub) && PresenceKept(middle, after, sub - (done + {c}))
    requires ready ==> WalkReady(after, t, c, sub) && KeepsFirst(middle, after, t)
    ensures WalkLoop(start, after, t, x, visited, sub, kids - {c}, ready, acyclic)
  {
    SubStep(start, middle, after, t, x, visited, done, c, sub, ready);
    if acyclic {
      KidsStayFresh(start, x, done, c, sub, kids);
    }
  }

  // ---------------------------------------------------------------- what saving a node does

  /** The key a save writes to: the node's own key when that row is stored, a new one otherwise. */
  ghost function SavedKey(rows: Table, nextId: nat, node: IndexNode): Id {
    if node.id.Some? && node.id.value in rows then node.id.value else nextId
  }

  /** The stored parent a save compares with: none for a node without a key. */
  ghost function PreviousParent(rows: Table, node: IndexNode): Option<Id> {
    if node.id.Some? then FindParentId(rows, node.id.value) else None
  }

  /** A save that changes the parent re-lays the node and its subtree. */
  ghost predicate ParentChange(rows: Table, node: IndexNode) {
    PreviousParent(rows, node) != node.row.parent
  }

  /** A move takes the subtree out of its old place, when both old bounds were passed in: the
      rows strictly inside are cleared, then the gap is closed. */
  ghost function MovedOut(rows: Table, t: TreeType, lft: Option<int>, rgt: Option<int>): Table {
    if lft.Some? && rgt.Some? then AfterDelete(ClearRange(rows, t, lft.value + 1, rgt.value - 1), t, lft, rgt)
    else rows
  }

  /** The old bounds a save passes to the move: the node's own bounds, when it has a key. */
  ghost function OldLft(node: IndexNode): Option<int> {
    if node.id.Some? then node.row.lft else None
  }

  ghost function OldRgt(node: IndexNode): Option<int> {
    if node.id.Some? then node.row.rgt else None
  }

  /**
   * A save request the invariant survives: a node with a key is stored with that tree type
   * and those bounds; a stored node with a parent keeps some parent (a node moved to the
   * root would take the previous root's tree along and leave a gap); a new node without a
   * parent comes without a right bound (the new root's right bound would count it); and a
   * requested parent, when stored, has the node's tree type.
   */
  ghost predicate WellFormedRequest(rows: Table, node: IndexNode) {
    var t := node.row.treeType;
    (node.id.Some? ==>
       node.id.value in rows && rows[node.id.value].treeType == t
       && rows[node.id.value].lft == node.row.lft && rows[node.id.value].rgt == node.row.rgt
       && (rows[node.id.value].parent.Some? ==> node.row.parent.Some?))
    && (node.id.None? && node.row.parent.None? ==> node.row.rgt.None?)
    && (node.row.parent.Some? && node.row.parent.value in rows ==> rows[node.row.parent.value].treeType == t)
  }

  /** Writing a row without a right bound over a non-node leaves a table a count-in keeps
      consistent. */
  lemma SavedRowReady(rows: Table, t: TreeType, k: Id, row: IndexRow)
    requires NestedSet(rows, t) && !IsNode(rows, t, k) && row.treeType == t && row.rgt.None?
    ensures NestedSet(Unnumbered(rows[k := row], k), t)
  {
    assert Unnumbered(rows[k := row], k) == rows[k := ClearRow(row)];
    ReplaceUnbounded(rows, t, k, ClearRow(row));
  }

  /** Taking a moved node's subtree out keeps the invariant and the node's saved row. */
  lemma MovedOutReady(rows: Table, t: TreeType, k: Id, moved: IndexRow, lft: Option<int>, rgt: Option<int>)
    requires NestedSet(rows, t) && moved.treeType == t && moved.lft.None? && moved.rgt.None?
    requires lft.Some? && rgt.Some? ==> IsNode(rows, t, k) && rows[k].lft == lft && rows[k].rgt == rgt
    requires !(lft.Some? && rgt.Some?) ==> !IsNode(rows, t, k)
    ensures var u := MovedOut(rows[k := moved], t, lft, rgt);
            NestedSet(u, t) && k in u && u[k] == moved
  {
    if lft.Some? && rgt.Some? {
      var cleared := ClearRange(rows[k := moved], t, rows[k].lft.value + 1, rows[k].rgt.value - 1);
      assert cleared[k] == moved;
      var u := AfterDelete(cleared, t, rows[k].lft, rows[k].rgt);
      assert u[k] == moved;
      MoveKeepsNestedSet(rows, t, k, moved);
      assert MovedOut(rows[k := moved], t, lft, rgt) == u;
    } else {
      ReplaceUnbounded(rows, t, k, moved);
    }
  }

  /** The moved-out table keeps every key, tree type, parent and content. */
  lemma MovedOutShape(rows: Table, t: TreeType, lft: Option<int>, rgt: Option<int>)
    ensures SameShape(rows, MovedOut(rows, t, lft, rgt)) && OtherTypesKept(rows, MovedOut(rows, t, lft, rgt), t)
  {
  }

  /** After a moved node is counted in, the rows of the type under it still wait. */
  lemma PendingAfterCount(u: Table, t: TreeType, k: Id)
    requires NestedSet(u, t) && k in u && u[k].treeType == t && u[k].lft.None? && u[k].rgt.None?
    requires u[k].parent.Some? && CountedIn(u, k).Ok?
    ensures PendingUnindexed(CountedIn(u, k).value, t, {k})
  {
    UnindexedChildren(u, t, k);
    AppendedChildFrame(u, k);
  }

  /** A save that took no subtree out loses no node. */
  lemma MovedNothingNumbered(before: Table, k: Id, row: IndexRow, lft: Option<int>, rgt: Option<int>, after: Table)
    requires !(lft.Some? && rgt.Some?) && IsNode(after, row.treeType, k)
    requires NumberedOn(MovedOut(before[k := row], row.treeType, lft, rgt), after, row.treeType)
    ensures NumberedOn(before, after, row.treeType)
  {
    assert MovedOut(before[k := row], row.treeType, lft, rgt) == before[k := row];
  }

  /**
   * What a successful save leaves around the saved row `k`: one key more at most, the row
   * holding the requested parent, type and content, every other row keeping its type, its
   * content and its parent (but for a previous root hung under a new root), and the rows of
   * other types as they were.
   */
  ghost predicate SaveFrame(before: Table, after: Table, k: Id, node: IndexNode) {
    var t := node.row.treeType;
    after.Keys == before.Keys + {k}
    && after[k].parent == node.row.parent && after[k].treeType == t && after[k].contentId == node.row.contentId
    && forall i :: i in before && i != k ==>
         after[i].treeType == before[i].treeType && after[i].contentId == before[i].contentId
         && (before[i].treeType != t ==> after[i] == before[i])
         && (after[i].parent == before[i].parent
             || (node.row.parent.None? && i in FindRoots(before, t) && after[i].parent == Some(k)))
  }

  /** Writing the requested row is such a save. */
  lemma SaveFrameWritten(before: Table, k: Id, node: IndexNode, row: IndexRow)
    requires row.parent == node.row.parent && row.treeType == node.row.treeType && row.contentId == node.row.contentId
    ensures SaveFrame(before, before[k := row], k, node)
  {
  }

  /** Statements that keep every row's shape keep a save's frame. */
  lemma SaveFrameCompose(before: Table, saved: Table, after: Table, k: Id, node: IndexNode)
    requires SaveFrame(before, saved, k, node)
    requires SameShape(saved, after) && OtherTypesKept(saved, after, node.row.treeType)
    ensures SaveFrame(before, after, k, node)
  {
  }

  /** Counting the saved row in keeps a save's frame. */
  lemma SaveFrameCountIn(before: Table, u: Table, k: Id, node: IndexNode)
    requires SaveFrame(before, u, k, node) && k in u && CountedIn(u, k).Ok?
    ensures SaveFrame(before, CountedIn(u, k).value, k, node)
  {
    CountedInFrame(u, k);
    var t := node.row.treeType;
    assert forall i :: i in before && i != k && i in FindRoots(u, t) ==> i in FindRoots(before, t);
  }

  lemma SaveFrameCounted(before: Table, k: Id, node: IndexNode, row: IndexRow)
    requires row.parent == node.row.parent && row.treeType == node.row.treeType && row.contentId == node.row.contentId
    requires CountedIn(before[k := row], k).Ok?
    ensures SaveFrame(before, CountedIn(before[k := row], k).value, k, node)
  {
    SaveFrameWritten(before, k, node, row);
    SaveFrameCountIn(before, before[k := row], k, node);
  }

  lemma SaveFrameWalked(before: Table, k: Id, node: IndexNode, row: IndexRow, lft: Option<int>, rgt: Option<int>, after: Table)
    requires row.parent == node.row.parent && row.treeType == node.row.treeType && row.contentId == node.row.contentId
    requires var u := MovedOut(before[k := row], row.treeType, lft, rgt);
             CountedIn(u, k).Ok?
             && SameShape(CountedIn(u, k).value, after) && OtherTypesKept(CountedIn(u, k).value, after, row.treeType)
    ensures SaveFrame(before, after, k, node)
  {
    var t := row.treeType;
    var u := MovedOut(before[k := row], t, lft, rgt);
    SaveFrameWritten(before, k, node, row);
    MovedOutShape(before[k := row], t, lft, rgt);
    SaveFrameCompose(before, before[k := row], u, k, node);
    SaveFrameCountIn(before, u, k, node);
    SaveFrameCompose(before, CountedIn(u, k).value, after, k, node);
  }

  /** Without a parent change, a well-formed node missing a bound is counted in consistently. */
  lemma KeepCountKeeps(rows: Table, nextId: nat, node: IndexNode)
    requires forall i :: i in rows ==> i < nextId
    requires NestedSet(rows, node.row.treeType) && WellFormedRequest(rows, node)
    requires !ParentChange(rows, node) && !IsIndexed(node.row)
    ensures var k := SavedKey(rows, nextId, node);
            CountedIn(rows[k := node.row], k).Ok? ==> NestedSet(CountedIn(rows[k := node.row], k).value, node.row.treeType)
  {
    var t, k := node.row.treeType, SavedKey(rows, nextId, node);
    assert !IsNode(rows, t, k);
    SavedRowReady(rows, t, k, node.row);
    CountedInKeepsNestedSet(rows[k := node.row], k);
  }

  /** Without a parent change, a well-formed node with both bounds is saved consistently. */
  lemma KeepIndexedKeeps(rows: Table, nextId: nat, node: IndexNode)
    requires NestedSet(rows, node.row.treeType) && WellFormedRequest(rows, node)
    requires !ParentChange(rows, node) && IsIndexed(node.row)
    ensures NestedSet(rows[SavedKey(rows, nextId, node) := node.row], node.row.treeType)
  {
    ReplaceKeepingShape(rows, node.row.treeType, node.id.value, node.row);
  }

  /** A save that keeps the parent and brings both bounds writes the row as given: a save that
      numbers every node it found, and keeps the invariant when the request is well formed. */
  lemma KeptIndexedSave(rows: Table, nextId: nat, node: IndexNode)
    requires !ParentChange(rows, node) && IsIndexed(node.row)
    ensures var t, k := node.row.treeType, SavedKey(rows, nextId, node);
            var after := rows[k := node.row];
            SaveFrame(rows, after, k, node) && IsNode(after, t, k) && NumberedOn(rows, after, t)
            && (NestedSet(rows, t) && WellFormedRequest(rows, node) ==> NestedSet(after, t))
  {
    var t, k := node.row.treeType, SavedKey(rows, nextId, node);
    SaveFrameWritten(rows, k, node, node.row);
    if NestedSet(rows, t) && WellFormedRequest(rows, node) {
      KeepIndexedKeeps(rows, nextId, node);
    }
  }

  /** With a parent change, a well-formed request leaves the move ready to keep the invariant. */
  lemma MoveReadyFromRequest(rows: Table, nextId: nat, node: IndexNode)
    requires forall i :: i in rows ==> i < nextId
    requires NestedSet(rows, node.row.treeType) && WellFormedRequest(rows, node) && ParentChange(rows, node)
    ensures var t, k, moved := node.row.treeType, SavedKey(rows, nextId, node), node.row.(lft := None, rgt := None);
            var saved := rows[k := moved];
            NestedSet(MovedOut(saved, t, OldLft(node), OldRgt(node)), t) && saved[k].parent.Some?
            && (saved[k].parent.value in saved ==> saved[saved[k].parent.value].treeType == t)
  {
    var t, k, moved := node.row.treeType, SavedKey(rows, nextId, node), node.row.(lft := None, rgt := None);
    MovedOutReady(rows, t, k, moved, OldLft(node), OldRgt(node));
  }

  /** A moved row counted in under its parent is ready for the walk below it. */
  lemma MoveCountReady(u: Table, t: TreeType, id: Id)
    requires NestedSet(u, t) && id in u && u[id].treeType == t && u[id].lft.None? && u[id].rgt.None?
    requires u[id].parent.Some? && (u[id].parent.value in u ==> u[u[id].parent.value].treeType == t)
    requires CountedIn(u, id).Ok?
    ensures WalkReady(CountedIn(u, id).value, t, id, {id})
  {
    assert Unnumbered(u, id) == u;
    CountedInKeepsNestedSet(u, id);
    PendingAfterCount(u, t, id);
  }

  // ---------------------------------------------------------------- what a rebuild does

  /** Clearing the bounds keeps the roots. */
  lemma ClearKeepsRoots(rows: Table, t: TreeType)
    ensures FindRoots(ClearIndexes(rows, t), t) == FindRoots(rows, t)
  {
  }

  /** Clearing the bounds keeps every key, tree type, parent and content. */
  lemma ClearedShape(rows: Table, t: TreeType)
    ensures SameShape(rows, ClearIndexes(rows, t)) && OtherTypesKept(rows, ClearIndexes(rows, t), t)
  {
  }

  /** `c` is the cleared type `cleared` with its root `r` counted in at left bound 1: the walk
      below `r` may start, and every other row of the type is still without bounds. */
  ghost predicate RootCounted(cleared: Table, c: Table, t: TreeType, r: Id) {
    r in c && c[r].treeType == t && WalkReady(c, t, r, {r}) && WalkAcyclic(c, r, {r}) && c[r].lft == Some(1)
    && SameShape(cleared, c) && OtherTypesKept(cleared, c, t)
    && forall i :: i in c && i != r && c[i].treeType == t ==> c[i].lft.None? && c[i].rgt.None?
  }

  /** Over a cleared type with a single root, the root is counted in as `(1, 2)` and the walk
      below it may start. */
  lemma RebuildRootReady(cleared: Table, t: TreeType, r: Id)
    requires r in cleared && FindRoots(cleared, t) == {r}
    requires forall i :: i in cleared && cleared[i].treeType == t ==> cleared[i].lft.None? && cleared[i].rgt.None?
    ensures CountedIn(cleared, r).Ok? && RootCounted(cleared, CountedIn(cleared, r).value, t, r)
  {
    RootPlacedRows(cleared, r);
    var placed := RootPlaced(cleared, r);
    assert FindPreviousRoots(placed, t, r) == {} by {
      assert forall i :: i in FindPreviousRoots(placed, t, r) ==> i in FindRoots(cleared, t);
    }
    assert CountedIn(cleared, r) == Ok(placed);
    RootPlacedCounted(cleared, t, r);
  }

  /** The root of a cleared type, placed at `(1, 2)`, leaves the table ready for the walk. */
  lemma RootPlacedCounted(cleared: Table, t: TreeType, r: Id)
    requires r in cleared && cleared[r].parent.None? && cleared[r].treeType == t
    requires forall i :: i in cleared && cleared[i].treeType == t ==> cleared[i].lft.None? && cleared[i].rgt.None?
    ensures RootCounted(cleared, RootPlaced(cleared, r), t, r)
  {
    RootPlacedRows(cleared, r);
    var placed := RootPlaced(cleared, r);
    ClearedRootNested(cleared, t, r);
    assert forall i :: i in placed && i != r && placed[i].treeType == t ==> placed[i].lft.None? && placed[i].rgt.None?;
    assert PendingUnindexed(placed, t, {r});
    assert WalkAcyclic(placed, r, {r});
  }

  /** The root of a cleared type, placed, is the one node, at label 1. */
  lemma ClearedRootNested(cleared: Table, t: TreeType, r: Id)
    requires r in cleared && cleared[r].parent.None? && cleared[r].treeType == t
    requires forall i :: i in cleared && cleared[i].treeType == t ==> cleared[i].lft.None? && cleared[i].rgt.None?
    ensures NestedSet(RootPlaced(cleared, r), t) && IsNode(RootPlaced(cleared, r), t, r)
    ensures RootPlaced(cleared, r)[r].lft == Some(1)
  {
    assert Unnumbered(cleared, r) == cleared;
    NoNodesIsNestedSet(cleared, t);
    RootPlacedKeepsNestedSet(cleared, r);
  }

  /** The rows the walk from the root counted are exactly the numbered rows of the type. */
  lemma WalkedAreNodes(counted: Table, rows: Table, t: TreeType, r: Id, done: set<Id>)
    requires r in counted && IsNode(counted, t, r)
    requires forall i :: i in counted && i != r && counted[i].treeType == t ==> counted[i].lft.None? && counted[i].rgt.None?
    requires SameShape(counted, rows) && PresenceKept(counted, rows, done - {r})
    requires r in done && done <= rows.Keys && forall i :: i in done - {r} ==> IsNode(rows, t, i)
    requires IsNode(rows, t, r)
    ensures NodesOf(rows, t) == done
  {
    forall i | i in NodesOf(rows, t) ensures i in done {
    }
  }

  /**
   * After the walk from the single root, the numbered rows of the type are exactly the rows
   * the walk counted; every row under a numbered row is numbered; the root starts at 1 and
   * every other node lies inside it, so its right bound is twice the number of nodes.
   */
  lemma RebuildNumbersAll(counted: Table, rows: Table, t: TreeType, r: Id, done: set<Id>)
    requires r in counted && counted[r].lft == Some(1) && FindRoots(counted, t) == {r}
    requires forall i :: i in counted && i != r && counted[i].treeType == t ==> counted[i].lft.None? && counted[i].rgt.None?
    requires SameShape(counted, rows)
    requires Walked(rows, t, r, {r}, done) && PresenceKept(counted, rows, done - {r})
    requires WalkReady(rows, t, r, done) && KeepsFirst(counted, rows, t) && IsNode(counted, t, r)
    ensures NodesOf(rows, t) == done
    ensures forall i :: i in rows && rows[i].treeType == t && rows[i].parent.Some? && rows[i].parent.value in NodesOf(rows, t) ==>
              IsNode(rows, t, i)
    ensures rows[r].lft == Some(1) && rows[r].rgt == Some(2 * |NodesOf(rows, t)|)
    ensures FindAllChildren(rows, t, rows[r].lft, rows[r].rgt) == NodesOf(rows, t) - {r}
  {
    WalkedAreNodes(counted, rows, t, r, done);
    WalkedClosed(rows, t, r, done);
    WalkedRootSpan(counted, rows, t, r);
  }

  /** The root keeps label 1 through the walk and, as the only parentless node, spans all. */
  lemma WalkedRootSpan(counted: Table, rows: Table, t: TreeType, r: Id)
    requires FindRoots(counted, t) == {r} && SameShape(counted, rows) && NestedSet(rows, t)
    requires IsNode(counted, t, r) && counted[r].lft == Some(1) && KeepsFirst(counted, rows, t)
    ensures IsNode(rows, t, r) && rows[r].lft == Some(1) && rows[r].rgt == Some(2 * |NodesOf(rows, t)|)
    ensures FindAllChildren(rows, t, rows[r].lft, rows[r].rgt) == NodesOf(rows, t) - {r}
  {
    assert rows[r].lft == Some(1);
    WalkedSingleRoot(counted, rows, t, r);
    OnlyRootHoldsAll(rows, t, r);
  }

  /** A walk from the root that numbered `done` leaves every row under one of them numbered. */
  lemma WalkedClosed(rows: Table, t: TreeType, r: Id, done: set<Id>)
    requires Walked(rows, t, r, {r}, done) && NodesOf(rows, t) == done
    ensures forall i :: i in rows && rows[i].treeType == t && rows[i].parent.Some? && rows[i].parent.value in NodesOf(rows, t) ==>
              IsNode(rows, t, i)
  {
    assert (done - {r}) + {r} == done;
  }

  /** Bounds alone change during the walk, so the root stays the only parentless node. */
  lemma WalkedSingleRoot(counted: Table, rows: Table, t: TreeType, r: Id)
    requires FindRoots(counted, t) == {r} && SameShape(counted, rows)
    ensures forall i :: IsNode(rows, t, i) && rows[i].parent.None? ==> i == r
  {
    forall i | IsNode(rows, t, i) && rows[i].parent.None? ensures i == r {
      assert i in FindRoots(counted, t);
    }
  }

  /**
   * What a rebuild leaves of a cleared type with the single root `r`: the invariant holds,
   * only bounds changed, the root is `(1, 2n)` for the `n` nodes of the type, every other
   * node lies inside it and every row under a node is a node.
   */
  ghost predicate NumberedFrom(cleared: Table, rows: Table, t: TreeType, r: Id) {
    NestedSet(rows, t) && SameShape(cleared, rows) && OtherTypesKept(cleared, rows, t)
    && IsNode(rows, t, r) && rows[r].lft == Some(1) && rows[r].rgt == Some(2 * |NodesOf(rows, t)|)
    && FindAllChildren(rows, t, rows[r].lft, rows[r].rgt) == NodesOf(rows, t) - {r}
    && forall i :: i in rows && rows[i].treeType == t && rows[i].parent.Some? && rows[i].parent.value in NodesOf(rows, t) ==>
         IsNode(rows, t, i)
  }

  /** After a rebuild from the single root `r`, the number a node reports counts its
      descendants by parent links: the interval query finds exactly them. */
  lemma RebuiltCountsDescendants(start: Table, rows: Table, t: TreeType, r: Id, x: Id)
    requires FindRoots(start, t) == {r} && NumberedFrom(ForestIndexRepository.ClearIndexes(start, t), rows, t, r)
    requires IsNode(rows, t, x)
    ensures FindAllChildren(rows, t, rows[x].lft, rows[x].rgt) == DescendantsOf(rows, t, x)
    ensures rows[x].rgt.value - rows[x].lft.value == 2 * |DescendantsOf(rows, t, x)| + 1
  {
    var cleared := ForestIndexRepository.ClearIndexes(start, t);
    forall i | IsNode(rows, t, i) && rows[i].parent.None? ensures i == r {
      assert cleared[i].parent == start[i].parent;
      assert i in FindRoots(start, t);
    }
    DescendantsByLink(rows, t, r, x);
  }

  lemma NumberedAfterWalk(cleared: Table, counted: Table, rows: Table, t: TreeType, r: Id, done: set<Id>)
    requires r in cleared && FindRoots(cleared, t) == {r}
    requires forall i :: i in cleared && cleared[i].treeType == t ==> cleared[i].lft.None? && cleared[i].rgt.None?
    requires RootCounted(cleared, counted, t, r)
    requires SameShape(counted, rows) && OtherTypesKept(counted, rows, t)
    requires Walked(rows, t, r, {r}, done) && PresenceKept(counted, rows, done - {r})
    requires WalkReady(rows, t, r, done) && KeepsFirst(counted, rows, t)
    ensures NumberedFrom(cleared, rows, t, r)
  {
    SameShapeRoots(cleared, counted, t);
    RebuildNumbersAll(counted, rows, t, r, done);
    ShapeChain(cleared, counted, rows, t);
  }

  /** Bounds alone do not change which rows are roots. */
  lemma SameShapeRoots(a: Table, b: Table, t: TreeType)
    requires SameShape(a, b)
    ensures FindRoots(a, t) == FindRoots(b, t)
  {
    assert forall i :: i in FindRoots(a, t) <==> i in FindRoots(b, t);
  }

  // ---------------------------------------------------------------- what indexing a content does

  /** Indexing content `cid` needs no other row first: its parent content has an index row
      already, or, for a content without a parent, the tree type has a root already. */
  ghost predicate NoDetour(rows: Table, contents: Contents, cid: ContentId)
    requires cid in contents
  {
    match contents[cid].parent
    case Some(pc) => FindByContentId(rows, pc) != {}
    case None => FindRoots(rows, contents[cid].treeType) != {}
  }

  /** The index row loaded with the content is still current when it is saved: the content
      has none, or nothing is indexed before it. */
  ghost predicate FreshSnapshot(rows: Table, contents: Contents, cid: ContentId)
    requires cid in contents
  {
    FindByContentId(rows, cid) == {} || NoDetour(rows, contents, cid)
  }

  /** The state in which indexing content `cid` keeps the invariant of its tree type. */
  ghost predicate IndexReady(rows: Table, contents: Contents, cid: ContentId)
    requires cid in contents
  {
    NestedSet(rows, contents[cid].treeType) && IndexesTyped(rows, contents) && TypedForest(contents)
    && FreshSnapshot(rows, contents, cid)
  }

  /** No row is deleted, and the rows outside `except` keep their content, tree type and
      parent. */
  ghost predicate IndexFrame(before: Table, after: Table, except: set<Id>) {
    before.Keys <= after.Keys
    && forall i :: i in before && i !in except ==>
         after[i].contentId == before[i].contentId && after[i].treeType == before[i].treeType
         && after[i].parent == before[i].parent
  }

  /** Row `k` hangs under the index row of content `c`'s parent, or, for a content without a
      parent, under a root of the content's tree type. */
  ghost predicate ParentLink(rows: Table, contents: Contents, c: ContentId, k: Id)
    requires c in contents
  {
    k in rows && rows[k].parent.Some? && rows[k].parent.value in rows
    && match contents[c].parent
       case Some(pc) => rows[rows[k].parent.value].contentId == Some(pc)
       case None => rows[rows[k].parent.value].parent.None? && rows[rows[k].parent.value].treeType == contents[c].treeType
  }

  /**
   * What indexing content `cid` leaves behind: the node returned is a numbered row of the
   * content's tree type attached to the content; it is the content's previous index row
   * when it had one and a new row otherwise; it hangs under its parent content's index; and
   * every other row keeps its content, type and parent.
   */
  ghost predicate IndexedAs(before: Table, rows: Table, contents: Contents, cid: ContentId, n: IndexNode)
    requires cid in contents
  {
    var t := contents[cid].treeType;
    n.id.Some?
    && IsNode(rows, t, n.id.value) && rows[n.id.value].contentId == Some(cid)
    && n.row.contentId == Some(cid) && n.row.treeType == t && IsIndexed(n.row) && n.row.parent == rows[n.id.value].parent
    && (FindByContentId(before, cid) == {} ==> n.id.value !in before)
    && (FindByContentId(before, cid) != {} ==> FindByContentId(before, cid) == {n.id.value})
    && ParentLink(rows, contents, cid, n.id.value)
    && IndexFrame(before, rows, {n.id.value})
  }

  /** A row saved as its own parent is never counted in: its parent has no right bound. */
  lemma SelfParentFails(rows: Table, t: TreeType, k: Id, row: IndexRow, lft: Option<int>, rgt: Option<int>)
    requires row.parent == Some(k) && row.lft.None? && row.rgt.None?
    ensures k in MovedOut(rows[k := row], t, lft, rgt) && CountedIn(MovedOut(rows[k := row], t, lft, rgt), k).Err?
  {
  }

  /** A save that hangs a row under an existing row keeps every other parent and adds at
      most the saved row. */
  lemma SaveFrameIndexes(before: Table, after: Table, k: Id, node: IndexNode)
    requires SaveFrame(before, after, k, node) && node.row.parent.Some?
    ensures IndexFrame(before, after, {k}) && after.Keys == before.Keys + {k}
  {
  }

  /** A synthetic root saved over a type without roots keeps every other parent. */
  lemma SaveFrameSynthetic(before: Table, after: Table, k: Id, node: IndexNode)
    requires SaveFrame(before, after, k, node) && FindRoots(before, node.row.treeType) == {} && k !in before
    ensures IndexFrame(before, after, {}) && after.Keys == before.Keys + {k}
    ensures OtherTypesKept(before, after, node.row.treeType)
  {
  }

  /** A save of a row typed as its content (or of a content-less row, such as a synthetic
      root) keeps contents' index rows typed. */
  lemma SaveKeepsTyped(before: Table, after: Table, k: Id, node: IndexNode, contents: Contents)
    requires SaveFrame(before, after, k, node) && IndexesTyped(before, contents)
    requires node.row.contentId.Some? && node.row.contentId.value in contents ==>
               contents[node.row.contentId.value].treeType == node.row.treeType
    ensures IndexesTyped(after, contents)
  {
  }

  /** The node a content is saved as: its loaded index row, or a new one, with the parent
      index, the content's identifier and its tree type set. */
  function PreparedIndex(index: Option<IndexNode>, parent: Id, cid: ContentId, t: TreeType): (n: IndexNode)
    ensures n.row.parent == Some(parent) && n.row.contentId == Some(cid) && n.row.treeType == t
    ensures index.Some? ==> n.id == index.value.id && n.row.lft == index.value.row.lft && n.row.rgt == index.value.row.rgt
    ensures index.None? ==> n.id.None? && n.row.lft.None? && n.row.rgt.None?
  {
    var n := if index.Some? then index.value else IndexNode(None, IndexRow(None, DEFAULT_TREE_TYPE, None, None, None));
    n.(row := n.row.(parent := Some(parent), contentId := Some(cid), treeType := t))
  }

  /** The entity `index` prepares for a content, through the entity's own setters: the loaded
      entity, or a new one, given the parent index, the content's identifier and its tree type.
      Its column values are the node `PreparedIndex` describes. */
  method PrepareEntity(loaded: ForestIndex?, parent: Id, cid: ContentId, t: TreeType) returns (ix: ForestIndex)
    modifies loaded
    ensures loaded != null ==> ix == loaded
    ensures loaded == null ==> fresh(ix)
    ensures ix.Snapshot() == PreparedIndex(if loaded == null then None else Some(old(loaded.Snapshot())), parent, cid, t)
  {
    if loaded == null {
      ix := new ForestIndex();
    } else {
      ix := loaded;
    }
    ix.SetParent(Some(parent));
    ix.SetContentId(Some(cid));
    ix.SetForestTreeType(Some(t));
  }

  /** The synthetic root `index` creates for a type without a root: a new entity given only
      the tree type. */
  method SyntheticRootEntity(t: TreeType) returns (ix: ForestIndex)
    ensures fresh(ix) && ix.Snapshot() == IndexNode(None, IndexRow(None, t, None, None, None))
  {
    ix := new ForestIndex();
    ix.SetForestTreeType(Some(t));
  }

  /** The index row loaded with content `cid`, when there is exactly one. */
  ghost function Loaded(rows: Table, cid: ContentId): Option<IndexNode>
    requires SingleResult(FindByContentId(rows, cid)).Ok?
  {
    var k := SingleResult(FindByContentId(rows, cid)).value;
    if k.Some? then Some(IndexNode(k, rows[k.value])) else None
  }

  /**
   * What the final save of a content's prepared index row leaves: the row is the content's
   * index under `j`; a ready save keeps the invariant, the typed indexes and the other tree
   * types; a new row keeps a fully numbered type fully numbered; only the expected keys are new.
   */
  lemma PreparedSaveOutcome(initial: Table, before: Table, nextId0: nat, after: Table, contents: Contents,
                            cid: ContentId, j: Id, n: IndexNode, ready: bool)
    requires cid in contents && ParentsPresent(contents) && SingleResult(FindByContentId(initial, cid)).Ok?
    requires forall i :: i in before ==> i < nextId0
    requires IndexFrame(initial, before, {}) && j in before
    requires match contents[cid].parent
             case Some(pc) => before[j].contentId == Some(pc)
             case None => before[j].parent.None? && before[j].treeType == contents[cid].treeType
    requires NoDetour(initial, contents, cid) ==> before == initial
    requires contents[cid].parent.None? ==>
               (forall i :: i in before && i !in initial ==> before[i].contentId.None? && before[i].parent.None?)
               && before.Keys <= initial.Keys + {j}
    requires ready ==>
               IndexReady(initial, contents, cid) && NestedSet(before, contents[cid].treeType)
               && IndexesTyped(before, contents) && before[j].treeType == contents[cid].treeType
               && OtherTypesKept(initial, before, contents[cid].treeType)
    requires var t, node := contents[cid].treeType, PreparedIndex(Loaded(initial, cid), j, cid, contents[cid].treeType);
             var k := SavedKey(before, nextId0, node);
             n.id == Some(k) && SaveFrame(before, after, k, node) && IsNode(after, t, k)
             && n.row.parent == node.row.parent && n.row.treeType == t && n.row.contentId == node.row.contentId
             && IsIndexed(n.row)
             && (ParentChange(before, node) ==>
                   var u := MovedOut(before[k := node.row.(lft := None, rgt := None)], t, OldLft(node), OldRgt(node));
                   k in u && CountedIn(u, k).Ok?)
             && (Loaded(initial, cid).None? ==> NumberedOn(before, after, t))
             && (NestedSet(before, t) && WellFormedRequest(before, node) ==> NestedSet(after, t))
    ensures IndexedAs(initial, after, contents, cid, n) && n.row.parent == Some(j)
    ensures ready ==>
              NestedSet(after, contents[cid].treeType) && IndexesTyped(after, contents)
              && OtherTypesKept(initial, after, contents[cid].treeType)
    ensures Loaded(initial, cid).None? && FullyNumbered(before, contents[cid].treeType) ==>
              FullyNumbered(after, contents[cid].treeType)
    ensures NoDetour(initial, contents, cid) ==> after.Keys <= initial.Keys + {n.id.value}
    ensures contents[cid].parent.None? ==>
              after.Keys <= initial.Keys + {j, n.id.value}
              && forall i :: i in after && i !in initial && i != n.id.value ==> after[i].contentId.None? && after[i].parent.None?
  {
    var node := PreparedIndex(Loaded(initial, cid), j, cid, contents[cid].treeType);
    IndexedAfterSave(initial, before, nextId0, after, contents, cid, j, n);
    if ready {
      IndexKeepsInvariant(initial, before, nextId0, after, contents, cid, j, n.id.value);
      IndexKeepsOtherTypes(initial, before, nextId0, after, contents, cid, j);
    }
    SaveFrameIndexes(before, after, n.id.value, node);
    if Loaded(initial, cid).None? && FullyNumbered(before, contents[cid].treeType) {
      SaveKeepsFullyNumbered(before, after, n.id.value, node);
    }
    IndexNewRows(initial, before, after, contents, cid, n.id.value, node);
  }

  /** The effect of the final save of an index: the saved row is the content's index. */
  lemma IndexedAfterSave(initial: Table, before: Table, nextId0: nat, after: Table, contents: Contents,
                         cid: ContentId, j: Id, n: IndexNode)
    requires cid in contents && SingleResult(FindByContentId(initial, cid)).Ok?
    requires forall i :: i in before ==> i < nextId0
    requires IndexFrame(initial, before, {}) && j in before
    requires match contents[cid].parent
             case Some(pc) => before[j].contentId == Some(pc)
             case None => before[j].parent.None? && before[j].treeType == contents[cid].treeType
    requires var t, node := contents[cid].treeType, PreparedIndex(Loaded(initial, cid), j, cid, contents[cid].treeType);
             var k := SavedKey(before, nextId0, node);
             n.id == Some(k) && SaveFrame(before, after, k, node) && IsNode(after, t, k)
             && n.row.parent == node.row.parent && n.row.treeType == t && n.row.contentId == node.row.contentId
             && IsIndexed(n.row)
             && (ParentChange(before, node) ==>
                   var u := MovedOut(before[k := node.row.(lft := None, rgt := None)], t, OldLft(node), OldRgt(node));
                   k in u && CountedIn(u, k).Ok?)
    ensures IndexedAs(initial, after, contents, cid, n)
  {
    var t, node := contents[cid].treeType, PreparedIndex(Loaded(initial, cid), j, cid, contents[cid].treeType);
    var k := SavedKey(before, nextId0, node);
    SaveFrameIndexes(before, after, k, node);
    if FindByContentId(initial, cid) != {} {
      var k0 := SingleResult(FindByContentId(initial, cid)).value.value;
      assert k == k0;
    }
    if k == j && contents[cid].parent.None? {
      SelfParentFails(before, t, k, node.row.(lft := None, rgt := None), OldLft(node), OldRgt(node));
      assert false;
    }
  }

  /** A save that numbers the saved row and every row of the type that is new or was a node
      keeps a fully numbered type fully numbered. */
  lemma SaveKeepsFullyNumbered(before: Table, after: Table, k: Id, node: IndexNode)
    requires SaveFrame(before, after, k, node) && IsNode(after, node.row.treeType, k)
    requires NumberedOn(before, after, node.row.treeType) && FullyNumbered(before, node.row.treeType)
    ensures FullyNumbered(after, node.row.treeType)
  {
  }

  /** With the index rows typed, the final save of an index leaves the rows of every other
      tree type as they were before the content was indexed: the only row it may write
      outside its frame is the content's own loaded row, which has the content's type. */
  lemma IndexKeepsOtherTypes(initial: Table, before: Table, nextId0: nat, after: Table, contents: Contents,
                             cid: ContentId, j: Id)
    requires cid in contents && SingleResult(FindByContentId(initial, cid)).Ok? && IndexesTyped(initial, contents)
    requires forall i :: i in before ==> i < nextId0
    requires OtherTypesKept(initial, before, contents[cid].treeType)
    requires var node := PreparedIndex(Loaded(initial, cid), j, cid, contents[cid].treeType);
             SaveFrame(before, after, SavedKey(before, nextId0, node), node)
    ensures OtherTypesKept(initial, after, contents[cid].treeType)
  {
    var t, node := contents[cid].treeType, PreparedIndex(Loaded(initial, cid), j, cid, contents[cid].treeType);
    var k := SavedKey(before, nextId0, node);
    forall i | i in initial && initial[i].treeType != t
      ensures i in after && after[i] == initial[i]
    {
      if i == k {
        assert false;
      }
    }
  }

  /** With the tables typed and the loaded row still current, indexing keeps the invariant. */
  lemma IndexKeepsInvariant(initial: Table, before: Table, nextId0: nat, after: Table, contents: Contents,
                            cid: ContentId, j: Id, k: Id)
    requires cid in contents && SingleResult(FindByContentId(initial, cid)).Ok? && ParentsPresent(contents)
    requires IndexReady(initial, contents, cid)
    requires NestedSet(before, contents[cid].treeType) && IndexesTyped(before, contents)
    requires j in before && before[j].treeType == contents[cid].treeType
    requires NoDetour(initial, contents, cid) ==> before == initial
    requires IndexFrame(initial, before, {})
    requires var t, node := contents[cid].treeType, PreparedIndex(Loaded(initial, cid), j, cid, contents[cid].treeType);
             SaveFrame(before, after, k, node)
             && (NestedSet(before, t) && WellFormedRequest(before, node) ==> NestedSet(after, t))
    ensures NestedSet(after, contents[cid].treeType) && IndexesTyped(after, contents)
  {
    var t, node := contents[cid].treeType, PreparedIndex(Loaded(initial, cid), j, cid, contents[cid].treeType);
    if FindByContentId(initial, cid) != {} {
      var k0 := SingleResult(FindByContentId(initial, cid)).value.value;
      assert initial[k0].contentId == Some(cid);
    }
    assert WellFormedRequest(before, node);
    SaveKeepsTyped(before, after, k, node, contents);
  }

  /** The caller's copy of a node carries the stored bounds of a numbered row. */
  ghost predicate CurrentNode(rows: Table, node: IndexNode) {
    node.id.Some? && IsNode(rows, node.row.treeType, node.id.value)
    && rows[node.id.value].lft == node.row.lft && rows[node.id.value].rgt == node.row.rgt
  }

  /** The rows a save under an already found parent index adds beside the saved one are the
      rows the parent lookup added. */
  lemma IndexNewRows(initial: Table, before: Table, after: Table, contents: Contents, cid: ContentId, k: Id,
                     node: IndexNode)
    requires cid in contents && SaveFrame(before, after, k, node) && node.row.parent.Some?
    requires NoDetour(initial, contents, cid) ==> before == initial
    requires contents[cid].parent.None? ==>
               forall i :: i in before && i !in initial ==> before[i].contentId.None? && before[i].parent.None?
    ensures NoDetour(initial, contents, cid) ==> after.Keys <= initial.Keys + {k}
    ensures contents[cid].parent.None? ==>
              forall i :: i in after && i !in initial && i != k ==> after[i].contentId.None? && after[i].parent.None?
  {
  }

  /** Deleting a node and closing the gap takes the subtree's rows out of every node that
      held it. */
  lemma DeleteShrinksAncestors(rows: Table, t: TreeType, x: Id, a: Id)
    requires NestedSet(rows, t) && IsNode(rows, t, x) && IsNode(rows, t, a) && Within(rows[x], rows[a])
    ensures var after := AfterDelete(Delete(rows, t, rows[x].lft, rows[x].rgt), t, rows[x].lft, rows[x].rgt);
            IsNode(after, t, a)
            && |FindAllChildren(after, t, after[a].lft, after[a].rgt)|
               == |FindAllChildren(rows, t, rows[a].lft, rows[a].rgt)| - |FindAllChildren(rows, t, rows[x].lft, rows[x].rgt)| - 1
  {
    DeleteTakesSubtree(rows, t, x);
    AncestorLosesSubtree(rows, Delete(rows, t, rows[x].lft, rows[x].rgt), t, x, a);
  }

  // ---------------------------------------------------------------- the service

  class ForestIndexService {
    /** The persisted index rows. */
    var rows: Table
    /** The next key the generator hands out. */
    var nextId: nat

    ghost predicate Valid()
      reads this
    {
      forall i :: i in rows ==> i < nextId
    }

    constructor ()
      ensures rows == map[] && nextId == 1
      ensures Valid()
    {
      rows, nextId := map[], 1;
    }

    /** The repository's `save`: a merge by key; a row without a stored key gets a new one. */
    method Save(node: IndexNode) returns (id: Id)
      requires Valid()
      modifies this
      ensures Valid()
      ensures node.id.Some? && node.id.value in old(rows) ==> id == node.id.value && nextId == old(nextId)
      ensures !(node.id.Some? && node.id.value in old(rows)) ==> id == old(nextId) && nextId == old(nextId) + 1
      ensures id !in old(rows) ==> id >= old(nextId)
      ensures rows == old(rows)[id := node.row]
    {
      if node.id.Some? && node.id.value in rows {
        id := node.id.value;
      } else {
        id := nextId;
        nextId := nextId + 1;
      }
      rows := rows[id := node.row];
    }

    /**
     * Counts one saved row in: a row without a parent becomes the new root `(1, n)` over the
     * type moved up by one, and the previous root is hung under it; a row with a parent is
     * appended as the parent's last child. A failure leaves the table half-written: the
     * caller's transaction restores it.
     */
    method CountIndex(id: Id) returns (res: Result<IndexNode, IndexError>)
      requires id in rows
      modifies this
      ensures nextId == old(nextId) && rows.Keys == old(rows).Keys
      ensures CountedIn(old(rows), id).Ok? ==>
                rows == CountedIn(old(rows), id).value && res == Ok(IndexNode(Some(id), rows[id]))
      ensures CountedIn(old(rows), id).Err? ==> res == Err(CountedIn(old(rows), id).error)
      ensures old(rows[id].parent).Some? && res.Err? ==> rows == old(rows)
    {
      var row := rows[id];
      var t := row.treeType;
      if row.parent.None? {
        rows := BeforeRootInsert(rows, t);
        rows := rows[id := row.(lft := Some(1), rgt := Some(AddedRootRgt(rows, t)))];
        assert rows == RootPlaced(old(rows), id);
        var previous := SingleResult(FindPreviousRoots(rows, t, id));
        if previous.Err? {
          return Err(previous.error);
        }
        if previous.value.Some? {
          rows := UpdateParent(rows, previous.value.value, Some(id));
        }
      } else {
        var p := row.parent.value;
        if p !in rows || rows[p].rgt.None? {
          return Err(ParentNotIndexed);
        }
        var parentRgt := rows[p].rgt.value;
        rows := BeforeNodeInsert(rows, t, parentRgt);
        rows := UpdateIndexes(rows, id, parentRgt, parentRgt + 1, Some(p));
        assert rows == AppendedChild(old(rows), id, p);
      }
      res := Ok(IndexNode(Some(id), rows[id]));
    }

    /**
     * Walks the children of `x` depth first, counting each one in as the last child of its
     * parent before walking its own children. `visited` holds the rows counted so far; a
     * child met a second time means the parent links loop, where the recursion would never
     * end.
     */
    method RecountIndexes(x: Id, visited: set<Id>, ghost ready: bool, ghost acyclic: bool)
      returns (res: Result<set<Id>, IndexError>)
      requires x in rows && x in visited && visited <= rows.Keys
      requires ready ==> WalkReady(rows, rows[x].treeType, x, visited)
      requires acyclic ==> WalkAcyclic(rows, x, visited)
      modifies this
      ensures nextId == old(nextId)
      ensures WalkOutcome(old(rows), rows, old(rows[x].treeType), x, visited, res, ready, acyclic)
      decreases |rows.Keys - visited|, 1
    {
      var t := rows[x].treeType;
      var kids := FindDirectChildren(rows, x, t);
      ghost var start := rows;
      var done := visited;
      WalkStart(rows, t, x, visited, ready, acyclic);
      while kids != {}
        invariant nextId == old(nextId)
        invariant WalkLoop(start, rows, t, x, visited, done, kids, ready, acyclic)
        decreases |kids|
      {
        ghost var someKid := SomeElement(kids);
        var c :| c in kids;
        OneFewer(kids, c);
        ghost var before := rows;
        NoMoreLeft(rows.Keys, visited, done);
        var sub := VisitChild(start, t, x, c, visited, done, kids, ready, acyclic);
        if sub.Err? {
          WalkStops(start, before, rows, t, x, visited, sub.error, ready, acyclic);
          return Err(sub.error);
        }
        kids := kids - {c};
        done := sub.value;
      }
      WalkDone(start, rows, t, x, visited, done, ready, acyclic);
      return Ok(done);
    }

    /** One child of the walk: counted in as the last child of `x`, then walked below; a child
        counted already closes a loop of parents. */
    method VisitChild(ghost start: Table, ghost t: TreeType, x: Id, c: Id, visited: set<Id>, done: set<Id>,
                      ghost kids: set<Id>, ghost ready: bool, ghost acyclic: bool)
      returns (res: Result<set<Id>, IndexError>)
      requires WalkLoop(start, rows, t, x, visited, done, kids, ready, acyclic) && c in kids
      modifies this
      ensures nextId == old(nextId)
      ensures SameShape(old(rows), rows) && OtherTypesKept(old(rows), rows, t)
      ensures res.Ok? ==> WalkLoop(start, rows, t, x, visited, res.value, kids - {c}, ready, acyclic)
      ensures ready && acyclic ==> res.Ok?
      decreases |rows.Keys - done|, 0
    {
      WalkMeets(start, rows, t, x, visited, done, kids, ready, acyclic, c);
      if c in done {
        return Err(CyclicParents);
      }
      ghost var before := rows;
      var counted := CountIndex(c);
      if counted.Err? {
        assert rows == before;
        return Err(counted.error);
      }
      WalkDescend(start, before, rows, t, x, visited, done, kids, ready, acyclic, c);
      res := WalkBelow(start, before, t, x, c, visited, done, kids, ready, acyclic);
    }

    /** The walk below child `c` of `x`, once `c` is counted in; the loop then moves on. */
    method WalkBelow(ghost start: Table, ghost before: Table, ghost t: TreeType, x: Id, c: Id, visited: set<Id>,
                     done: set<Id>, ghost kids: set<Id>, ghost ready: bool, ghost acyclic: bool)
      returns (res: Result<set<Id>, IndexError>)
      requires Descended(start, before, rows, t, x, visited, done, kids, ready, acyclic, c)
      modifies this
      ensures nextId == old(nextId)
      ensures SameShape(before, rows) && OtherTypesKept(before, rows, t)
      ensures res.Ok? ==> WalkLoop(start, rows, t, x, visited, res.value, kids - {c}, ready, acyclic)
      ensures ready && acyclic ==> res.Ok?
      decreases |rows.Keys - (done + {c})|, 2
    {
      ghost var middle := rows;
      res := RecountIndexes(c, done + {c}, ready, acyclic);
      ShapeChain(before, middle, rows, t);
      if res.Ok? {
        WalkNext(start, before, middle, rows, t, x, visited, done, kids, ready, acyclic, c, res.value);
      }
    }

    /**
     * Saves a node and keeps its bounds right. Without a parent change a node with both
     * bounds is saved as it is and a node missing a bound is counted in; with a parent change
     * (a new node under a parent included) the node's old subtree is taken out when its old
     * bounds were passed in, the node is counted in under its new parent and its children
     * are walked again. The node returned carries the bounds its count-in gave it.
     */
    method SaveNode(node: IndexNode) returns (res: Result<IndexNode, IndexError>)
      requires Valid()
      modifies this
      ensures Valid() && nextId >= old(nextId)
      ensures res.Err? ==> rows == old(rows)
      ensures var k, t := SavedKey(old(rows), old(nextId), node), node.row.treeType;
              res.Ok? ==>
                res.value.id == Some(k) && SaveFrame(old(rows), rows, k, node) && IsNode(rows, t, k)
                && res.value.row.parent == node.row.parent && res.value.row.treeType == t
                && res.value.row.contentId == node.row.contentId && IsIndexed(res.value.row)
      ensures var k := SavedKey(old(rows), old(nextId), node);
              !ParentChange(old(rows), node) && IsIndexed(node.row) ==>
                res == Ok(IndexNode(Some(k), node.row)) && rows == old(rows)[k := node.row]
      ensures var k := SavedKey(old(rows), old(nextId), node);
              var counted := CountedIn(old(rows)[k := node.row], k);
              !ParentChange(old(rows), node) && !IsIndexed(node.row) ==>
                (counted.Ok? ==> res == Ok(IndexNode(Some(k), counted.value[k])) && rows == counted.value)
                && (counted.Err? ==> res == Err(counted.error))
      ensures var k, t := SavedKey(old(rows), old(nextId), node), node.row.treeType;
              var u := MovedOut(old(rows)[k := node.row.(lft := None, rgt := None)], t, OldLft(node), OldRgt(node));
              ParentChange(old(rows), node) ==>
                (CountedIn(u, k).Err? ==> res == Err(CountedIn(u, k).error))
                && (CountedIn(u, k).Ok? && res.Ok? ==>
                      res.value == IndexNode(Some(k), CountedIn(u, k).value[k]) && SameShape(CountedIn(u, k).value, rows))
      ensures ParentChange(old(rows), node) && res.Ok? ==>
                SubtreeNumbered(rows, node.row.treeType, SavedKey(old(rows), old(nextId), node))
      ensures var k, t := SavedKey(old(rows), old(nextId), node), node.row.treeType;
              ParentChange(old(rows), node) && res.Ok? ==>
                NumberedOn(MovedOut(old(rows)[k := node.row.(lft := None, rgt := None)], t, OldLft(node), OldRgt(node)), rows, t)
      ensures res.Ok? && !(ParentChange(old(rows), node) && OldLft(node).Some? && OldRgt(node).Some?) ==>
                NumberedOn(old(rows), rows, node.row.treeType)
      ensures res.Ok? && old(NestedSet(rows, node.row.treeType) && WellFormedRequest(rows, node)) ==>
                NestedSet(rows, node.row.treeType)
    {
      var initial := rows;
      ghost var t := node.row.treeType;
      var parentChange := false;
      var previousParent: Option<Id> := None;
      var lft: Option<int> := None;
      var rgt: Option<int> := None;
      if node.id.Some? {
        previousParent := FindParentId(rows, node.id.value);
        lft, rgt := node.row.lft, node.row.rgt;
      }
      var row := node.row;
      if previousParent != node.row.parent {
        row := row.(lft := None, rgt := None);
        parentChange := true;
      }
      var id := Save(IndexNode(node.id, row));
      if !parentChange {
        if row.lft.None? || row.rgt.None? {
          res := CountSaved(node, id, initial, old(nextId));
          return;
        }
        KeptIndexedSave(initial, old(nextId), node);
        return Ok(IndexNode(Some(id), row));
      }
      res := MoveSaved(node, id, lft, rgt, initial, old(nextId));
      if res.Ok? && !(lft.Some? && rgt.Some?) {
        MovedNothingNumbered(initial, id, row, lft, rgt, rows);
      }
    }
  
    /** The path of a save that keeps the parent and lacks a bound, after the row is written:
        the row is counted in; a failure restores the table as it was before the save. */
    method CountSaved(node: IndexNode, id: Id, initial: Table, ghost nextId0: nat)
      returns (res: Result<IndexNode, IndexError>)
      requires (forall i :: i in initial ==> i < nextId0) && nextId0 <= nextId && Valid()
      requires id == SavedKey(initial, nextId0, node) && rows == initial[id := node.row]
      requires !ParentChange(initial, node) && !IsIndexed(node.row)
      modifies this
      ensures Valid() && nextId == old(nextId)
      ensures res.Err? ==> rows == initial
      ensures var t := node.row.treeType;
              res.Ok? ==>
                res.value.id == Some(id) && SaveFrame(initial, rows, id, node) && IsNode(rows, t, id)
                && res.value.row.parent == node.row.parent && res.value.row.treeType == t
                && res.value.row.contentId == node.row.contentId && IsIndexed(res.value.row)
      ensures var counted := CountedIn(initial[id := node.row], id);
              (counted.Ok? ==> res == Ok(IndexNode(Some(id), counted.value[id])) && rows == counted.value)
              && (counted.Err? ==> res == Err(counted.error))
      ensures res.Ok? ==> NumberedOn(initial, rows, node.row.treeType)
      ensures res.Ok? && NestedSet(initial, node.row.treeType) && WellFormedRequest(initial, node) ==>
                NestedSet(rows, node.row.treeType)
    {
      res := CountIndex(id);
      if res.Err? {
        rows := initial;
        return;
      }
      SaveFrameCounted(initial, id, node, node.row);
      CountedInFrame(initial[id := node.row], id);
      CountedNumbered(initial, id, node.row);
      if NestedSet(initial, node.row.treeType) && WellFormedRequest(initial, node) {
        KeepCountKeeps(initial, nextId0, node);
      }
    }

    /** The parent-change path of a save, after the row is written without bounds; a failure
        restores the table as it was before the save. */
    method MoveSaved(node: IndexNode, id: Id, lft: Option<int>, rgt: Option<int>, initial: Table, ghost nextId0: nat)
      returns (res: Result<IndexNode, IndexError>)
      requires (forall i :: i in initial ==> i < nextId0) && nextId0 <= nextId && Valid()
      requires id == SavedKey(initial, nextId0, node) && lft == OldLft(node) && rgt == OldRgt(node)
      requires rows == initial[id := node.row.(lft := None, rgt := None)]
      requires ParentChange(initial, node)
      modifies this
      ensures Valid() && nextId == old(nextId)
      ensures res.Err? ==> rows == initial
      ensures var t := node.row.treeType;
              res.Ok? ==>
                res.value.id == Some(id) && SaveFrame(initial, rows, id, node) && IsNode(rows, t, id)
                && res.value.row.parent == node.row.parent && res.value.row.treeType == t
                && res.value.row.contentId == node.row.contentId && IsIndexed(res.value.row)
      ensures var u := MovedOut(old(rows), node.row.treeType, lft, rgt);
              id in u
              && (CountedIn(u, id).Err? ==> res == Err(CountedIn(u, id).error))
              && (CountedIn(u, id).Ok? && res.Ok? ==>
                    res.value == IndexNode(Some(id), CountedIn(u, id).value[id]) && SameShape(CountedIn(u, id).value, rows))
      ensures res.Ok? ==> SubtreeNumbered(rows, node.row.treeType, id)
      ensures res.Ok? ==> NumberedOn(MovedOut(old(rows), node.row.treeType, lft, rgt), rows, node.row.treeType)
      ensures res.Ok? && NestedSet(initial, node.row.treeType) && WellFormedRequest(initial, node) ==>
                NestedSet(rows, node.row.treeType)
    {
      ghost var ready := NestedSet(initial, node.row.treeType) && WellFormedRequest(initial, node);
      if ready {
        MoveReadyFromRequest(initial, nextId0, node);
      }
      ghost var counted := CountedIn(MovedOut(rows, node.row.treeType, lft, rgt), id);
      res := Relocate(id, lft, rgt, ready);
      if res.Err? {
        rows := initial;
        return;
      }
      assert counted.Ok?;
      SaveFrameWalked(initial, id, node, node.row.(lft := None, rgt := None), lft, rgt, rows);
    }

    /**
     * The move half of a save, for a saved row without bounds: takes its old subtree out
     * when both old bounds are known, counts the row in and walks its children again.
     */
    method Relocate(id: Id, lft: Option<int>, rgt: Option<int>, ghost ready: bool) returns (res: Result<IndexNode, IndexError>)
      requires id in rows && rows[id].lft.None? && rows[id].rgt.None?
      requires var t := rows[id].treeType;
               ready ==>
                 NestedSet(MovedOut(rows, t, lft, rgt), t) && rows[id].parent.Some?
                 && (rows[id].parent.value in rows ==> rows[rows[id].parent.value].treeType == t)
      modifies this
      ensures nextId == old(nextId)
      ensures var t := old(rows[id].treeType);
              var u := MovedOut(old(rows), t, lft, rgt);
              id in u
              && (CountedIn(u, id).Err? ==> res == Err(CountedIn(u, id).error))
              && (CountedIn(u, id).Ok? && res.Ok? ==>
                    res.value == IndexNode(Some(id), CountedIn(u, id).value[id])
                    && SameShape(CountedIn(u, id).value, rows) && OtherTypesKept(CountedIn(u, id).value, rows, t)
                    && IsNode(rows, t, id))
      ensures res.Ok? ==>
                res.value.id == Some(id) && IsIndexed(res.value.row) && res.value.row.treeType == old(rows[id].treeType)
                && res.value.row.parent == old(rows[id].parent) && res.value.row.contentId == old(rows[id].contentId)
      ensures res.Ok? ==> SubtreeNumbered(rows, old(rows[id].treeType), id)
      ensures res.Ok? ==> NumberedOn(MovedOut(old(rows), old(rows[id].treeType), lft, rgt), rows, old(rows[id].treeType))
      ensures res.Ok? && ready ==> NestedSet(rows, old(rows[id].treeType))
    {
      var t := rows[id].treeType;
      ghost var initial := rows;
      if lft.Some? && rgt.Some? {
        rows := ClearRange(rows, t, lft.value + 1, rgt.value - 1);
        rows := AfterDelete(rows, t, lft, rgt);
      }
      assert rows == MovedOut(initial, t, lft, rgt);
      res := Reindex(id, ready);
    }

    /**
     * Counts a row without bounds in and walks its children again. With `ready`, it starts
     * from a table satisfying the invariant and hangs under a parent of its own type.
     */
    method Reindex(id: Id, ghost ready: bool) returns (res: Result<IndexNode, IndexError>)
      requires id in rows && rows[id].lft.None? && rows[id].rgt.None?
      requires var t := rows[id].treeType;
               ready ==>
                 NestedSet(rows, t) && rows[id].parent.Some?
                 && (rows[id].parent.value in rows ==> rows[rows[id].parent.value].treeType == t)
      modifies this
      ensures nextId == old(nextId)
      ensures var t, counted := old(rows[id].treeType), CountedIn(old(rows), id);
              (counted.Err? ==> res == Err(counted.error))
              && (counted.Ok? && res.Ok? ==>
                    id in counted.value && res.value == IndexNode(Some(id), counted.value[id])
                    && SameShape(counted.value, rows) && OtherTypesKept(counted.value, rows, t) && IsNode(rows, t, id))
      ensures res.Ok? ==>
                res.value.id == Some(id) && IsIndexed(res.value.row) && res.value.row.treeType == old(rows[id].treeType)
                && res.value.row.parent == old(rows[id].parent) && res.value.row.contentId == old(rows[id].contentId)
      ensures res.Ok? ==> SubtreeNumbered(rows, old(rows[id].treeType), id)
      ensures res.Ok? ==> NumberedOn(old(rows), rows, old(rows[id].treeType))
      ensures res.Ok? && ready ==> NestedSet(rows, old(rows[id].treeType))
    {
      var t := rows[id].treeType;
      ghost var u := rows;
      res := CountIndex(id);
      if res.Err? {
        return;
      }
      ghost var counted := rows;
      CountedInFrame(u, id);
      if ready {
        MoveCountReady(u, t, id);
      }
      var walked := RecountIndexes(id, {id}, ready, false);
      if walked.Err? {
        res := Err(walked.error);
        return;
      }
      WalkedSubtree(rows, t, id, walked.value);
      CountAndWalkNumber(u, counted, rows, t, id, walked.value);
    }

    /**
     * Rebuilds the index of a tree type: clears every bound of the type, then counts the
     * single root in and walks the whole tree below it. Several roots fail the root lookup;
     * without a root the type is left cleared.
     */
    method Rebuild(t: TreeType) returns (res: Result<Option<Id>, IndexError>)
      requires Valid()
      modifies this
      ensures Valid() && nextId == old(nextId)
      ensures res.Err? <==> |FindRoots(old(rows), t)| > 1
      ensures res.Err? ==> rows == old(rows) && res.error == NonUniqueResult
      ensures res == Ok(None) <==> FindRoots(old(rows), t) == {}
      ensures res == Ok(None) ==> rows == ForestIndexRepository.ClearIndexes(old(rows), t)
      ensures res.Ok? ==> NestedSet(rows, t) && SameShape(old(rows), rows) && OtherTypesKept(old(rows), rows, t)
      ensures res.Ok? && res.value.Some? ==>
                FindRoots(old(rows), t) == {res.value.value}
                && NumberedFrom(ForestIndexRepository.ClearIndexes(old(rows), t), rows, t, res.value.value)
    {
      var initial := rows;
      rows := ForestIndexRepository.ClearIndexes(rows, t);
      ClearKeepsRoots(initial, t);
      ClearedIsNestedSet(initial, t);
      ClearedShape(initial, t);
      var root := SingleResult(FindRoots(rows, t));
      if root.Err? {
        rows := initial;
        return Err(root.error);
      }
      if root.value.None? {
        return Ok(None);
      }
      var r := root.value.value;
      ghost var cleared := rows;
      NumberFrom(t, r);
      ShapeChain(initial, cleared, rows, t);
      return Ok(Some(r));
    }

    /** The second half of a rebuild: over a cleared type with the single root `r`, counts the
        root in and walks the tree below it. */
    method NumberFrom(t: TreeType, r: Id)
      requires r in rows && FindRoots(rows, t) == {r}
      requires forall i :: i in rows && rows[i].treeType == t ==> rows[i].lft.None? && rows[i].rgt.None?
      modifies this
      ensures nextId == old(nextId)
      ensures NumberedFrom(old(rows), rows, t, r)
    {
      RebuildRootReady(rows, t, r);
      ghost var cleared := rows;
      var countedRoot := CountIndex(r);
      ghost var counted := rows;
      var walked := RecountIndexes(r, {r}, true, true);
      NumberedAfterWalk(cleared, counted, rows, t, r, walked.value);
    }

    /**
     * Deletes the rows of the node's type whose left bound lies within the node's bounds,
     * and closes the gap when asked to. The bounds are the ones the caller's copy carries;
     * a copy missing a bound deletes nothing.
     */
    method DeleteNode(node: IndexNode, closeGap: bool)
      modifies this
      ensures nextId == old(nextId)
      ensures var t, l, r := node.row.treeType, node.row.lft, node.row.rgt;
              rows == if closeGap then AfterDelete(Delete(old(rows), t, l, r), t, l, r) else Delete(old(rows), t, l, r)
      ensures var t := node.row.treeType;
              CurrentNode(old(rows), node) && old(Nesting(rows, t)) ==>
                rows.Keys == old(rows).Keys - ({node.id.value} + FindAllChildren(old(rows), t, node.row.lft, node.row.rgt))
                && (closeGap && old(NestedSet(rows, t)) ==> NestedSet(rows, t))
                && (!closeGap ==> Nesting(rows, t))
    {
      var t := node.row.treeType;
      if CurrentNode(rows, node) && Nesting(rows, t) {
        DeleteTakesSubtree(rows, t, node.id.value);
        DeleteKeepsNesting(rows, t, node.id.value);
        if NestedSet(rows, t) {
          DeleteKeepsNestedSet(rows, t, node.id.value);
        }
      }
      rows := Delete(rows, t, node.row.lft, node.row.rgt);
      if closeGap {
        rows := AfterDelete(rows, t, node.row.lft, node.row.rgt);
      }
    }

    /**
     * Drops the index of a content: the subtree of the row attached to it goes, and the gap
     * closes. A content without an index row is left alone; the result names the row that
     * was attached.
     */
    method DropIndex(cid: ContentId) returns (res: Result<Option<Id>, IndexError>)
      modifies this
      ensures nextId == old(nextId)
      ensures res.Err? <==> |FindByContentId(old(rows), cid)| > 1
      ensures res.Err? ==> rows == old(rows)
      ensures res == Ok(None) <==> FindByContentId(old(rows), cid) == {}
      ensures res == Ok(None) ==> rows == old(rows)
      ensures res.Ok? && res.value.Some? ==>
                var k := res.value.value;
                FindByContentId(old(rows), cid) == {k} && k in old(rows)
                && var row := old(rows)[k];
                   rows == AfterDelete(Delete(old(rows), row.treeType, row.lft, row.rgt), row.treeType, row.lft, row.rgt)
                   && (old(NestedSet(rows, row.treeType)) && IsNode(old(rows), row.treeType, k) ==>
                         NestedSet(rows, row.treeType) && FindByContentId(rows, cid) == {})
    {
      var index := SingleResult(FindByContentId(rows, cid));
      if index.Err? {
        return Err(index.error);
      }
      if index.value.None? {
        return Ok(None);
      }
      var k := index.value.value;
      ghost var t := rows[k].treeType;
      if NestedSet(rows, t) && IsNode(rows, t, k) {
        DeleteTakesSubtree(rows, t, k);
      }
      DeleteNode(IndexNode(Some(k), rows[k]), true);
      return Ok(Some(k));
    }

    /** Deletes every row of the tree type. */
    method DropIndexes(t: TreeType)
      modifies this
      ensures nextId == old(nextId) && rows == ForestIndexRepository.DropIndexes(old(rows), t)
      ensures NestedSet(rows, t) && forall i :: i in rows ==> rows[i].treeType != t
    {
      rows := ForestIndexRepository.DropIndexes(rows, t);
      DroppedIsNestedSet(old(rows), t);
    }

    /** Sets both bounds of every row of the tree type to null. */
    method ClearIndexes(t: TreeType)
      modifies this
      ensures nextId == old(nextId) && rows == ForestIndexRepository.ClearIndexes(old(rows), t)
      ensures NestedSet(rows, t) && NodesOf(rows, t) == {}
    {
      rows := ForestIndexRepository.ClearIndexes(rows, t);
      ClearedIsNestedSet(old(rows), t);
    }

    /**
     * The parent index of a content about to be indexed: the index row of its parent
     * content, indexing the parent first when it has none; for a content without a parent,
     * the root of its tree type, or a new synthetic root when the type has none.
     */
    method ParentIndexOf(contents: Contents, cid: ContentId, visited: set<ContentId>, ghost ready: bool)
      returns (res: Result<Id, IndexError>)
      requires Valid() && cid in contents && cid !in visited && ParentsPresent(contents)
      requires ready ==> IndexReady(rows, contents, cid)
      modifies this
      ensures Valid() && nextId >= old(nextId) && IndexFrame(old(rows), rows, {})
      ensures res.Ok? ==>
                res.value in rows
                && match contents[cid].parent
                   case Some(pc) => rows[res.value].contentId == Some(pc)
                   case None => rows[res.value].parent.None? && rows[res.value].treeType == contents[cid].treeType
      ensures res.Ok? && NoDetour(old(rows), contents, cid) ==> rows == old(rows)
      ensures res.Ok? && contents[cid].parent.None? ==>
                forall i :: i in rows && i !in old(rows) ==> rows[i].contentId.None? && rows[i].parent.None?
      ensures res.Ok? && ready ==>
                NestedSet(rows, contents[cid].treeType) && IndexesTyped(rows, contents)
                && rows[res.value].treeType == contents[cid].treeType
      ensures ready ==> OtherTypesKept(old(rows), rows, contents[cid].treeType)
      ensures res.Ok? && ready && FullyNumbered(old(rows), contents[cid].treeType) ==>
                FullyNumbered(rows, contents[cid].treeType)
      ensures res.Ok? && contents[cid].parent.None? ==> rows.Keys <= old(rows).Keys + {res.value}
      decreases |contents.Keys - visited|, 0
    {
      var t := contents[cid].treeType;
      match contents[cid].parent
      case Some(pc) =>
        var parentIndex := SingleResult(FindByContentId(rows, pc));
        if parentIndex.Err? {
          return Err(parentIndex.error);
        }
        if parentIndex.value.Some? {
          return Ok(parentIndex.value.value);
        }
        if pc == cid || pc in visited {
          return Err(CyclicParents);
        }
        FewerLeft(contents.Keys, visited, visited, cid);
        var indexed := Index(contents, pc, visited + {cid}, ready);
        if indexed.Err? {
          return Err(indexed.error);
        }
        return Ok(indexed.value.id.value);
      case None =>
        var root := SingleResult(FindRoots(rows, t));
        if root.Err? {
          return Err(root.error);
        }
        if root.value.Some? {
          return Ok(root.value.value);
        }
        ghost var before := rows;
        var synthetic := SaveNode(IndexNode(None, IndexRow(None, t, None, None, None)));
        if synthetic.Err? {
          return Err(synthetic.error);
        }
        SaveFrameSynthetic(before, rows, synthetic.value.id.value, IndexNode(None, IndexRow(None, t, None, None, None)));
        if ready {
          SaveKeepsTyped(before, rows, synthetic.value.id.value, IndexNode(None, IndexRow(None, t, None, None, None)), contents);
          if FullyNumbered(before, t) {
            SaveKeepsFullyNumbered(before, rows, synthetic.value.id.value, IndexNode(None, IndexRow(None, t, None, None, None)));
          }
        }
        return Ok(synthetic.value.id.value);
    }

    /**
     * Indexes a content: finds or creates its parent index, then saves the content's index
     * row (the one loaded with the content, or a new one) under it with the content's
     * identifier and tree type. A failure restores the table.
     */
    method Index(contents: Contents, cid: ContentId, visited: set<ContentId>, ghost ready: bool)
      returns (res: Result<IndexNode, IndexError>)
      requires Valid() && cid in contents && cid !in visited && ParentsPresent(contents)
      requires ready ==> IndexReady(rows, contents, cid)
      modifies this
      ensures Valid() && nextId >= old(nextId)
      ensures res.Err? ==> rows == old(rows)
      ensures res.Ok? ==> IndexedAs(old(rows), rows, contents, cid, res.value)
      ensures res.Ok? && ready ==> NestedSet(rows, contents[cid].treeType) && IndexesTyped(rows, contents)
      ensures ready ==> OtherTypesKept(old(rows), rows, contents[cid].treeType)
      ensures res.Ok? && ready && FindByContentId(old(rows), cid) == {} && FullyNumbered(old(rows), contents[cid].treeType) ==>
                FullyNumbered(rows, contents[cid].treeType)
      ensures res.Ok? && NoDetour(old(rows), contents, cid) ==> rows.Keys <= old(rows).Keys + {res.value.id.value}
      ensures res.Ok? && contents[cid].parent.None? ==>
                rows.Keys <= old(rows).Keys + {res.value.id.value, res.value.row.parent.value}
      ensures res.Ok? && contents[cid].parent.None? ==>
                forall i :: i in rows && i !in old(rows) && i != res.value.id.value ==> rows[i].contentId.None? && rows[i].parent.None?
      decreases |contents.Keys - visited|, 1
    {
      var initial := rows;
      var t := contents[cid].treeType;
      var index := SingleResult(FindByContentId(rows, cid));
      if index.Err? {
        return Err(index.error);
      }
      var parentIndex := ParentIndexOf(contents, cid, visited, ready);
      if parentIndex.Err? {
        rows := initial;
        return Err(parentIndex.error);
      }
      var loaded := if index.value.Some? then Some(IndexNode(index.value, initial[index.value.value])) else None;
      assert loaded == Loaded(initial, cid);
      res := SavePrepared(contents, cid, initial, loaded, parentIndex.value, ready);
      if res.Err? {
        rows := initial;
      }
    }

    /** `saveNode` as indexing uses it: the facts about the saved row that the indexing proofs
        need, without the move path's intermediate tables. */
    method SaveIndexNode(node: IndexNode) returns (res: Result<IndexNode, IndexError>)
      requires Valid()
      modifies this
      ensures Valid() && nextId >= old(nextId)
      ensures res.Err? ==> rows == old(rows)
      ensures var k, t := SavedKey(old(rows), old(nextId), node), node.row.treeType;
              res.Ok? ==>
                res.value.id == Some(k) && SaveFrame(old(rows), rows, k, node) && IsNode(rows, t, k)
                && res.value.row.parent == node.row.parent && res.value.row.treeType == t
                && res.value.row.contentId == node.row.contentId && IsIndexed(res.value.row)
                && (ParentChange(old(rows), node) ==>
                      var u := MovedOut(old(rows)[k := node.row.(lft := None, rgt := None)], t, OldLft(node), OldRgt(node));
                      k in u && CountedIn(u, k).Ok?)
                && (node.id.None? ==> NumberedOn(old(rows), rows, t))
                && (old(NestedSet(rows, t) && WellFormedRequest(rows, node)) ==> NestedSet(rows, t))
    {
      res := SaveNode(node);
    }

    /** The last step of indexing a content: the loaded index row, or a new one, is hung under
        the parent index `j` and saved. */
    method SavePrepared(contents: Contents, cid: ContentId, ghost initial: Table, loaded: Option<IndexNode>, j: Id,
                        ghost ready: bool)
      returns (res: Result<IndexNode, IndexError>)
      requires Valid() && cid in contents && ParentsPresent(contents)
      requires SingleResult(FindByContentId(initial, cid)).Ok? && loaded == Loaded(initial, cid)
      requires IndexFrame(initial, rows, {}) && j in rows
      requires match contents[cid].parent
               case Some(pc) => rows[j].contentId == Some(pc)
               case None => rows[j].parent.None? && rows[j].treeType == contents[cid].treeType
      requires NoDetour(initial, contents, cid) ==> rows == initial
      requires contents[cid].parent.None? ==>
                 (forall i :: i in rows && i !in initial ==> rows[i].contentId.None? && rows[i].parent.None?)
                 && rows.Keys <= initial.Keys + {j}
      requires ready ==>
                 IndexReady(initial, contents, cid) && NestedSet(rows, contents[cid].treeType)
                 && IndexesTyped(rows, contents) && rows[j].treeType == contents[cid].treeType
                 && OtherTypesKept(initial, rows, contents[cid].treeType)
      modifies this
      ensures Valid() && nextId >= old(nextId)
      ensures res.Err? ==> rows == old(rows)
      ensures res.Ok? ==> IndexedAs(initial, rows, contents, cid, res.value)
      ensures res.Ok? && ready ==> NestedSet(rows, contents[cid].treeType) && IndexesTyped(rows, contents)
      ensures res.Ok? && ready ==> OtherTypesKept(initial, rows, contents[cid].treeType)
      ensures res.Ok? ==> res.value.row.parent == Some(j)
      ensures res.Ok? && loaded.None? && old(FullyNumbered(rows, contents[cid].treeType)) ==>
                FullyNumbered(rows, contents[cid].treeType)
      ensures res.Ok? && NoDetour(initial, contents, cid) ==> rows.Keys <= initial.Keys + {res.value.id.value}
      ensures res.Ok? && contents[cid].parent.None? ==> rows.Keys <= initial.Keys + {j, res.value.id.value}
      ensures res.Ok? && contents[cid].parent.None? ==>
                forall i :: i in rows && i !in initial && i != res.value.id.value ==> rows[i].contentId.None? && rows[i].parent.None?
    {
      var node := PreparedIndex(loaded, j, cid, contents[cid].treeType);
      ghost var before, nextId0 := rows, nextId;
      res := SaveIndexNode(node);
      if res.Err? {
        return;
      }
      PreparedSaveOutcome(initial, before, nextId0, rows, contents, cid, j, res.value, ready);
    }
  }
}

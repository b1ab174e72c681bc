/**
 * The queries and bulk statements of the forest index repository, over the table of index
 * rows. A statement maps the old table to the new one row by row; a select query is a set of
 * keys or a value computed from the table. SQL null semantics are kept: arithmetic on a null
 * bound gives null, and a comparison with null is not true, so a row whose bound is null is
 * never selected by a range condition on that bound.
 */
module ForestIndexRepository {
  import opened Wrappers
  import opened ForestIndexEntity
  import opened FiniteSets

  /** All persisted index rows, by key. */
  type Table = map<Id, IndexRow>

  /** The failures the index engine reports instead of throwing. */
  datatype IndexError =
    | ParentNotIndexed   // the parent row is missing or has no right bound
    | NonUniqueResult    // a single-result query matched more than one row
    | CyclicParents      // walking the children revisits a row: the recursion never ends

  /** Rows of tree type `t` whose left bound lies in `lft .. rgt` (SQL `BETWEEN`). */
  predicate LftBetween(r: IndexRow, t: TreeType, lft: Option<int>, rgt: Option<int>) {
    r.treeType == t && r.lft.Some? && lft.Some? && rgt.Some?
    && lft.value <= r.lft.value <= rgt.value
  }

  // ---------------------------------------------------------------- select queries

  /** Roots of a tree type: rows of that type without a parent. */
  function FindRoots(rows: Table, t: TreeType): (s: set<Id>)
    ensures s <= rows.Keys
  {
    set i | i in rows && rows[i].parent.None? && rows[i].treeType == t
  }

  /** Roots of a tree type other than the row `newParentId`. */
  function FindPreviousRoots(rows: Table, t: TreeType, newParentId: Id): (s: set<Id>)
    ensures s == FindRoots(rows, t) - {newParentId}
  {
    set i | i in rows && rows[i].parent.None? && i != newParentId && rows[i].treeType == t
  }

  /** The parent key of a row; null when the row is missing or has no parent. */
  function FindParentId(rows: Table, id: Id): (p: Option<Id>)
    ensures id !in rows ==> p.None?
    ensures id in rows ==> p == rows[id].parent
  {
    if id in rows then rows[id].parent else None
  }

  /** Direct children of `parent`: rows pointing at it and having the tree type that the
      caller's copy of the parent carries. */
  function FindDirectChildren(rows: Table, parent: Id, t: TreeType): (s: set<Id>)
    ensures s <= rows.Keys
    ensures parent !in s || rows[parent].parent == Some(parent)
  {
    set i | i in rows && rows[i].parent == Some(parent) && rows[i].treeType == t
  }

  /** All descendants by interval: rows of the type whose left bound lies strictly inside
      the given bounds. Null bounds select nothing. */
  function FindAllChildren(rows: Table, t: TreeType, lft: Option<int>, rgt: Option<int>): (s: set<Id>)
    ensures s <= rows.Keys
    ensures lft.None? || rgt.None? ==> s == {}
    ensures forall i :: i in s ==> rows[i].treeType == t && rows[i].lft.Some?
  {
    if lft.None? || rgt.None? then {}
    else set i | i in rows && LftBetween(rows[i], t, Some(lft.value + 1), Some(rgt.value - 1))
  }

  /** The index rows attached to one content (the join the content entity is mapped by). */
  function FindByContentId(rows: Table, contentId: ContentId): (s: set<Id>)
    ensures s <= rows.Keys
    ensures forall i :: i in s ==> rows[i].contentId == Some(contentId)
  {
    set i | i in rows && rows[i].contentId == Some(contentId)
  }

  /** A single-result query: no row, exactly one row, or a failure for several rows. */
  function SingleResult(s: set<Id>): (r: Result<Option<Id>, IndexError>)
    ensures r == Ok(None) <==> s == {}
    ensures r.Ok? && r.value.Some? ==> s == {r.value.value}
    ensures |s| == 1 ==> r.Ok? && r.value.Some?
    ensures r.Err? <==> |s| > 1
    ensures r.Err? ==> r.error == NonUniqueResult
  {
    if s == {} then Ok(None)
    else if |s| == 1 then
      var i := Single(s);
      Ok(Some(i))
    else Err(NonUniqueResult)
  }

  /** The only element of a one-element set. */
  function Single(s: set<Id>): (x: Id)
    requires |s| == 1
    ensures s == {x}
  {
    assert exists y :: y in s by {
      var y := SomeElement(s);
    }
    var x :| x in s;
    SingletonIs(s, x);
    SingletonUnique(s);
    x
  }

  /** The largest element of a non-empty finite set. */
  function Max(s: set<int>): (m: int)
    requires s != {}
    ensures m in s
    ensures forall x :: x in s ==> x <= m
  {
    MaxExists(s);
    var m :| m in s && forall x :: x in s ==> x <= m;
    m
  }

  lemma {:induction false} MaxExists(s: set<int>)
    requires s != {}
    ensures exists m :: m in s && forall x :: x in s ==> x <= m
    decreases |s|
  {
    var w := SomeElement(s);
    var y :| y in s;
    var rest := s - {y};
    if rest == {} {
      forall x | x in s ensures x <= y {
        assert x !in rest;
      }
    } else {
      assert |rest| < |s|;
      MaxExists(rest);
      var m :| m in rest && forall x :: x in rest ==> x <= m;
      var top := if y <= m then m else y;
      forall x | x in s ensures x <= top {
        if x != y {
          assert x in rest;
        }
      }
      assert top in s;
    }
  }

  /** Right bounds in use in one tree type. */
  function RgtsOf(rows: Table, t: TreeType): (s: set<int>)
    ensures forall i :: i in rows && rows[i].treeType == t && rows[i].rgt.Some? ==> rows[i].rgt.value in s
    ensures forall k :: k in s ==> exists i :: i in rows && rows[i].treeType == t && rows[i].rgt == Some(k)
  {
    set i | i in rows && rows[i].treeType == t && rows[i].rgt.Some? :: rows[i].rgt.value
  }

  /** The right bound of a new root: one past the largest right bound of the type, with 1
      standing in for the maximum of an empty (or all-null) type. */
  function AddedRootRgt(rows: Table, t: TreeType): (r: int)
    ensures forall i :: i in rows && rows[i].treeType == t && rows[i].rgt.Some? ==> rows[i].rgt.value < r
    ensures (exists i :: i in rows && rows[i].treeType == t && rows[i].rgt == Some(r - 1))
         || (r == 2 && forall i :: i in rows && rows[i].treeType == t ==> rows[i].rgt.None?)
  {
    var s := RgtsOf(rows, t);
    if s == {} then 1 + 1 else Max(s) + 1
  }

  // ---------------------------------------------------------------- statements

  /** SQL `b + d` on a nullable bound. */
  function Plus(b: Option<int>, d: int): (r: Option<int>)
    ensures r.Some? <==> b.Some?
    ensures b.Some? ==> r.value - b.value == d
  {
    if b.Some? then Some(b.value + d) else None
  }

  /** Deletes every row of the tree type. */
  function DropIndexes(rows: Table, t: TreeType): (r: Table)
    ensures r.Keys == set i | i in rows && rows[i].treeType != t
    ensures forall i :: i in r ==> r[i] == rows[i]
  {
    map i | i in rows && rows[i].treeType != t :: rows[i]
  }

  function ClearRow(r: IndexRow): IndexRow {
    r.(lft := None, rgt := None)
  }

  /** Sets both bounds of every row of the type to null. */
  function ClearIndexes(rows: Table, t: TreeType): (r: Table)
    ensures r.Keys == rows.Keys
    ensures forall i :: i in rows && rows[i].treeType == t ==> r[i] == ClearRow(rows[i])
    ensures forall i :: i in rows && rows[i].treeType != t ==> r[i] == rows[i]
  {
    map i | i in rows :: if rows[i].treeType == t then ClearRow(rows[i]) else rows[i]
  }

  /** Sets both bounds to null on the rows of the type whose left bound lies in `lft .. rgt`. */
  function ClearRange(rows: Table, t: TreeType, lft: int, rgt: int): (r: Table)
    ensures r.Keys == rows.Keys
    ensures forall i :: i in rows && LftBetween(rows[i], t, Some(lft), Some(rgt)) ==> r[i] == ClearRow(rows[i])
    ensures forall i :: i in rows && !LftBetween(rows[i], t, Some(lft), Some(rgt)) ==> r[i] == rows[i]
  {
    map i | i in rows :: if LftBetween(rows[i], t, Some(lft), Some(rgt)) then ClearRow(rows[i]) else rows[i]
  }

  /** Deletes the rows of the type whose left bound lies in `lft .. rgt` (a whole subtree
      when the bounds are a node's). */
  function Delete(rows: Table, t: TreeType, lft: Option<int>, rgt: Option<int>): (r: Table)
    ensures r.Keys == set i | i in rows && !LftBetween(rows[i], t, lft, rgt)
    ensures forall i :: i in r ==> r[i] == rows[i]
    ensures lft.None? || rgt.None? ==> r == rows
  {
    map i | i in rows && !LftBetween(rows[i], t, lft, rgt) :: rows[i]
  }

  /** Both bounds of the root-to-be's type move up by one, so that label 1 is free. */
  function BeforeRootInsert(rows: Table, t: TreeType): (r: Table)
    ensures r.Keys == rows.Keys
    ensures forall i :: i in rows && rows[i].treeType == t ==>
              r[i] == rows[i].(lft := Plus(rows[i].lft, 1), rgt := Plus(rows[i].rgt, 1))
    ensures forall i :: i in rows && rows[i].treeType != t ==> r[i] == rows[i]
  {
    map i | i in rows :: if rows[i].treeType == t then rows[i].(lft := Plus(rows[i].lft, 1), rgt := Plus(rows[i].rgt, 1)) else rows[i]
  }

  /** Whether the insert statement touches a row: its right bound is at or after the
      parent's right bound. */
  predicate ShiftedByInsert(r: IndexRow, t: TreeType, parentRgt: int) {
    r.treeType == t && r.rgt.Some? && r.rgt.value >= parentRgt
  }

  function InsertShiftRow(r: IndexRow, parentRgt: int): IndexRow
    requires r.rgt.Some?
  {
    r.(lft := if r.lft.Some? && r.lft.value > parentRgt then Some(r.lft.value + 2) else r.lft,
       rgt := Some(r.rgt.value + 2))
  }

  /** Opens a gap of two labels at the parent's right bound: every right bound at or after
      it, and every left bound after it, moves up by two on the rows the statement selects. */
  function BeforeNodeInsert(rows: Table, t: TreeType, parentRgt: int): (r: Table)
    ensures r.Keys == rows.Keys
    ensures forall i :: i in rows && ShiftedByInsert(rows[i], t, parentRgt) ==>
              r[i].rgt == Some(rows[i].rgt.value + 2)
              && r[i].lft == (if rows[i].lft.Some? && rows[i].lft.value > parentRgt then Some(rows[i].lft.value + 2) else rows[i].lft)
              && r[i].parent == rows[i].parent && r[i].treeType == t && r[i].contentId == rows[i].contentId
    ensures forall i :: i in rows && !ShiftedByInsert(rows[i], t, parentRgt) ==> r[i] == rows[i]
  {
    map i | i in rows :: if ShiftedByInsert(rows[i], t, parentRgt) then InsertShiftRow(rows[i], parentRgt) else rows[i]
  }

  /** One bound after a subtree `lft .. rgt` is removed: bounds after `lft` move down by the
      subtree's width. When `rgt` is null the width is null, and so is the new bound. */
  function CloseGapBound(b: Option<int>, lft: Option<int>, rgt: Option<int>): (r: Option<int>)
    ensures b.None? || lft.None? || b.value <= lft.value ==> r == b
    ensures b.Some? && lft.Some? && b.value > lft.value && rgt.None? ==> r.None?
    ensures b.Some? && lft.Some? && b.value > lft.value && rgt.Some? ==>
              r == Some(b.value - (rgt.value - lft.value + 1))
  {
    if b.Some? && lft.Some? && b.value > lft.value then
      if rgt.Some? then Some(b.value - (rgt.value - lft.value + 1)) else None
    else b
  }

  /** Closes the gap a deleted subtree left: applied to both bounds of every row of the type
      (rows the statement's condition does not select are left as they are, which is what
      the bound update does to them anyway). */
  function AfterDelete(rows: Table, t: TreeType, lft: Option<int>, rgt: Option<int>): (r: Table)
    ensures r.Keys == rows.Keys
    ensures forall i :: i in rows && rows[i].treeType == t ==>
              r[i] == rows[i].(lft := CloseGapBound(rows[i].lft, lft, rgt), rgt := CloseGapBound(rows[i].rgt, lft, rgt))
    ensures forall i :: i in rows && rows[i].treeType != t ==> r[i] == rows[i]
  {
    map i | i in rows ::
      if rows[i].treeType == t
      then rows[i].(lft := CloseGapBound(rows[i].lft, lft, rgt), rgt := CloseGapBound(rows[i].rgt, lft, rgt))
      else rows[i]
  }

  /** Writes the bounds and the parent of one row, by key. */
  function UpdateIndexes(rows: Table, id: Id, lft: int, rgt: int, parent: Option<Id>): (r: Table)
    ensures r.Keys == rows.Keys
    ensures id in rows ==> r[id] == rows[id].(lft := Some(lft), rgt := Some(rgt), parent := parent)
    ensures forall i :: i in rows && i != id ==> r[i] == rows[i]
  {
    if id in rows then rows[id := rows[id].(lft := Some(lft), rgt := Some(rgt), parent := parent)] else rows
  }

  /** Writes the parent of one row, by key. */
  function UpdateParent(rows: Table, id: Id, parent: Option<Id>): (r: Table)
    ensures r.Keys == rows.Keys
    ensures id in rows ==> r[id] == rows[id].(parent := parent)
    ensures forall i :: i in rows && i != id ==> r[i] == rows[i]
  {
    if id in rows then rows[id := rows[id].(parent := parent)] else rows
  }
}

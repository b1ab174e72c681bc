/**
 * The nested-set invariant of one tree type, and what follows from it.
 *
 * Every numbered row of the type (both bounds set) is an interval `lft < rgt` of positive
 * labels; two intervals are either apart or one lies strictly inside the other; a row's
 * parent is a numbered row of the same type whose interval strictly contains the row's;
 * two children of the same parent are apart; and the labels in use are exactly `1 .. n` for the largest right bound `n`. From this the
 * number of rows strictly inside a node is half its width, rounded down, which is what a
 * node reports as its children count.
 */
module NestedSetInvariant {
  import opened Wrappers
  import opened ForestIndexEntity
  import opened ForestIndexRepository
  import opened FiniteSets

  /** Row `i` exists, has tree type `t` and both bounds. */
  ghost predicate IsNode(rows: Table, t: TreeType, i: Id) {
    i in rows && rows[i].treeType == t && IsIndexed(rows[i])
  }

  /** Interval `a` lies strictly inside interval `b`. */
  ghost predicate Within(a: IndexRow, b: IndexRow)
    requires IsIndexed(a) && IsIndexed(b)
  {
    b.lft.value < a.lft.value && a.rgt.value < b.rgt.value
  }

  /** The two intervals do not meet. */
  ghost predicate Apart(a: IndexRow, b: IndexRow)
    requires IsIndexed(a) && IsIndexed(b)
  {
    a.rgt.value < b.lft.value || b.rgt.value < a.lft.value
  }

  ghost predicate Ordered(rows: Table, t: TreeType) {
    forall i :: IsNode(rows, t, i) ==> 1 <= rows[i].lft.value < rows[i].rgt.value
  }

  ghost predicate Laminar(rows: Table, t: TreeType) {
    forall i, j :: IsNode(rows, t, i) && IsNode(rows, t, j) && i != j ==>
      Apart(rows[i], rows[j]) || Within(rows[i], rows[j]) || Within(rows[j], rows[i])
  }

  ghost predicate ParentsEnclose(rows: Table, t: TreeType) {
    forall i :: IsNode(rows, t, i) && rows[i].parent.Some? ==>
      IsNode(rows, t, rows[i].parent.value) && Within(rows[i], rows[rows[i].parent.value])
  }

  /** Two nodes with the same parent do not meet: one cannot lie inside its sibling. */
  ghost predicate SiblingsApart(rows: Table, t: TreeType) {
    forall i, j ::
      IsNode(rows, t, i) && IsNode(rows, t, j) && i != j && rows[i].parent.Some? && rows[i].parent == rows[j].parent
      ==> Apart(rows[i], rows[j])
  }

  ghost predicate NoHalfBounds(rows: Table, t: TreeType) {
    forall i :: i in rows && rows[i].treeType == t ==> (rows[i].lft.Some? <==> rows[i].rgt.Some?)
  }

  /** `k` is a bound of some node of the type. */
  ghost predicate IsLabel(rows: Table, t: TreeType, k: int) {
    exists i :: IsNode(rows, t, i) && (rows[i].lft.value == k || rows[i].rgt.value == k)
  }

  /** No label below a node's right bound is unused. */
  ghost predicate Dense(rows: Table, t: TreeType) {
    forall i, k :: IsNode(rows, t, i) && 1 <= k <= rows[i].rgt.value ==> IsLabel(rows, t, k)
  }

  /** The structural part of the invariant: everything but density. */
  ghost predicate Nesting(rows: Table, t: TreeType) {
    Ordered(rows, t) && Laminar(rows, t) && ParentsEnclose(rows, t) && SiblingsApart(rows, t)
    && NoHalfBounds(rows, t)
  }

  ghost predicate NestedSet(rows: Table, t: TreeType) {
    Nesting(rows, t) && Dense(rows, t)
  }

  // ---------------------------------------------------------------- counting descendants

  ghost function LftOf(rows: Table, i: Id): int {
    if i in rows && rows[i].lft.Some? then rows[i].lft.value else 0
  }

  ghost function RgtOf(rows: Table, i: Id): int {
    if i in rows && rows[i].rgt.Some? then rows[i].rgt.value else 0
  }

  /** The labels of a set of rows. */
  ghost function LabelsOf(rows: Table, s: set<Id>): set<int> {
    (set i | i in s :: LftOf(rows, i)) + (set i | i in s :: RgtOf(rows, i))
  }

  /** The integers strictly between `a` and `b`. */
  ghost function Between(a: int, b: int): set<int>
    decreases b - a
  {
    if b - a <= 1 then {} else Between(a, b - 1) + {b - 1}
  }

  lemma {:induction false} BetweenIs(a: int, b: int)
    ensures forall k :: k in Between(a, b) <==> a < k < b
    ensures a < b ==> |Between(a, b)| == b - a - 1
    decreases b - a
  {
    if b - a > 1 {
      BetweenIs(a, b - 1);
    }
  }

  /** Different nodes share no label, and a node's two labels differ. */
  ghost predicate DistinctLabels(rows: Table, t: TreeType, s: set<Id>) {
    (forall i :: i in s ==> LftOf(rows, i) != RgtOf(rows, i))
    && (forall i, j :: i in s && j in s && i != j ==>
          LftOf(rows, i) != LftOf(rows, j)
          && RgtOf(rows, i) != RgtOf(rows, j)
          && LftOf(rows, i) != RgtOf(rows, j))
  }

  lemma LaminarLabelsDistinct(rows: Table, t: TreeType, s: set<Id>)
    requires Ordered(rows, t) && Laminar(rows, t)
    requires forall i :: i in s ==> IsNode(rows, t, i)
    ensures DistinctLabels(rows, t, s)
  {
    forall i, j | i in s && j in s && i != j
      ensures LftOf(rows, i) != LftOf(rows, j) && RgtOf(rows, i) != RgtOf(rows, j)
              && LftOf(rows, i) != RgtOf(rows, j)
    {
      assert IsNode(rows, t, i) && IsNode(rows, t, j);
    }
    forall i | i in s ensures LftOf(rows, i) != RgtOf(rows, i) {
      assert IsNode(rows, t, i);
    }
  }

  lemma LabelsOfSize(rows: Table, t: TreeType, s: set<Id>)
    requires DistinctLabels(rows, t, s)
    ensures |LabelsOf(rows, s)| == 2 * |s|
  {
    LftImageSize(rows, t, s);
    RgtImageSize(rows, t, s);
    var ls, rs := set i | i in s :: LftOf(rows, i), set i | i in s :: RgtOf(rows, i);
    forall k | k in ls ensures k !in rs {
      var i :| i in s && LftOf(rows, i) == k;
      forall j | j in s ensures RgtOf(rows, j) != k {
      }
    }
    assert ls * rs == {};
  }

  /** Distinct left bounds: as many as rows. */
  lemma LftImageSize(rows: Table, t: TreeType, s: set<Id>)
    requires DistinctLabels(rows, t, s)
    ensures |set i | i in s :: LftOf(rows, i)| == |s|
  {
    var lf: Id -> int := (i: Id) => LftOf(rows, i);
    var ls := set i | i in s :: lf(i);
    ImageSize(s, ls, lf);
    assert ls == set i | i in s :: LftOf(rows, i);
  }

  /** Distinct right bounds: as many as rows. */
  lemma RgtImageSize(rows: Table, t: TreeType, s: set<Id>)
    requires DistinctLabels(rows, t, s)
    ensures |set i | i in s :: RgtOf(rows, i)| == |s|
  {
    var rf: Id -> int := (i: Id) => RgtOf(rows, i);
    var rs := set i | i in s :: rf(i);
    ImageSize(s, rs, rf);
    assert rs == set i | i in s :: RgtOf(rows, i);
  }

  /** A row whose left bound lies strictly inside a node is a node strictly inside it. */
  lemma InsideIsWithin(rows: Table, t: TreeType, x: Id, i: Id)
    requires Nesting(rows, t) && IsNode(rows, t, x)
    requires i in FindAllChildren(rows, t, rows[x].lft, rows[x].rgt)
    ensures IsNode(rows, t, i) && i != x && Within(rows[i], rows[x])
  {
    assert IsNode(rows, t, i);
  }

  /** In a dense table every label strictly inside a node belongs to a row inside it. */
  lemma InsideLabels(rows: Table, t: TreeType, x: Id, k: int)
    requires NestedSet(rows, t) && IsNode(rows, t, x)
    requires rows[x].lft.value < k < rows[x].rgt.value
    ensures k in LabelsOf(rows, FindAllChildren(rows, t, rows[x].lft, rows[x].rgt))
  {
    var s := FindAllChildren(rows, t, rows[x].lft, rows[x].rgt);
    assert IsLabel(rows, t, k);
    var j :| IsNode(rows, t, j) && (rows[j].lft.value == k || rows[j].rgt.value == k);
    assert j != x;
    assert Within(rows[j], rows[x]);
    assert j in s;
    if rows[j].lft.value == k {
      assert LftOf(rows, j) == k;
    } else {
      assert RgtOf(rows, j) == k;
    }
  }

  /**
   * The count law: a node's width is twice the number of rows strictly inside it, plus one.
   * So the number a node reports, half its width rounded down, is its number of descendants,
   * and a node without descendants has `rgt == lft + 1`.
   */
  lemma DescendantCount(rows: Table, t: TreeType, x: Id)
    requires NestedSet(rows, t) && IsNode(rows, t, x)
    ensures rows[x].rgt.value - rows[x].lft.value
              == 2 * |FindAllChildren(rows, t, rows[x].lft, rows[x].rgt)| + 1
  {
    var a, b := rows[x].lft.value, rows[x].rgt.value;
    var s := FindAllChildren(rows, t, rows[x].lft, rows[x].rgt);
    InsideLabelSet(rows, t, x);
    LabelsOfSize(rows, t, s);
    BetweenIs(a, b);
  }

  /** The labels of the rows inside a node are distinct and are exactly the integers strictly
      between the node's bounds. */
  lemma InsideLabelSet(rows: Table, t: TreeType, x: Id)
    requires NestedSet(rows, t) && IsNode(rows, t, x)
    ensures var s := FindAllChildren(rows, t, rows[x].lft, rows[x].rgt);
            DistinctLabels(rows, t, s) && LabelsOf(rows, s) == Between(rows[x].lft.value, rows[x].rgt.value)
  {
    var a, b := rows[x].lft.value, rows[x].rgt.value;
    var s := FindAllChildren(rows, t, rows[x].lft, rows[x].rgt);
    forall i | i in s ensures IsNode(rows, t, i) && Within(rows[i], rows[x]) {
      InsideIsWithin(rows, t, x, i);
    }
    LaminarLabelsDistinct(rows, t, s);
    BetweenIs(a, b);
    forall k | k in Between(a, b) ensures k in LabelsOf(rows, s) {
      InsideLabels(rows, t, x, k);
    }
    LabelsBetween(rows, s, a, b);
  }

  /** The labels of rows lying strictly between `a` and `b` are integers strictly between. */
  lemma LabelsBetween(rows: Table, s: set<Id>, a: int, b: int)
    requires forall i :: i in s ==> a < LftOf(rows, i) < b && a < RgtOf(rows, i) < b
    ensures LabelsOf(rows, s) <= Between(a, b)
  {
    BetweenIs(a, b);
    forall k | k in LabelsOf(rows, s) ensures k in Between(a, b) {
      if k in (set i | i in s :: LftOf(rows, i)) {
        var i :| i in s && LftOf(rows, i) == k;
      } else {
        var i :| i in s && RgtOf(rows, i) == k;
      }
    }
  }

  /** The children count a node reports is its number of descendants. */
  lemma ChildrenCountIsDescendants(rows: Table, t: TreeType, x: Id)
    requires NestedSet(rows, t) && IsNode(rows, t, x)
    requires rows[x].rgt.value - rows[x].lft.value < TWO_TO_32
    ensures ChildrenCount(rows[x].lft, rows[x].rgt)
              == |FindAllChildren(rows, t, rows[x].lft, rows[x].rgt)|
  {
    DescendantCount(rows, t, x);
  }

  /** A node without descendants is a leaf: its bounds are consecutive. */
  lemma LeafBounds(rows: Table, t: TreeType, x: Id)
    requires NestedSet(rows, t) && IsNode(rows, t, x)
    ensures FindAllChildren(rows, t, rows[x].lft, rows[x].rgt) == {}
            <==> rows[x].rgt.value == rows[x].lft.value + 1
  {
    DescendantCount(rows, t, x);
  }

  // ---------------------------------------------------------------- renumbering

  lemma NodeLabels(rows: Table, t: TreeType, i: Id)
    requires IsNode(rows, t, i)
    ensures IsLabel(rows, t, rows[i].lft.value) && IsLabel(rows, t, rows[i].rgt.value)
  {
  }

  /** `rows2` renumbers the nodes of `rows` through `f` and keeps every key, tree type and
      parent, and every unnumbered row of the type unnumbered. */
  ghost predicate RenumberedBy(rows: Table, rows2: Table, t: TreeType, f: int -> int) {
    rows2.Keys == rows.Keys
    && (forall i :: i in rows ==> rows2[i].treeType == rows[i].treeType && rows2[i].parent == rows[i].parent)
    && (forall i :: IsNode(rows, t, i) ==>
          rows2[i].lft == Some(f(rows[i].lft.value)) && rows2[i].rgt == Some(f(rows[i].rgt.value)))
    && (forall i :: i in rows && rows[i].treeType == t && !IsIndexed(rows[i]) ==>
          rows2[i].lft.None? && rows2[i].rgt.None?)
  }

  /** `f` keeps the order of the labels in use and maps them to positive labels. */
  ghost predicate IncreasingOnLabels(rows: Table, t: TreeType, f: int -> int) {
    (forall a, b :: IsLabel(rows, t, a) && IsLabel(rows, t, b) && a < b ==> f(a) < f(b))
    && (forall a :: IsLabel(rows, t, a) ==> 1 <= f(a))
  }

  lemma RenumberedNodes(rows: Table, rows2: Table, t: TreeType, f: int -> int)
    requires NoHalfBounds(rows, t) && RenumberedBy(rows, rows2, t, f)
    ensures forall i :: IsNode(rows2, t, i) <==> IsNode(rows, t, i)
    ensures NoHalfBounds(rows2, t)
  {
    forall i | i in rows2 && rows2[i].treeType == t
      ensures (IsNode(rows2, t, i) <==> IsNode(rows, t, i))
      ensures (rows2[i].lft.Some? <==> rows2[i].rgt.Some?)
    {
      if IsIndexed(rows[i]) {
        assert IsNode(rows, t, i);
      }
    }
  }

  /** Renumbering through an increasing map keeps the structure of the invariant. */
  lemma RenumberKeepsNesting(rows: Table, rows2: Table, t: TreeType, f: int -> int)
    requires Nesting(rows, t) && RenumberedBy(rows, rows2, t, f) && IncreasingOnLabels(rows, t, f)
    ensures Nesting(rows2, t)
    ensures forall i :: IsNode(rows2, t, i) <==> IsNode(rows, t, i)
  {
    RenumberedNodes(rows, rows2, t, f);
    RenumberKeepsOrdered(rows, rows2, t, f);
    RenumberKeepsLaminar(rows, rows2, t, f);
    RenumberKeepsParents(rows, rows2, t, f);
    RenumberKeepsSiblings(rows, rows2, t, f);
  }

  lemma RenumberKeepsOrdered(rows: Table, rows2: Table, t: TreeType, f: int -> int)
    requires Ordered(rows, t) && NoHalfBounds(rows, t) && RenumberedBy(rows, rows2, t, f)
    requires IncreasingOnLabels(rows, t, f)
    ensures Ordered(rows2, t)
  {
    RenumberedNodes(rows, rows2, t, f);
    forall i | IsNode(rows2, t, i)
      ensures 1 <= rows2[i].lft.value < rows2[i].rgt.value
    {
      NodeLabels(rows, t, i);
    }
  }

  lemma RenumberKeepsLaminar(rows: Table, rows2: Table, t: TreeType, f: int -> int)
    requires Laminar(rows, t) && NoHalfBounds(rows, t) && RenumberedBy(rows, rows2, t, f)
    requires IncreasingOnLabels(rows, t, f)
    ensures Laminar(rows2, t)
  {
    RenumberedNodes(rows, rows2, t, f);
    forall i, j | IsNode(rows2, t, i) && IsNode(rows2, t, j) && i != j
      ensures Apart(rows2[i], rows2[j]) || Within(rows2[i], rows2[j]) || Within(rows2[j], rows2[i])
    {
      NodeLabels(rows, t, i);
      NodeLabels(rows, t, j);
      assert Apart(rows[i], rows[j]) || Within(rows[i], rows[j]) || Within(rows[j], rows[i]);
    }
  }

  lemma RenumberKeepsParents(rows: Table, rows2: Table, t: TreeType, f: int -> int)
    requires ParentsEnclose(rows, t) && NoHalfBounds(rows, t) && RenumberedBy(rows, rows2, t, f)
    requires IncreasingOnLabels(rows, t, f)
    ensures ParentsEnclose(rows2, t)
  {
    RenumberedNodes(rows, rows2, t, f);
    forall i | IsNode(rows2, t, i) && rows2[i].parent.Some?
      ensures IsNode(rows2, t, rows2[i].parent.value) && Within(rows2[i], rows2[rows2[i].parent.value])
    {
      var p := rows[i].parent.value;
      assert IsNode(rows, t, p) && Within(rows[i], rows[p]);
      NodeLabels(rows, t, i);
      NodeLabels(rows, t, p);
    }
  }

  lemma RenumberKeepsSiblings(rows: Table, rows2: Table, t: TreeType, f: int -> int)
    requires NoHalfBounds(rows, t) && SiblingsApart(rows, t)
    requires RenumberedBy(rows, rows2, t, f) && IncreasingOnLabels(rows, t, f)
    ensures SiblingsApart(rows2, t)
  {
    RenumberedNodes(rows, rows2, t, f);
    forall i, j | IsNode(rows2, t, i) && IsNode(rows2, t, j) && i != j
        && rows2[i].parent.Some? && rows2[i].parent == rows2[j].parent
      ensures Apart(rows2[i], rows2[j])
    {
      NodeLabels(rows, t, i);
      NodeLabels(rows, t, j);
      assert Apart(rows[i], rows[j]);
    }
  }

  lemma LabelsPositive(rows: Table, t: TreeType, k: int)
    requires Ordered(rows, t) && IsLabel(rows, t, k)
    ensures 1 <= k
  {
  }

  /** A label of a renumbered node is the image of its old label. */
  lemma RenumberedLabel(rows: Table, rows2: Table, t: TreeType, f: int -> int, k: int)
    requires RenumberedBy(rows, rows2, t, f) && IsLabel(rows, t, k)
    ensures IsLabel(rows2, t, f(k))
  {
    var m :| IsNode(rows, t, m) && (rows[m].lft.value == k || rows[m].rgt.value == k);
    assert IsNode(rows2, t, m);
  }

  /** A label carried by a row other than `id` survives rewriting row `id`. */
  lemma LabelElsewhere(rows: Table, rows2: Table, t: TreeType, id: Id, k: int)
    requires IsLabel(rows, t, k) && !IsNode(rows, t, id)
    requires rows2.Keys >= rows.Keys
    requires forall i :: i in rows && i != id ==> rows2[i] == rows[i]
    ensures IsLabel(rows2, t, k)
  {
    var m :| IsNode(rows, t, m) && (rows[m].lft.value == k || rows[m].rgt.value == k);
    assert IsNode(rows2, t, m);
  }

  /** Row `id` of `rows` with both bounds cleared. */
  ghost function Unnumbered(rows: Table, id: Id): Table
    requires id in rows
  {
    rows[id := ClearRow(rows[id])]
  }

  /** Two tables with the same keys, tree types and bounds. */
  ghost predicate SameBounds(a: Table, b: Table) {
    a.Keys == b.Keys
    && forall i :: i in a ==> b[i].treeType == a[i].treeType && b[i].lft == a[i].lft && b[i].rgt == a[i].rgt
  }

  lemma SameBoundsSameLabels(a: Table, b: Table, t: TreeType)
    requires SameBounds(a, b)
    ensures forall i :: IsNode(b, t, i) <==> IsNode(a, t, i)
    ensures forall k :: IsLabel(b, t, k) <==> IsLabel(a, t, k)
  {
    forall k | IsLabel(a, t, k) ensures IsLabel(b, t, k) {
      var m :| IsNode(a, t, m) && (a[m].lft.value == k || a[m].rgt.value == k);
      assert IsNode(b, t, m);
    }
    forall k | IsLabel(b, t, k) ensures IsLabel(a, t, k) {
      var m :| IsNode(b, t, m) && (b[m].lft.value == k || b[m].rgt.value == k);
      assert IsNode(a, t, m);
    }
  }

  /** Everything but the parent condition depends on the bounds alone. */
  lemma SameBoundsKeep(a: Table, b: Table, t: TreeType)
    requires SameBounds(a, b) && NestedSet(a, t)
    ensures Ordered(b, t) && Laminar(b, t) && NoHalfBounds(b, t) && Dense(b, t)
    ensures forall i :: IsNode(b, t, i) <==> IsNode(a, t, i)
  {
    SameBoundsSameLabels(a, b, t);
  }

  /** Everything, the parent condition included, when the parents are the same too. */
  lemma SameShapeKeeps(a: Table, b: Table, t: TreeType)
    requires SameBounds(a, b) && NestedSet(a, t)
    requires forall i :: i in a ==> b[i].parent == a[i].parent
    ensures NestedSet(b, t)
  {
    SameBoundsKeep(a, b, t);
    forall i: Id | IsNode(b, t, i) && b[i].parent.Some?
      ensures IsNode(b, t, b[i].parent.value) && Within(b[i], b[b[i].parent.value])
    {
      assert IsNode(a, t, i);
    }
    forall i: Id, j: Id | IsNode(b, t, i) && IsNode(b, t, j) && i != j
        && b[i].parent.Some? && b[i].parent == b[j].parent
      ensures Apart(b[i], b[j])
    {
      assert IsNode(a, t, i) && IsNode(a, t, j);
    }
  }

  // ---------------------------------------------------------------- unnumbered rows

  /** A type without numbered rows satisfies the invariant. */
  lemma NoNodesIsNestedSet(rows: Table, t: TreeType)
    requires forall i :: i in rows && rows[i].treeType == t ==> rows[i].lft.None? && rows[i].rgt.None?
    ensures NestedSet(rows, t)
  {
  }

  lemma ClearedIsNestedSet(rows: Table, t: TreeType)
    ensures NestedSet(ClearIndexes(rows, t), t)
  {
    NoNodesIsNestedSet(ClearIndexes(rows, t), t);
  }

  lemma DroppedIsNestedSet(rows: Table, t: TreeType)
    ensures NestedSet(DropIndexes(rows, t), t)
  {
    NoNodesIsNestedSet(DropIndexes(rows, t), t);
  }

  /** Writing a row that is not a numbered row of the type over a key that held none keeps
      the invariant. */
  lemma ReplaceUnbounded(rows: Table, t: TreeType, id: Id, row: IndexRow)
    requires NestedSet(rows, t) && !IsNode(rows, t, id)
    requires row.treeType == t ==> row.lft.None? && row.rgt.None?
    ensures NestedSet(rows[id := row], t)
  {
    var r := rows[id := row];
    assert forall i :: IsNode(r, t, i) ==> i != id && IsNode(rows, t, i);
    forall k: int, i: Id | IsNode(r, t, i) && 1 <= k <= r[i].rgt.value ensures IsLabel(r, t, k) {
      assert IsLabel(rows, t, k);
      LabelElsewhere(rows, r, t, id, k);
    }
    forall i: Id | IsNode(r, t, i) && r[i].parent.Some?
      ensures IsNode(r, t, r[i].parent.value) && Within(r[i], r[r[i].parent.value])
    {
      assert IsNode(rows, t, i) && IsNode(rows, t, rows[i].parent.value);
    }
    forall i: Id, j: Id | IsNode(r, t, i) && IsNode(r, t, j) && i != j
        && r[i].parent.Some? && r[i].parent == r[j].parent
      ensures Apart(r[i], r[j])
    {
      assert IsNode(rows, t, i) && IsNode(rows, t, j);
    }
  }

  /** Writing a row with the same tree type, bounds and parent keeps the invariant. */
  lemma ReplaceKeepingShape(rows: Table, t: TreeType, id: Id, row: IndexRow)
    requires NestedSet(rows, t) && id in rows
    requires row.treeType == rows[id].treeType && row.lft == rows[id].lft && row.rgt == rows[id].rgt
    requires row.parent == rows[id].parent
    ensures NestedSet(rows[id := row], t)
  {
    SameShapeKeeps(rows, rows[id := row], t);
  }

  /** A node's parent is a node, so the rows of the type under an unnumbered row are
      unnumbered. */
  lemma UnindexedChildren(rows: Table, t: TreeType, x: Id)
    requires NestedSet(rows, t) && !IsNode(rows, t, x)
    ensures forall i :: i in rows && rows[i].treeType == t && rows[i].parent == Some(x) ==>
              rows[i].lft.None? && rows[i].rgt.None?
  {
  }

  // ---------------------------------------------------------------- a single root

  /** The nodes whose right bound lies after `b`. */
  ghost function NodesEndingAfter(rows: Table, t: TreeType, b: int): set<Id> {
    set i | i in rows && IsNode(rows, t, i) && rows[i].rgt.value > b
  }

  /**
   * When `r` is the only node of the type without a parent, every other node lies inside
   * it: following parents from any node only ever reaches wider nodes, and the last one has
   * no parent.
   */
  lemma {:induction false} InsideOnlyRoot(rows: Table, t: TreeType, r: Id, j: Id)
    requires Nesting(rows, t) && IsNode(rows, t, r) && IsNode(rows, t, j) && j != r
    requires forall i :: IsNode(rows, t, i) && rows[i].parent.None? ==> i == r
    ensures Within(rows[j], rows[r])
    decreases |NodesEndingAfter(rows, t, rows[j].rgt.value)|
  {
    var q := rows[j].parent.value;
    assert IsNode(rows, t, q) && Within(rows[j], rows[q]);
    if q != r {
      FewerEndAfterWider(rows, t, j, q);
      InsideOnlyRoot(rows, t, r, q);
      assert Within(rows[q], rows[r]);
    }
  }

  lemma FewerEndAfterWider(rows: Table, t: TreeType, j: Id, q: Id)
    requires IsNode(rows, t, j) && IsNode(rows, t, q) && rows[j].rgt.value < rows[q].rgt.value
    ensures |NodesEndingAfter(rows, t, rows[q].rgt.value)| < |NodesEndingAfter(rows, t, rows[j].rgt.value)|
  {
    var above, aboveQ := NodesEndingAfter(rows, t, rows[j].rgt.value), NodesEndingAfter(rows, t, rows[q].rgt.value);
    assert aboveQ <= above;
    var diff := above - aboveQ;
    assert q in diff;
    assert above == aboveQ + diff && aboveQ * diff == {};
  }

  /** The numbered rows of a type. */
  ghost function NodesOf(rows: Table, t: TreeType): set<Id> {
    set i | i in rows && IsNode(rows, t, i)
  }

  /** Under a single root, the root's children count is the number of all other nodes. */
  lemma OnlyRootHoldsAll(rows: Table, t: TreeType, r: Id)
    requires NestedSet(rows, t) && IsNode(rows, t, r)
    requires forall i :: IsNode(rows, t, i) && rows[i].parent.None? ==> i == r
    ensures FindAllChildren(rows, t, rows[r].lft, rows[r].rgt) == NodesOf(rows, t) - {r}
    ensures rows[r].rgt.value - rows[r].lft.value == 2 * (|NodesOf(rows, t)| - 1) + 1
  {
    var kids := FindAllChildren(rows, t, rows[r].lft, rows[r].rgt);
    forall j | j in NodesOf(rows, t) - {r} ensures j in kids {
      InsideOnlyRoot(rows, t, r, j);
    }
    forall j | j in kids ensures j in NodesOf(rows, t) - {r} {
      InsideIsWithin(rows, t, r, j);
    }
    DescendantCount(rows, t, r);
    assert r in NodesOf(rows, t);
  }

  // ---------------------------------------------------------------- descendants by parent link

  /** Following parent links from node `j` reaches `x` within `n + 1` steps, through nodes. */
  ghost predicate Descends(rows: Table, t: TreeType, j: Id, x: Id, n: nat)
    decreases n
  {
    IsNode(rows, t, j) && rows[j].parent.Some?
    && (rows[j].parent.value == x || (n > 0 && Descends(rows, t, rows[j].parent.value, x, n - 1)))
  }

  /** Node `j` is a descendant of `x` by parent links. */
  ghost predicate IsDescendant(rows: Table, t: TreeType, j: Id, x: Id) {
    exists n: nat :: Descends(rows, t, j, x, n)
  }

  /** The descendants of `x` by parent links. */
  ghost function DescendantsOf(rows: Table, t: TreeType, x: Id): set<Id> {
    set j | j in rows && IsDescendant(rows, t, j, x)
  }

  /** A descendant by parent links lies strictly inside its ancestor. */
  lemma {:induction false} DescendsInside(rows: Table, t: TreeType, j: Id, x: Id, n: nat)
    requires ParentsEnclose(rows, t) && Descends(rows, t, j, x, n)
    ensures IsNode(rows, t, x) && Within(rows[j], rows[x])
    decreases n
  {
    var q := rows[j].parent.value;
    assert IsNode(rows, t, q) && Within(rows[j], rows[q]);
    if q != x {
      DescendsInside(rows, t, q, x, n - 1);
    }
  }

  /** Under a single root, a node strictly inside `q` lies in (or is) one of `q`'s children. */
  lemma {:induction false} ChildAbove(rows: Table, t: TreeType, r: Id, x: Id, q: Id) returns (c: Id)
    requires Nesting(rows, t) && IsNode(rows, t, r) && IsNode(rows, t, x) && IsNode(rows, t, q)
    requires forall i :: IsNode(rows, t, i) && rows[i].parent.None? ==> i == r
    requires Within(rows[x], rows[q])
    ensures IsNode(rows, t, c) && rows[c].parent == Some(q) && (c == x || Within(rows[x], rows[c]))
    decreases |NodesEndingAfter(rows, t, rows[x].rgt.value)|
  {
    if x == r {
      InsideOnlyRoot(rows, t, r, q);
      assert false;
    }
    var p := rows[x].parent.value;
    assert IsNode(rows, t, p) && Within(rows[x], rows[p]);
    if p == q {
      c := x;
    } else if Within(rows[p], rows[q]) {
      FewerEndAfterWider(rows, t, x, p);
      c := ChildAbove(rows, t, r, p, q);
    } else {
      assert Within(rows[q], rows[p]);
      FewerEndAfterWider(rows, t, x, q);
      var c2 := ChildAbove(rows, t, r, q, p);
      assert false;
    }
  }

  /** Under a single root, a node strictly inside `x` is a descendant of `x` by parent links. */
  lemma {:induction false} InsideDescends(rows: Table, t: TreeType, r: Id, x: Id, j: Id) returns (n: nat)
    requires Nesting(rows, t) && IsNode(rows, t, r) && IsNode(rows, t, x) && IsNode(rows, t, j)
    requires forall i :: IsNode(rows, t, i) && rows[i].parent.None? ==> i == r
    requires Within(rows[j], rows[x])
    ensures Descends(rows, t, j, x, n)
    decreases |NodesEndingAfter(rows, t, rows[j].rgt.value)|
  {
    if j == r {
      InsideOnlyRoot(rows, t, r, x);
      assert false;
    }
    var q := rows[j].parent.value;
    assert IsNode(rows, t, q) && Within(rows[j], rows[q]);
    if q == x {
      n := 0;
    } else if Within(rows[q], rows[x]) {
      FewerEndAfterWider(rows, t, j, q);
      var m := InsideDescends(rows, t, r, x, q);
      n := m + 1;
    } else {
      assert Within(rows[x], rows[q]);
      var c := ChildAbove(rows, t, r, x, q);
      assert false;
    }
  }

  /**
   * Under a single root, the rows the interval query finds inside a node are exactly its
   * descendants by parent links, so the children count a node reports counts them.
   */
  lemma DescendantsByLink(rows: Table, t: TreeType, r: Id, x: Id)
    requires NestedSet(rows, t) && IsNode(rows, t, r) && IsNode(rows, t, x)
    requires forall i :: IsNode(rows, t, i) && rows[i].parent.None? ==> i == r
    ensures FindAllChildren(rows, t, rows[x].lft, rows[x].rgt) == DescendantsOf(rows, t, x)
    ensures rows[x].rgt.value - rows[x].lft.value == 2 * |DescendantsOf(rows, t, x)| + 1
  {
    var inside := FindAllChildren(rows, t, rows[x].lft, rows[x].rgt);
    forall j | j in inside ensures j in DescendantsOf(rows, t, x) {
      InsideIsWithin(rows, t, x, j);
      var n := InsideDescends(rows, t, r, x, j);
    }
    forall j | j in DescendantsOf(rows, t, x) ensures j in inside {
      var n: nat :| Descends(rows, t, j, x, n);
      DescendsInside(rows, t, j, x, n);
    }
    DescendantCount(rows, t, x);
  }
}

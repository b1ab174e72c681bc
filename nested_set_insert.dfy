/**
 * Inserting a node keeps the nested-set invariant: a new root is placed over the whole
 * type after every label moved up by one, and a new last child opens a gap of two labels
 * at its parent's right bound.
 */
module NestedSetInsert {
  import opened Wrappers
  import opened ForestIndexEntity
  import opened ForestIndexRepository
  import opened NestedSetInvariant

  // ---------------------------------------------------------------- inserting a root

  ghost function ShiftUp(k: int): int { k + 1 }

  lemma RootShiftRenumbers(rows: Table, t: TreeType)
    requires Nesting(rows, t)
    ensures RenumberedBy(rows, BeforeRootInsert(rows, t), t, ShiftUp)
    ensures IncreasingOnLabels(rows, t, ShiftUp)
  {
    var s := BeforeRootInsert(rows, t);
    forall i | IsNode(rows, t, i)
      ensures s[i].lft == Some(ShiftUp(rows[i].lft.value)) && s[i].rgt == Some(ShiftUp(rows[i].rgt.value))
    {
      assert s[i] == rows[i].(lft := Plus(rows[i].lft, 1), rgt := Plus(rows[i].rgt, 1));
    }
    forall a | IsLabel(rows, t, a) ensures 1 <= ShiftUp(a) {
      LabelsPositive(rows, t, a);
    }
  }

  lemma RootShiftAgreesExceptAt(rows: Table, t: TreeType, id: Id)
    requires id in rows && rows[id].rgt.None?
    ensures var a, b := BeforeRootInsert(rows, t), BeforeRootInsert(Unnumbered(rows, id), t);
            a.Keys == b.Keys && a[id].rgt.None? && b[id].rgt.None? && a[id].treeType == b[id].treeType
            && forall i :: i in a && i != id ==> a[i] == b[i]
  {
  }

  /** The right bound a new root gets does not depend on the old bounds of that row when
      it had no right bound. */
  lemma AddedRootRgtIgnoresUnbounded(rows: Table, t: TreeType, id: Id)
    requires id in rows && rows[id].rgt.None?
    ensures AddedRootRgt(BeforeRootInsert(rows, t), t)
              == AddedRootRgt(BeforeRootInsert(Unnumbered(rows, id), t), t)
  {
    var a, b := BeforeRootInsert(rows, t), BeforeRootInsert(Unnumbered(rows, id), t);
    RootShiftAgreesExceptAt(rows, t, id);
    var ra, rb := RgtsOf(a, t), RgtsOf(b, t);
    forall k | k in ra ensures k in rb {
      var i :| i in a && a[i].treeType == t && a[i].rgt == Some(k);
      assert i != id;
    }
    forall k | k in rb ensures k in ra {
      var i :| i in b && b[i].treeType == t && b[i].rgt == Some(k);
      assert i != id;
    }
    assert ra == rb;
  }

  /** `placed` is `s` with row `id` replaced by a root `(1, n)` whose interval holds every
      node of `s`. */
  ghost predicate EnclosesAll(s: Table, placed: Table, t: TreeType, id: Id, root: IndexRow) {
    id in s && !IsNode(s, t, id) && placed == s[id := root]
    && root.treeType == t && root.lft == Some(1) && root.rgt.Some? && 2 <= root.rgt.value
    && forall j :: IsNode(s, t, j) ==> 1 < s[j].lft.value && s[j].rgt.value < root.rgt.value
  }

  lemma EnclosingRootNodes(s: Table, placed: Table, t: TreeType, id: Id, root: IndexRow)
    requires EnclosesAll(s, placed, t, id, root)
    ensures forall j :: IsNode(placed, t, j) ==> j == id || IsNode(s, t, j)
    ensures IsNode(placed, t, id)
    ensures forall j :: IsNode(placed, t, j) && j != id ==> Within(placed[j], root)
  {
  }

  lemma EnclosingRootOrdered(s: Table, placed: Table, t: TreeType, id: Id, root: IndexRow)
    requires Ordered(s, t) && EnclosesAll(s, placed, t, id, root)
    ensures Ordered(placed, t)
  {
    forall j | IsNode(placed, t, j) ensures 1 <= placed[j].lft.value < placed[j].rgt.value {
      if j != id { assert IsNode(s, t, j); }
    }
  }

  lemma EnclosingRootLaminar(s: Table, placed: Table, t: TreeType, id: Id, root: IndexRow)
    requires Laminar(s, t) && EnclosesAll(s, placed, t, id, root)
    ensures Laminar(placed, t)
  {
    EnclosingRootNodes(s, placed, t, id, root);
    forall i, j | IsNode(placed, t, i) && IsNode(placed, t, j) && i != j
      ensures Apart(placed[i], placed[j]) || Within(placed[i], placed[j]) || Within(placed[j], placed[i])
    {
      if i != id && j != id {
        assert IsNode(s, t, i) && IsNode(s, t, j);
      }
    }
  }

  lemma EnclosingRootParents(s: Table, placed: Table, t: TreeType, id: Id, root: IndexRow)
    requires ParentsEnclose(s, t) && EnclosesAll(s, placed, t, id, root) && root.parent.None?
    ensures ParentsEnclose(placed, t)
  {
    forall j: Id | IsNode(placed, t, j) && placed[j].parent.Some?
      ensures IsNode(placed, t, placed[j].parent.value) && Within(placed[j], placed[placed[j].parent.value])
    {
      assert j != id && IsNode(s, t, j);
      var q := s[j].parent.value;
      assert IsNode(s, t, q) && q != id;
    }
  }

  /** The new root has no siblings, and the other nodes keep theirs. */
  lemma EnclosingRootSiblings(s: Table, placed: Table, t: TreeType, id: Id, root: IndexRow)
    requires SiblingsApart(s, t) && EnclosesAll(s, placed, t, id, root) && root.parent.None?
    ensures SiblingsApart(placed, t)
  {
    forall i: Id, j: Id | IsNode(placed, t, i) && IsNode(placed, t, j) && i != j
        && placed[i].parent.Some? && placed[i].parent == placed[j].parent
      ensures Apart(placed[i], placed[j])
    {
      assert i != id && j != id;
      assert IsNode(s, t, i) && IsNode(s, t, j);
    }
  }

  lemma EnclosingRootNesting(s: Table, placed: Table, t: TreeType, id: Id, root: IndexRow)
    requires Nesting(s, t) && EnclosesAll(s, placed, t, id, root) && root.parent.None?
    ensures Nesting(placed, t)
  {
    EnclosingRootOrdered(s, placed, t, id, root);
    EnclosingRootLaminar(s, placed, t, id, root);
    EnclosingRootParents(s, placed, t, id, root);
    EnclosingRootSiblings(s, placed, t, id, root);
  }

  /** With every label strictly between 1 and n in use, the new root makes the table dense. */
  lemma EnclosingRootDense(s: Table, placed: Table, t: TreeType, id: Id, root: IndexRow)
    requires EnclosesAll(s, placed, t, id, root)
    requires forall k :: 1 < k < root.rgt.value ==> IsLabel(s, t, k)
    ensures Dense(placed, t)
  {
    EnclosingRootNodes(s, placed, t, id, root);
    forall k | 1 <= k <= root.rgt.value ensures IsLabel(placed, t, k) {
      if 1 < k < root.rgt.value {
        LabelElsewhere(s, placed, t, id, k);
      }
    }
  }

  /** After the shift by one, the nodes lie strictly inside `(1, n)` for the new root's `n`. */
  lemma ShiftedInsideRoot(u: Table, t: TreeType, id: Id, root: IndexRow)
    requires Nesting(u, t) && id in u && u[id].lft.None? && u[id].rgt.None?
    requires root.treeType == t && root.lft == Some(1)
    requires root.rgt == Some(AddedRootRgt(BeforeRootInsert(u, t), t))
    ensures EnclosesAll(BeforeRootInsert(u, t), BeforeRootInsert(u, t)[id := root], t, id, root)
  {
    var shifted := BeforeRootInsert(u, t);
    var n := root.rgt.value;
    assert n == AddedRootRgt(shifted, t);
    forall j | IsNode(shifted, t, j) ensures 1 < shifted[j].lft.value && shifted[j].rgt.value < n {
      assert shifted[j] == u[j].(lft := Plus(u[j].lft, 1), rgt := Plus(u[j].rgt, 1));
      assert IsNode(u, t, j);
    }
    if n != 2 {
      var j :| j in shifted && shifted[j].treeType == t && shifted[j].rgt == Some(n - 1);
      assert shifted[j] == u[j].(lft := Plus(u[j].lft, 1), rgt := Plus(u[j].rgt, 1));
      assert IsNode(u, t, j);
    }
  }

  /** After the shift by one, every label strictly between 1 and the new root's `n` is used. */
  lemma ShiftedLabelsUsed(u: Table, t: TreeType, id: Id, n: int)
    requires NestedSet(u, t) && id in u && u[id].lft.None? && u[id].rgt.None?
    requires n == AddedRootRgt(BeforeRootInsert(u, t), t)
    ensures forall k :: 1 < k < n ==> IsLabel(BeforeRootInsert(u, t), t, k)
  {
    var shifted := BeforeRootInsert(u, t);
    if n > 2 {
      var j :| j in shifted && shifted[j].treeType == t && shifted[j].rgt == Some(n - 1);
      assert IsNode(u, t, j) && u[j].rgt.value == n - 2;
      RootShiftRenumbers(u, t);
      forall k | 1 < k < n ensures IsLabel(shifted, t, k) {
        assert IsLabel(u, t, k - 1);
        RenumberedLabel(u, shifted, t, ShiftUp, k - 1);
      }
    }
  }

  lemma PlacedRootIsNestedSet(u: Table, t: TreeType, id: Id, root: IndexRow)
    requires NestedSet(u, t) && id in u && u[id].lft.None? && u[id].rgt.None?
    requires root.treeType == t && root.parent.None? && root.lft == Some(1)
    requires root.rgt == Some(AddedRootRgt(BeforeRootInsert(u, t), t))
    ensures EnclosesAll(BeforeRootInsert(u, t), BeforeRootInsert(u, t)[id := root], t, id, root)
    ensures NestedSet(BeforeRootInsert(u, t)[id := root], t)
  {
    var shifted := BeforeRootInsert(u, t);
    var placed := shifted[id := root];
    RootShiftRenumbers(u, t);
    RenumberKeepsNesting(u, shifted, t, ShiftUp);
    ShiftedInsideRoot(u, t, id, root);
    ShiftedLabelsUsed(u, t, id, root.rgt.value);
    EnclosingRootNesting(shifted, placed, t, id, root);
    EnclosingRootDense(shifted, placed, t, id, root);
  }

  /** Re-parenting the previous root under the new one keeps the invariant. */
  lemma ReparentUnderRoot(placed: Table, t: TreeType, id: Id, p: Id)
    requires NestedSet(placed, t) && IsNode(placed, t, id)
    requires forall j: Id :: IsNode(placed, t, j) && j != id ==> Within(placed[j], placed[id])
    requires forall j :: IsNode(placed, t, j) ==> placed[j].parent != Some(id)
    requires p in FindPreviousRoots(placed, t, id)
    ensures NestedSet(UpdateParent(placed, p, Some(id)), t)
  {
    var r := UpdateParent(placed, p, Some(id));
    assert SameBounds(placed, r);
    SameBoundsKeep(placed, r, t);
    forall j: Id | IsNode(r, t, j) && r[j].parent.Some?
      ensures IsNode(r, t, r[j].parent.value) && Within(r[j], r[r[j].parent.value])
    {
      assert IsNode(placed, t, j);
      if j != p {
        assert r[j].parent == placed[j].parent;
      }
    }
    forall j: Id | IsNode(r, t, j) && j != p ensures r[j].parent != Some(id) {
      assert IsNode(placed, t, j);
    }
    forall i: Id, j: Id | IsNode(r, t, i) && IsNode(r, t, j) && i != j
        && r[i].parent.Some? && r[i].parent == r[j].parent
      ensures Apart(r[i], r[j])
    {
      if i != p && j != p {
        assert IsNode(placed, t, i) && IsNode(placed, t, j);
      }
    }
  }

  /**
   * Inserting a root: the type is shifted up by one, the node gets `(1, n)` with `n` one
   * past the largest right bound, and a previous root, if any, is re-parented under it.
   * When the node's own row had no right bound, the invariant is kept.
   */
  /** The shifted table with the new root in place does not depend on the bounds the row
      had before, when it had no right bound. */
  lemma PlacedIgnoresOwnBounds(rows: Table, t: TreeType, id: Id, root: IndexRow)
    requires id in rows && rows[id].rgt.None?
    ensures BeforeRootInsert(rows, t)[id := root] == BeforeRootInsert(Unnumbered(rows, id), t)[id := root]
  {
    RootShiftAgreesExceptAt(rows, t, id);
  }

  /** Before the new root adopts the old roots, no node hangs from it: it was no node of the old forest. */
  lemma NoChildOfNewRoot(u: Table, s: Table, placed: Table, t: TreeType, id: Id, root: IndexRow)
    requires id in u && u[id].lft.None? && ParentsEnclose(u, t)
    requires RenumberedBy(u, s, t, ShiftUp) && (forall i :: IsNode(s, t, i) <==> IsNode(u, t, i))
    requires placed == s[id := root] && root.parent.None?
    ensures forall j :: IsNode(placed, t, j) ==> placed[j].parent != Some(id)
  {
    forall j | IsNode(placed, t, j) ensures placed[j].parent != Some(id) {
      if j != id {
        assert IsNode(s, t, j);
        assert IsNode(u, t, j);
      }
    }
  }

  lemma RootInsertKeepsNestedSet(rows: Table, placed: Table, t: TreeType, id: Id, root: IndexRow)
    requires id in rows && rows[id].rgt.None? && NestedSet(Unnumbered(rows, id), t)
    requires root.treeType == t && root.parent.None?
    requires root.lft == Some(1) && root.rgt == Some(AddedRootRgt(BeforeRootInsert(rows, t), t))
    requires placed == BeforeRootInsert(rows, t)[id := root]
    ensures NestedSet(placed, t)
    ensures forall j :: IsNode(placed, t, j) && j != id ==> Within(placed[j], placed[id])
    ensures forall p :: p in FindPreviousRoots(placed, t, id) ==> NestedSet(UpdateParent(placed, p, Some(id)), t)
  {
    var u := Unnumbered(rows, id);
    AddedRootRgtIgnoresUnbounded(rows, t, id);
    PlacedIgnoresOwnBounds(rows, t, id, root);
    PlacedRootIsNestedSet(u, t, id, root);
    EnclosingRootNodes(BeforeRootInsert(u, t), placed, t, id, root);
    RootShiftRenumbers(u, t);
    RenumberedNodes(u, BeforeRootInsert(u, t), t, ShiftUp);
    NoChildOfNewRoot(u, BeforeRootInsert(u, t), placed, t, id, root);
    forall p | p in FindPreviousRoots(placed, t, id) ensures NestedSet(UpdateParent(placed, p, Some(id)), t) {
      ReparentUnderRoot(placed, t, id, p);
    }
  }

  // ---------------------------------------------------------------- appending a last child

  /** A label after the insert statement opened a gap of two at `p`. */
  ghost function GapAt(p: int, k: int): int {
    if k >= p then k + 2 else k
  }

  /** No node starts at the right bound of another node. */
  lemma NoLftAtRgt(rows: Table, t: TreeType, p: Id, j: Id)
    requires Ordered(rows, t) && Laminar(rows, t) && IsNode(rows, t, p) && IsNode(rows, t, j)
    ensures rows[j].lft.value != rows[p].rgt.value
  {
    if j != p {
      assert Apart(rows[j], rows[p]) || Within(rows[j], rows[p]) || Within(rows[p], rows[j]);
    }
  }

  /** The insert statement renumbers the nodes through `GapAt` at the parent's right bound. */
  lemma GapRenumbers(rows: Table, t: TreeType, p: Id, f: int -> int)
    requires Nesting(rows, t) && IsNode(rows, t, p)
    requires forall k :: f(k) == GapAt(rows[p].rgt.value, k)
    ensures RenumberedBy(rows, BeforeNodeInsert(rows, t, rows[p].rgt.value), t, f)
    ensures IncreasingOnLabels(rows, t, f)
  {
    var pr := rows[p].rgt.value;
    var s := BeforeNodeInsert(rows, t, pr);
    forall i | IsNode(rows, t, i)
      ensures s[i].lft == Some(f(rows[i].lft.value)) && s[i].rgt == Some(f(rows[i].rgt.value))
    {
      NoLftAtRgt(rows, t, p, i);
    }
    forall a | IsLabel(rows, t, a) ensures 1 <= f(a) {
      LabelsPositive(rows, t, a);
    }
  }

  /** After the gap opens at `p`, no node uses the labels `p` and `p + 1`. */
  lemma GapIsFree(rows: Table, s: Table, t: TreeType, pr: int, f: int -> int, j: Id)
    requires RenumberedBy(rows, s, t, f) && NoHalfBounds(rows, t)
    requires forall k :: f(k) == GapAt(pr, k)
    requires IsNode(s, t, j)
    ensures s[j].lft.value != pr && s[j].lft.value != pr + 1
    ensures s[j].rgt.value != pr && s[j].rgt.value != pr + 1
  {
    RenumberedNodes(rows, s, t, f);
    assert IsNode(rows, t, j);
    var a, b := rows[j].lft.value, rows[j].rgt.value;
    assert s[j].lft.value == f(a) == GapAt(pr, a);
    assert s[j].rgt.value == f(b) == GapAt(pr, b);
  }

  /** `placed` is `s` with row `id` made the leaf `(pr, pr + 1)` under `p`, where the gap
      `pr, pr + 1` is free and `p` now ends right after it. */
  ghost predicate InsertsLeaf(s: Table, placed: Table, t: TreeType, id: Id, p: Id, leaf: IndexRow) {
    id in s && !IsNode(s, t, id) && id != p && IsNode(s, t, p) && placed == s[id := leaf]
    && leaf.treeType == t && leaf.parent == Some(p) && leaf.lft.Some? && leaf.rgt.Some?
    && 1 <= leaf.lft.value && leaf.rgt.value == leaf.lft.value + 1
    && s[p].lft.value < leaf.lft.value && s[p].rgt.value == leaf.lft.value + 2
    && (forall j :: IsNode(s, t, j) ==>
          s[j].lft.value != leaf.lft.value && s[j].lft.value != leaf.rgt.value
          && s[j].rgt.value != leaf.lft.value && s[j].rgt.value != leaf.rgt.value)
  }

  lemma InsertedLeafNodes(s: Table, placed: Table, t: TreeType, id: Id, p: Id, leaf: IndexRow)
    requires InsertsLeaf(s, placed, t, id, p, leaf)
    ensures forall j :: IsNode(placed, t, j) <==> j == id || IsNode(s, t, j)
  {
  }

  lemma InsertedLeafOrdered(s: Table, placed: Table, t: TreeType, id: Id, p: Id, leaf: IndexRow)
    requires Ordered(s, t) && InsertsLeaf(s, placed, t, id, p, leaf)
    ensures Ordered(placed, t)
  {
    forall j | IsNode(placed, t, j) ensures 1 <= placed[j].lft.value < placed[j].rgt.value {
      if j != id { assert IsNode(s, t, j); }
    }
  }

  lemma InsertedLeafLaminar(s: Table, placed: Table, t: TreeType, id: Id, p: Id, leaf: IndexRow)
    requires Ordered(s, t) && Laminar(s, t) && InsertsLeaf(s, placed, t, id, p, leaf)
    ensures Laminar(placed, t)
  {
    InsertedLeafNodes(s, placed, t, id, p, leaf);
    forall i, j | IsNode(placed, t, i) && IsNode(placed, t, j) && i != j
      ensures Apart(placed[i], placed[j]) || Within(placed[i], placed[j]) || Within(placed[j], placed[i])
    {
      if i != id && j != id {
        assert IsNode(s, t, i) && IsNode(s, t, j);
      } else if i == id {
        assert IsNode(s, t, j);
      } else {
        assert IsNode(s, t, i);
      }
    }
  }

  lemma InsertedLeafParents(s: Table, placed: Table, t: TreeType, id: Id, p: Id, leaf: IndexRow)
    requires ParentsEnclose(s, t) && InsertsLeaf(s, placed, t, id, p, leaf)
    ensures ParentsEnclose(placed, t)
  {
    forall j: Id | IsNode(placed, t, j) && placed[j].parent.Some?
      ensures IsNode(placed, t, placed[j].parent.value) && Within(placed[j], placed[placed[j].parent.value])
    {
      if j != id {
        assert IsNode(s, t, j);
        var q := s[j].parent.value;
        assert IsNode(s, t, q) && q != id;
      }
    }
  }

  /** The older children of `p` end before the free gap, so the new last child is apart from
      each of them; every other node keeps its siblings. */
  lemma InsertedLeafSiblings(s: Table, placed: Table, t: TreeType, id: Id, p: Id, leaf: IndexRow)
    requires ParentsEnclose(s, t) && SiblingsApart(s, t) && InsertsLeaf(s, placed, t, id, p, leaf)
    ensures SiblingsApart(placed, t)
  {
    forall i: Id, j: Id | IsNode(placed, t, i) && IsNode(placed, t, j) && i != j
        && placed[i].parent.Some? && placed[i].parent == placed[j].parent
      ensures Apart(placed[i], placed[j])
    {
      if i == id {
        assert IsNode(s, t, j) && Within(s[j], s[p]);
      } else if j == id {
        assert IsNode(s, t, i) && Within(s[i], s[p]);
      } else {
        assert IsNode(s, t, i) && IsNode(s, t, j);
      }
    }
  }

  lemma InsertedLeafNesting(s: Table, placed: Table, t: TreeType, id: Id, p: Id, leaf: IndexRow)
    requires Nesting(s, t) && InsertsLeaf(s, placed, t, id, p, leaf)
    ensures Nesting(placed, t)
  {
    InsertedLeafOrdered(s, placed, t, id, p, leaf);
    InsertedLeafLaminar(s, placed, t, id, p, leaf);
    InsertedLeafParents(s, placed, t, id, p, leaf);
    InsertedLeafSiblings(s, placed, t, id, p, leaf);
  }

  /** The labels of the table after the gap opened, with the leaf in it, are dense. */
  lemma InsertedLeafDense(rows: Table, s: Table, placed: Table, t: TreeType, id: Id, p: Id,
                          leaf: IndexRow, f: int -> int)
    requires NestedSet(rows, t) && IsNode(rows, t, p) && RenumberedBy(rows, s, t, f)
    requires forall k :: f(k) == GapAt(rows[p].rgt.value, k)
    requires InsertsLeaf(s, placed, t, id, p, leaf) && leaf.lft == rows[p].rgt
    ensures Dense(placed, t)
  {
    forall i, k | IsNode(placed, t, i) && 1 <= k <= placed[i].rgt.value ensures IsLabel(placed, t, k) {
      InsertedLeafLabel(rows, s, placed, t, id, p, leaf, f, i, k);
    }
  }

  /** One label up to a node's right bound after the leaf insert: the leaf's own two, an old
      label below the gap, or an old label shifted by two. */
  lemma InsertedLeafLabel(rows: Table, s: Table, placed: Table, t: TreeType, id: Id, p: Id,
                          leaf: IndexRow, f: int -> int, i: Id, k: int)
    requires NestedSet(rows, t) && IsNode(rows, t, p) && RenumberedBy(rows, s, t, f)
    requires forall k :: f(k) == GapAt(rows[p].rgt.value, k)
    requires InsertsLeaf(s, placed, t, id, p, leaf) && leaf.lft == rows[p].rgt
    requires IsNode(placed, t, i) && 1 <= k <= placed[i].rgt.value
    ensures IsLabel(placed, t, k)
  {
    var pr := rows[p].rgt.value;
    if k == pr || k == pr + 1 {
      assert IsNode(placed, t, id);
    } else if k < pr {
      LeafLabelBelow(rows, s, placed, t, id, p, leaf, f, k);
    } else {
      LeafLabelAbove(rows, s, placed, t, id, p, leaf, f, i, k);
    }
  }

  /** A label below the gap was a label before the insert and is not moved. */
  lemma LeafLabelBelow(rows: Table, s: Table, placed: Table, t: TreeType, id: Id, p: Id,
                       leaf: IndexRow, f: int -> int, k: int)
    requires Dense(rows, t) && IsNode(rows, t, p) && RenumberedBy(rows, s, t, f)
    requires forall k :: f(k) == GapAt(rows[p].rgt.value, k)
    requires InsertsLeaf(s, placed, t, id, p, leaf)
    requires 1 <= k < rows[p].rgt.value
    ensures IsLabel(placed, t, k)
  {
    assert IsLabel(rows, t, k);
    RenumberedLabel(rows, s, t, f, k);
    LabelElsewhere(s, placed, t, id, k);
  }

  /** A label above the gap, up to an old node's right bound, is an old label moved up by two. */
  lemma LeafLabelAbove(rows: Table, s: Table, placed: Table, t: TreeType, id: Id, p: Id,
                       leaf: IndexRow, f: int -> int, i: Id, k: int)
    requires Dense(rows, t) && NoHalfBounds(rows, t) && IsNode(rows, t, p) && RenumberedBy(rows, s, t, f)
    requires forall k :: f(k) == GapAt(rows[p].rgt.value, k)
    requires InsertsLeaf(s, placed, t, id, p, leaf) && leaf.lft == rows[p].rgt
    requires IsNode(placed, t, i) && rows[p].rgt.value + 1 < k <= placed[i].rgt.value
    ensures IsLabel(placed, t, k)
  {
    RenumberedNodes(rows, s, t, f);
    assert i != id && IsNode(rows, t, i);
    assert IsLabel(rows, t, k - 2);
    RenumberedLabel(rows, s, t, f, k - 2);
    LabelElsewhere(s, placed, t, id, k);
  }

  /** The new leaf `(pr, pr + 1)` under `p`, with `pr` the parent's right bound. */
  ghost function LastChild(rows: Table, s: Table, id: Id, p: Id): IndexRow
    requires id in rows && p in rows && rows[p].rgt.Some? && id in s
  {
    s[id].(lft := Some(rows[p].rgt.value), rgt := Some(rows[p].rgt.value + 1), parent := Some(p))
  }

  /** The table after the insert statement, with the new leaf in place, is a leaf insertion. */
  lemma AppendedChildInsertsLeaf(u: Table, t: TreeType, id: Id, p: Id, f: int -> int)
    requires NestedSet(u, t) && IsNode(u, t, p) && id in u && u[id].treeType == t
    requires u[id].lft.None? && u[id].rgt.None?
    requires forall k :: f(k) == GapAt(u[p].rgt.value, k)
    requires RenumberedBy(u, BeforeNodeInsert(u, t, u[p].rgt.value), t, f)
    ensures var s := BeforeNodeInsert(u, t, u[p].rgt.value);
            InsertsLeaf(s, s[id := LastChild(u, s, id, p)], t, id, p, LastChild(u, s, id, p))
  {
    var pr := u[p].rgt.value;
    var s := BeforeNodeInsert(u, t, pr);
    forall j | IsNode(s, t, j)
      ensures s[j].lft.value != pr && s[j].lft.value != pr + 1
      ensures s[j].rgt.value != pr && s[j].rgt.value != pr + 1
    {
      GapIsFree(u, s, t, pr, f, j);
    }
    assert 1 <= u[p].lft.value < pr;
    assert !IsNode(u, t, id);
  }

  /** Appending an unnumbered row of the type as the last child of a node keeps the invariant. */
  lemma AppendedChildIsNestedSet(u: Table, placed: Table, t: TreeType, id: Id, p: Id)
    requires NestedSet(u, t) && IsNode(u, t, p) && id in u && u[id].treeType == t
    requires u[id].lft.None? && u[id].rgt.None?
    requires placed == UpdateIndexes(BeforeNodeInsert(u, t, u[p].rgt.value), id, u[p].rgt.value,
                                     u[p].rgt.value + 1, Some(p))
    ensures NestedSet(placed, t)
  {
    var pr := u[p].rgt.value;
    var f := k => GapAt(pr, k);
    var s := BeforeNodeInsert(u, t, pr);
    GapRenumbers(u, t, p, f);
    AppendedChildInsertsLeaf(u, t, id, p, f);
    var leaf := LastChild(u, s, id, p);
    assert placed == s[id := leaf];
    RenumberKeepsNesting(u, s, t, f);
    InsertedLeafNesting(s, placed, t, id, p, leaf);
    InsertedLeafDense(u, s, placed, t, id, p, leaf, f);
  }

  // ---------------------------------------------------------------- the two ways to count a node in

  /** The table after a row without a parent is counted in as the new root: the type moves up
      by one and the row, as it was, is saved with `(1, n)`. */
  ghost function RootPlaced(rows: Table, id: Id): Table
    requires id in rows
  {
    var t := rows[id].treeType;
    var s := BeforeRootInsert(rows, t);
    s[id := rows[id].(lft := Some(1), rgt := Some(AddedRootRgt(s, t)))]
  }

  /** The table after row `id` is appended as the last child of `p`. */
  ghost function AppendedChild(rows: Table, id: Id, p: Id): Table
    requires id in rows && p in rows && rows[p].rgt.Some?
  {
    var pr := rows[p].rgt.value;
    UpdateIndexes(BeforeNodeInsert(rows, rows[id].treeType, pr), id, pr, pr + 1, Some(p))
  }

  /** A root counted in over an unnumbered row encloses every other node; a previous root
      re-parented under it keeps the invariant. */
  lemma RootPlacedKeepsNestedSet(rows: Table, id: Id)
    requires id in rows && rows[id].rgt.None? && rows[id].parent.None?
    requires NestedSet(Unnumbered(rows, id), rows[id].treeType)
    ensures var t, placed := rows[id].treeType, RootPlaced(rows, id);
            NestedSet(placed, t) && IsNode(placed, t, id) && placed[id].lft == Some(1)
            && (forall j :: IsNode(placed, t, j) && j != id ==> Within(placed[j], placed[id]))
            && (forall p :: p in FindPreviousRoots(placed, t, id) ==> NestedSet(UpdateParent(placed, p, Some(id)), t))
  {
    var t := rows[id].treeType;
    var s := BeforeRootInsert(rows, t);
    var root := rows[id].(lft := Some(1), rgt := Some(AddedRootRgt(s, t)));
    RootInsertKeepsNestedSet(rows, RootPlaced(rows, id), t, id, root);
  }

  /** What an append does to every node: the child gets `(pr, pr + 1)` under `p`, and every
      other node is renumbered through `GapAt(pr, _)`, so `p` now ends at `pr + 2`. */
  lemma AppendedChildBounds(u: Table, id: Id, p: Id)
    requires id in u && IsNode(u, u[id].treeType, p) && Nesting(u, u[id].treeType) && !IsNode(u, u[id].treeType, id)
    ensures var t, pr, placed := u[id].treeType, u[p].rgt.value, AppendedChild(u, id, p);
            placed.Keys == u.Keys
            && placed[id] == u[id].(lft := Some(pr), rgt := Some(pr + 1), parent := Some(p))
            && (forall j :: IsNode(u, t, j) ==>
                  IsNode(placed, t, j)
                  && placed[j].lft == Some(GapAt(pr, u[j].lft.value))
                  && placed[j].rgt == Some(GapAt(pr, u[j].rgt.value)))
            && placed[p].lft == u[p].lft && placed[p].rgt == Some(pr + 2)
  {
    var t, pr := u[id].treeType, u[p].rgt.value;
    var f := k => GapAt(pr, k);
    GapRenumbers(u, t, p, f);
    assert p != id;
    forall j | IsNode(u, t, j) ensures j != id {
    }
  }

  /** The parent and every node around it report one more descendant after an append. */
  lemma AppendedChildGrowsAncestors(u: Table, id: Id, p: Id, a: Id)
    requires id in u && u[id].lft.None? && u[id].rgt.None?
    requires NestedSet(u, u[id].treeType) && IsNode(u, u[id].treeType, p) && IsNode(u, u[id].treeType, a)
    requires u[a].lft.value < u[p].rgt.value <= u[a].rgt.value
    ensures var t, placed := u[id].treeType, AppendedChild(u, id, p);
            |FindAllChildren(placed, t, placed[a].lft, placed[a].rgt)|
              == |FindAllChildren(u, t, u[a].lft, u[a].rgt)| + 1
  {
    var t, placed := u[id].treeType, AppendedChild(u, id, p);
    AppendedChildIsNestedSet(u, placed, t, id, p);
    AppendedChildBounds(u, id, p);
    DescendantCount(u, t, a);
    DescendantCount(placed, t, a);
  }
}

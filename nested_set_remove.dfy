/**
 * Removing a subtree keeps the nested-set invariant. Whether the rows inside a node's
 * interval are deleted, or only have their bounds cleared so that they can be appended
 * again, the rows left numbered are those outside the interval; closing the gap then moves
 * every bound after the interval down by its width.
 */
module NestedSetRemove {
  import opened Wrappers
  import opened ForestIndexEntity
  import opened ForestIndexRepository
  import opened NestedSetInvariant

  /** Node `i` of `rows` lies outside the interval `l .. r` of the removed node. */
  ghost predicate Survives(rows: Table, t: TreeType, i: Id, l: int, r: int) {
    IsNode(rows, t, i) && !(l <= rows[i].lft.value <= r)
  }

  /**
   * `rows2` is what is left of `rows` once the subtree `l .. r` is taken out: no new keys or
   * tree types, every surviving node keeps its bounds and parent, and every other row of the
   * type has no bounds.
   */
  ghost predicate SubtreeRemoved(rows: Table, rows2: Table, t: TreeType, l: int, r: int) {
    rows2.Keys <= rows.Keys
    && (forall i :: i in rows2 ==> rows2[i].treeType == rows[i].treeType)
    && (forall i :: Survives(rows, t, i, l, r) ==>
          i in rows2 && rows2[i].lft == rows[i].lft && rows2[i].rgt == rows[i].rgt
          && rows2[i].parent == rows[i].parent)
    && (forall i :: i in rows2 && rows2[i].treeType == t && !Survives(rows, t, i, l, r) ==>
          rows2[i].lft.None? && rows2[i].rgt.None?)
  }

  /** A node whose left bound lies in the interval of node `x` lies inside it. */
  lemma RemovedInside(rows: Table, t: TreeType, x: Id, i: Id)
    requires Ordered(rows, t) && Laminar(rows, t) && IsNode(rows, t, x) && IsNode(rows, t, i)
    requires rows[x].lft.value <= rows[i].lft.value <= rows[x].rgt.value
    ensures rows[x].lft.value <= rows[i].lft.value && rows[i].rgt.value <= rows[x].rgt.value
  {
  }

  /** A surviving node has no label in the interval of node `x`. */
  lemma SurvivorOutside(rows: Table, t: TreeType, x: Id, i: Id)
    requires Ordered(rows, t) && Laminar(rows, t) && IsNode(rows, t, x)
    requires Survives(rows, t, i, rows[x].lft.value, rows[x].rgt.value)
    ensures !(rows[x].lft.value <= rows[i].lft.value <= rows[x].rgt.value)
    ensures !(rows[x].lft.value <= rows[i].rgt.value <= rows[x].rgt.value)
  {
    assert i != x;
    assert Apart(rows[i], rows[x]) || Within(rows[i], rows[x]) || Within(rows[x], rows[i]);
  }

  /** The parent of a surviving node survives. */
  lemma SurvivorParent(rows: Table, t: TreeType, x: Id, i: Id)
    requires Nesting(rows, t) && IsNode(rows, t, x)
    requires Survives(rows, t, i, rows[x].lft.value, rows[x].rgt.value) && rows[i].parent.Some?
    ensures Survives(rows, t, rows[i].parent.value, rows[x].lft.value, rows[x].rgt.value)
  {
    var q := rows[i].parent.value;
    assert IsNode(rows, t, q) && Within(rows[i], rows[q]);
    if rows[x].lft.value <= rows[q].lft.value <= rows[x].rgt.value {
      RemovedInside(rows, t, x, q);
      SurvivorOutside(rows, t, x, i);
      assert false;
    }
  }

  lemma RemovedNodes(rows: Table, rows2: Table, t: TreeType, x: Id)
    requires IsNode(rows, t, x) && SubtreeRemoved(rows, rows2, t, rows[x].lft.value, rows[x].rgt.value)
    ensures forall i :: IsNode(rows2, t, i) <==> Survives(rows, t, i, rows[x].lft.value, rows[x].rgt.value)
  {
    forall i | IsNode(rows2, t, i) ensures Survives(rows, t, i, rows[x].lft.value, rows[x].rgt.value) {
      assert rows[i].treeType == t;
    }
  }

  /** What is left after taking out a subtree keeps the structure of the invariant. */
  lemma RemovedNesting(rows: Table, rows2: Table, t: TreeType, x: Id)
    requires Nesting(rows, t) && IsNode(rows, t, x)
    requires SubtreeRemoved(rows, rows2, t, rows[x].lft.value, rows[x].rgt.value)
    ensures Nesting(rows2, t)
  {
    var l, r := rows[x].lft.value, rows[x].rgt.value;
    RemovedNodes(rows, rows2, t, x);
    forall i, j | IsNode(rows2, t, i) && IsNode(rows2, t, j) && i != j
      ensures Apart(rows2[i], rows2[j]) || Within(rows2[i], rows2[j]) || Within(rows2[j], rows2[i])
    {
      assert IsNode(rows, t, i) && IsNode(rows, t, j);
    }
    forall i: Id | IsNode(rows2, t, i) && rows2[i].parent.Some?
      ensures IsNode(rows2, t, rows2[i].parent.value) && Within(rows2[i], rows2[rows2[i].parent.value])
    {
      SurvivorParent(rows, t, x, i);
    }
    forall i: Id, j: Id | IsNode(rows2, t, i) && IsNode(rows2, t, j) && i != j
        && rows2[i].parent.Some? && rows2[i].parent == rows2[j].parent
      ensures Apart(rows2[i], rows2[j])
    {
      assert IsNode(rows, t, i) && IsNode(rows, t, j);
    }
    forall i | i in rows2 && rows2[i].treeType == t ensures (rows2[i].lft.Some? <==> rows2[i].rgt.Some?) {
      if Survives(rows, t, i, l, r) {
      }
    }
  }

  /** A bound after closing the gap of a subtree `l .. r`. */
  ghost function CloseGapAt(l: int, r: int, k: int): int {
    if k > l then k - (r - l + 1) else k
  }

  /** Closing the gap renumbers every node through `CloseGapAt`. */
  lemma AfterDeleteRenumbers(rows: Table, t: TreeType, l: int, r: int, f: int -> int)
    requires NoHalfBounds(rows, t)
    requires forall k :: f(k) == CloseGapAt(l, r, k)
    ensures RenumberedBy(rows, AfterDelete(rows, t, Some(l), Some(r)), t, f)
  {
    var u := AfterDelete(rows, t, Some(l), Some(r));
    forall i | i in rows
      ensures u[i].treeType == rows[i].treeType && u[i].parent == rows[i].parent
    {
      if rows[i].treeType == t {
        assert u[i] == rows[i].(lft := u[i].lft, rgt := u[i].rgt);
      }
    }
    forall i | IsNode(rows, t, i)
      ensures u[i].lft == Some(f(rows[i].lft.value)) && u[i].rgt == Some(f(rows[i].rgt.value))
    {
      assert u[i].lft == CloseGapBound(rows[i].lft, Some(l), Some(r));
      assert u[i].rgt == CloseGapBound(rows[i].rgt, Some(l), Some(r));
      assert f(rows[i].lft.value) == CloseGapAt(l, r, rows[i].lft.value);
      assert f(rows[i].rgt.value) == CloseGapAt(l, r, rows[i].rgt.value);
    }
    forall i | i in rows && rows[i].treeType == t && !IsIndexed(rows[i])
      ensures u[i].lft.None? && u[i].rgt.None?
    {
      assert rows[i].lft.None? && rows[i].rgt.None?;
    }
  }

  /** On the labels left after removing node `x`'s subtree, closing the gap keeps the order. */
  lemma GapCloses(rows: Table, rows2: Table, t: TreeType, x: Id, f: int -> int)
    requires Nesting(rows, t) && IsNode(rows, t, x)
    requires SubtreeRemoved(rows, rows2, t, rows[x].lft.value, rows[x].rgt.value)
    requires forall k :: f(k) == CloseGapAt(rows[x].lft.value, rows[x].rgt.value, k)
    ensures IncreasingOnLabels(rows2, t, f)
  {
    var l, r := rows[x].lft.value, rows[x].rgt.value;
    forall a | IsLabel(rows2, t, a) ensures (a < l || a > r) && 1 <= f(a) {
      var m :| IsNode(rows2, t, m) && (rows2[m].lft.value == a || rows2[m].rgt.value == a);
      assert rows[m].treeType == t;
      SurvivorOutside(rows, t, x, m);
    }
  }

  /** Every label of the removed subtree's complement comes from a survivor. */
  lemma SurvivingLabel(rows: Table, rows2: Table, t: TreeType, x: Id, k: int)
    requires Nesting(rows, t) && IsNode(rows, t, x)
    requires SubtreeRemoved(rows, rows2, t, rows[x].lft.value, rows[x].rgt.value)
    requires IsLabel(rows, t, k) && !(rows[x].lft.value <= k <= rows[x].rgt.value)
    ensures IsLabel(rows2, t, k)
  {
    var m :| IsNode(rows, t, m) && (rows[m].lft.value == k || rows[m].rgt.value == k);
    if rows[x].lft.value <= rows[m].lft.value <= rows[x].rgt.value {
      RemovedInside(rows, t, x, m);
    }
    assert Survives(rows, t, m, rows[x].lft.value, rows[x].rgt.value);
    assert IsNode(rows2, t, m);
  }

  lemma RemovedDense(rows: Table, rows2: Table, t: TreeType, x: Id, f: int -> int)
    requires NestedSet(rows, t) && IsNode(rows, t, x)
    requires SubtreeRemoved(rows, rows2, t, rows[x].lft.value, rows[x].rgt.value)
    requires forall k :: f(k) == CloseGapAt(rows[x].lft.value, rows[x].rgt.value, k)
    requires RenumberedBy(rows2, AfterDelete(rows2, t, rows[x].lft, rows[x].rgt), t, f)
    ensures Dense(AfterDelete(rows2, t, rows[x].lft, rows[x].rgt), t)
  {
    var l, r := rows[x].lft.value, rows[x].rgt.value;
    var rows3 := AfterDelete(rows2, t, rows[x].lft, rows[x].rgt);
    RemovedNesting(rows, rows2, t, x);
    RemovedNodes(rows, rows2, t, x);
    RenumberedNodes(rows2, rows3, t, f);
    forall i, k | IsNode(rows3, t, i) && 1 <= k <= rows3[i].rgt.value ensures IsLabel(rows3, t, k) {
      assert IsNode(rows2, t, i);
      SurvivorOutside(rows, t, x, i);
      var b := rows[i].rgt.value;
      assert rows3[i].rgt.value == f(b);
      if k < l {
        SurvivingLabel(rows, rows2, t, x, k);
        RenumberedLabel(rows2, rows3, t, f, k);
      } else {
        var k2 := k + (r - l + 1);
        assert k2 <= b;
        SurvivingLabel(rows, rows2, t, x, k2);
        RenumberedLabel(rows2, rows3, t, f, k2);
      }
    }
  }

  /** Taking a subtree out and closing its gap keeps the invariant. */
  lemma RemoveSubtreeKeepsNestedSet(rows: Table, rows2: Table, t: TreeType, x: Id)
    requires NestedSet(rows, t) && IsNode(rows, t, x)
    requires SubtreeRemoved(rows, rows2, t, rows[x].lft.value, rows[x].rgt.value)
    ensures NestedSet(AfterDelete(rows2, t, rows[x].lft, rows[x].rgt), t)
  {
    var l, r := rows[x].lft.value, rows[x].rgt.value;
    var f := k => CloseGapAt(l, r, k);
    RemovedNesting(rows, rows2, t, x);
    AfterDeleteRenumbers(rows2, t, l, r, f);
    GapCloses(rows, rows2, t, x, f);
    RenumberKeepsNesting(rows2, AfterDelete(rows2, t, rows[x].lft, rows[x].rgt), t, f);
    RemovedDense(rows, rows2, t, x, f);
  }

  // ---------------------------------------------------------------- the two ways to take a subtree out

  /** Only node `x` starts at one of `x`'s bounds. */
  lemma OnlyXAtBounds(rows: Table, t: TreeType, x: Id, i: Id)
    requires Ordered(rows, t) && Laminar(rows, t) && IsNode(rows, t, x) && IsNode(rows, t, i) && i != x
    ensures rows[i].lft.value != rows[x].lft.value && rows[i].lft.value != rows[x].rgt.value
  {
  }

  /** Deleting node `x`'s interval takes out `x` and exactly the rows `findAllChildren`
      returns for it. */
  lemma DeleteTakesSubtree(rows: Table, t: TreeType, x: Id)
    requires Nesting(rows, t) && IsNode(rows, t, x)
    ensures Delete(rows, t, rows[x].lft, rows[x].rgt).Keys
              == rows.Keys - ({x} + FindAllChildren(rows, t, rows[x].lft, rows[x].rgt))
    ensures SubtreeRemoved(rows, Delete(rows, t, rows[x].lft, rows[x].rgt), t, rows[x].lft.value, rows[x].rgt.value)
  {
    var d := Delete(rows, t, rows[x].lft, rows[x].rgt);
    var kids := FindAllChildren(rows, t, rows[x].lft, rows[x].rgt);
    forall i | i in rows ensures (i in d <==> i !in {x} + kids) {
      if i != x && IsNode(rows, t, i) {
        OnlyXAtBounds(rows, t, x, i);
      }
    }
  }

  /** Deleting a subtree without closing the gap keeps the structure, not the density. */
  lemma DeleteKeepsNesting(rows: Table, t: TreeType, x: Id)
    requires Nesting(rows, t) && IsNode(rows, t, x)
    ensures Nesting(Delete(rows, t, rows[x].lft, rows[x].rgt), t)
  {
    DeleteTakesSubtree(rows, t, x);
    RemovedNesting(rows, Delete(rows, t, rows[x].lft, rows[x].rgt), t, x);
  }

  /** Deleting a subtree and closing the gap keeps the invariant. */
  lemma DeleteKeepsNestedSet(rows: Table, t: TreeType, x: Id)
    requires NestedSet(rows, t) && IsNode(rows, t, x)
    ensures NestedSet(AfterDelete(Delete(rows, t, rows[x].lft, rows[x].rgt), t, rows[x].lft, rows[x].rgt), t)
  {
    DeleteTakesSubtree(rows, t, x);
    RemoveSubtreeKeepsNestedSet(rows, Delete(rows, t, rows[x].lft, rows[x].rgt), t, x);
  }

  /**
   * A move: row `x` is saved without bounds (and with its new parent), then the rows strictly
   * inside its old interval lose their bounds. What is left is `rows` with `x`'s subtree
   * taken out.
   */
  lemma MoveClearsSubtree(rows: Table, t: TreeType, x: Id, moved: IndexRow)
    requires Nesting(rows, t) && IsNode(rows, t, x)
    requires moved.treeType == t && moved.lft.None? && moved.rgt.None?
    ensures SubtreeRemoved(rows, ClearRange(rows[x := moved], t, rows[x].lft.value + 1, rows[x].rgt.value - 1),
                           t, rows[x].lft.value, rows[x].rgt.value)
  {
    var l, r := rows[x].lft.value, rows[x].rgt.value;
    var c := ClearRange(rows[x := moved], t, l + 1, r - 1);
    MoveKeepsTypes(rows, t, x, moved);
    MoveKeepsSurvivors(rows, t, x, moved);
    MoveClearsOthers(rows, t, x, moved);
  }

  /** A move changes no row's tree type. */
  lemma MoveKeepsTypes(rows: Table, t: TreeType, x: Id, moved: IndexRow)
    requires IsNode(rows, t, x) && moved.treeType == t
    ensures var c := ClearRange(rows[x := moved], t, rows[x].lft.value + 1, rows[x].rgt.value - 1);
            c.Keys == rows.Keys && forall i :: i in c ==> c[i].treeType == rows[i].treeType
  {
    var m := rows[x := moved];
    var c := ClearRange(m, t, rows[x].lft.value + 1, rows[x].rgt.value - 1);
    forall i | i in c
      ensures c[i].treeType == rows[i].treeType
    {
      assert c[i] == m[i] || c[i] == ClearRow(m[i]);
    }
  }

  /** A move leaves the nodes outside `x`'s interval as they were. */
  lemma MoveKeepsSurvivors(rows: Table, t: TreeType, x: Id, moved: IndexRow)
    requires Ordered(rows, t) && IsNode(rows, t, x)
    ensures var l, r := rows[x].lft.value, rows[x].rgt.value;
            var c := ClearRange(rows[x := moved], t, l + 1, r - 1);
            forall i :: Survives(rows, t, i, l, r) ==> i in c && c[i] == rows[i]
  {
    var l, r := rows[x].lft.value, rows[x].rgt.value;
    var m := rows[x := moved];
    var c := ClearRange(m, t, l + 1, r - 1);
    forall i | Survives(rows, t, i, l, r)
      ensures i in c && c[i] == rows[i]
    {
      assert i != x && m[i] == rows[i];
      assert !LftBetween(m[i], t, Some(l + 1), Some(r - 1));
    }
  }

  /** A move leaves no bound on `x` nor on the rows of the type inside its interval. */
  lemma MoveClearsOthers(rows: Table, t: TreeType, x: Id, moved: IndexRow)
    requires Ordered(rows, t) && Laminar(rows, t) && NoHalfBounds(rows, t) && IsNode(rows, t, x)
    requires moved.lft.None? && moved.rgt.None?
    ensures var l, r := rows[x].lft.value, rows[x].rgt.value;
            var c := ClearRange(rows[x := moved], t, l + 1, r - 1);
            forall i :: i in c && c[i].treeType == t && !Survives(rows, t, i, l, r) ==>
              c[i].lft.None? && c[i].rgt.None?
  {
    var l, r := rows[x].lft.value, rows[x].rgt.value;
    var m := rows[x := moved];
    var c := ClearRange(m, t, l + 1, r - 1);
    forall i | i in c && c[i].treeType == t && !Survives(rows, t, i, l, r)
      ensures c[i].lft.None? && c[i].rgt.None?
    {
      if i == x {
        assert c[i] == moved;
      } else if IsNode(rows, t, i) {
        OnlyXAtBounds(rows, t, x, i);
        assert LftBetween(m[i], t, Some(l + 1), Some(r - 1));
      } else {
        assert c[i] == rows[i] || c[i] == ClearRow(rows[i]);
      }
    }
  }

  /** A move takes the subtree out and closes its gap; the invariant is kept. */
  lemma MoveKeepsNestedSet(rows: Table, t: TreeType, x: Id, moved: IndexRow)
    requires NestedSet(rows, t) && IsNode(rows, t, x)
    requires moved.treeType == t && moved.lft.None? && moved.rgt.None?
    ensures NestedSet(AfterDelete(ClearRange(rows[x := moved], t, rows[x].lft.value + 1, rows[x].rgt.value - 1),
                                  t, rows[x].lft, rows[x].rgt), t)
  {
    MoveClearsSubtree(rows, t, x, moved);
    RemoveSubtreeKeepsNestedSet(rows, ClearRange(rows[x := moved], t, rows[x].lft.value + 1, rows[x].rgt.value - 1), t, x);
  }

  /**
   * A node that held the removed subtree loses exactly its rows: the subtree's root and
   * its descendants.
   */
  lemma AncestorLosesSubtree(rows: Table, rows2: Table, t: TreeType, x: Id, a: Id)
    requires NestedSet(rows, t) && IsNode(rows, t, x) && IsNode(rows, t, a) && Within(rows[x], rows[a])
    requires SubtreeRemoved(rows, rows2, t, rows[x].lft.value, rows[x].rgt.value)
    ensures var rows3 := AfterDelete(rows2, t, rows[x].lft, rows[x].rgt);
            IsNode(rows3, t, a)
            && |FindAllChildren(rows3, t, rows3[a].lft, rows3[a].rgt)|
               == |FindAllChildren(rows, t, rows[a].lft, rows[a].rgt)|
                  - |FindAllChildren(rows, t, rows[x].lft, rows[x].rgt)| - 1
  {
    var rows3 := AfterDelete(rows2, t, rows[x].lft, rows[x].rgt);
    RemoveSubtreeKeepsNestedSet(rows, rows2, t, x);
    assert Survives(rows, t, a, rows[x].lft.value, rows[x].rgt.value);
    assert IsNode(rows3, t, a);
    DescendantCount(rows, t, a);
    DescendantCount(rows, t, x);
    DescendantCount(rows3, t, a);
  }
}

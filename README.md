# Forest index: a verified model of the nested-set engine

The forest index keeps a nested-set index next to an application's own tree of contents.
Each content owns one index row. The row carries the row-level parent, the tree type, the
content's identifier and two bounds, `lft` and `rgt`. Within one tree type the bounds form
a nested set:
- every node's interval lies inside its parent's interval;
- two children of the same parent have disjoint intervals;
- the labels `1 .. rgt` of the root are all used.

As a result, the rows whose `lft` lies strictly inside a node's interval number
`(rgt - lft) / 2`. When the type has a single root, these rows are exactly the node's
descendants by parent links.

This project models the core of that engine:
- the repository's queries and bulk statements, as functions over the table of rows;
- the index entity, as a class with its setters, its tree-type default, its descendant
  count and its key-based equality;
- the index service, as a class over the mutable table. It covers `countIndex`,
  `recountIndexes`, `saveNode` with its move path, `rebuild`, `deleteNode`, `dropIndex`,
  `dropIndexes`, `clearIndexes` and `index(content)`;
- the content service: `rebuildIndexes` with its recursive walk over content children, and
  the `createIndex`/`updateIndex`/`deleteIndex` delegation.

Modelling choices:
- **The table.** It is `map<Id, IndexRow>`, and a bound is `Option<int>`.
- **SQL null semantics.** These are written out. Arithmetic on a null bound gives null, and a
  comparison with null never holds.
- **A failing public operation.** It returns `Err` instead of throwing. When the source runs
  the operation in a transaction, the model restores the table. The key generator
  (`nextId`) is not rolled back.
- **Contents.** They are a map from content identifier to its parent and tree type. A
  content's index is the row whose `content_id` names it, which is how the content entity
  maps it.

The invariant is `NestedSetInvariant.NestedSet(rows, t)`, made of six parts:
- `Ordered`: `1 <= lft < rgt` for every node;
- `Laminar`: two intervals are disjoint or nested;
- `ParentsEnclose`: a child's interval lies strictly inside its parent's;
- `SiblingsApart`: two nodes with the same parent have disjoint intervals;
- `NoHalfBounds`: a row has both bounds or neither;
- `Dense`: every label up to a node's `rgt` is in use.

From it follow the descendant-count law (`rgt - lft == 2 * |findAllChildren| + 1`) and the
leaf law (`rgt == lft + 1`). `rebuild`, `clearIndexes`, `dropIndexes` are proved to establish
the invariant; `deleteNode`, `dropIndex`, `saveNode` and `index` are proved to keep it, under
the conditions the "## Left out" lines below name. After `rebuildIndexes` over a typed
content forest, the type has one parentless row (the synthetic root) and each content's row
has `rgt - lft` equal to twice the number of its content descendants plus one. `index` in a
typed forest leaves every other tree type's rows as they were.

## Model

| member | source | states |
|---|---|---|
| ForestIndexEntity.TreeTypeOrDefault | src/main/java/eu/bcvsolutions/forest/index/entity/AbstractForestIndex.java:59-62 | a null tree type becomes "default"; any other is kept |
| ForestIndexEntity.ChildrenCount | src/main/java/eu/bcvsolutions/forest/index/entity/AbstractForestIndex.java:114-120 | 0 when either bound is null; otherwise n with `2n <= rgt - lft <= 2n + 1` (Java long division, then the int cast), and always inside the int range |
| ForestIndexEntity.LongHashCode | src/main/java/eu/bcvsolutions/forest/index/entity/AbstractForestIndex.java:125-130 | `Long.hashCode`: an int, equal to the value itself for values in `0 .. 2^31 - 1` |
| ForestIndexEntity.IdHashCode | src/main/java/eu/bcvsolutions/forest/index/entity/AbstractForestIndex.java:125-130 | the builder's hash of the id: `17 * 37` for a null id, `17 * 37 + id` for a small id, always an int |
| ForestIndexEntity.ForestIndex.constructor | src/main/java/eu/bcvsolutions/forest/index/entity/AbstractForestIndex.java:56-57 | every field null except the tree type, which starts as "default" |
| ForestIndexEntity.ForestIndex.WithParent | src/main/java/eu/bcvsolutions/forest/index/entity/AbstractForestIndex.java:59-62 | the given parent; the tree type given, or "default" when it is null; no id and no bounds |
| ForestIndexEntity.ForestIndex.SetId | src/main/java/eu/bcvsolutions/forest/index/entity/AbstractForestIndex.java:69-71 | the id becomes the argument; every other field is unchanged |
| ForestIndexEntity.ForestIndex.SetParent | src/main/java/eu/bcvsolutions/forest/index/entity/AbstractForestIndex.java:77-79 | the parent becomes the argument; every other field is unchanged |
| ForestIndexEntity.ForestIndex.SetLft | src/main/java/eu/bcvsolutions/forest/index/entity/AbstractForestIndex.java:86-89 | lft becomes the argument; every other field is unchanged |
| ForestIndexEntity.ForestIndex.SetRgt | src/main/java/eu/bcvsolutions/forest/index/entity/AbstractForestIndex.java:96-99 | rgt becomes the argument; every other field is unchanged |
| ForestIndexEntity.ForestIndex.SetForestTreeType | src/main/java/eu/bcvsolutions/forest/index/entity/AbstractForestIndex.java:109-112 | the tree type becomes the argument, null included; every other field is unchanged |
| ForestIndexEntity.ForestIndex.SetContentId | src/test/java/eu/bcvsolutions/forest/index/entity/ForestIndexEntity.java:39-42 | the content id becomes the argument; every other field is unchanged |
| ForestIndexEntity.ForestIndex.GetForestTreeType | src/main/java/eu/bcvsolutions/forest/index/entity/AbstractForestIndex.java:101-107 | returns the tree type, or "default" when the field is null, and writes that value back to the field |
| ForestIndexEntity.ForestIndex.GetChildrenCount | src/main/java/eu/bcvsolutions/forest/index/entity/AbstractForestIndex.java:114-120 | 0 when lft or rgt is null; otherwise half the width, rounded down |
| ForestIndexEntity.ForestIndex.HashCode | src/main/java/eu/bcvsolutions/forest/index/entity/AbstractForestIndex.java:125-130 | `17 * 37` for an unsaved entity (null id) |
| ForestIndexEntity.ForestIndex.Equals | src/main/java/eu/bcvsolutions/forest/index/entity/AbstractForestIndex.java:135-144 | true iff the other object is a forest index with the same id (never for null); equal entities have equal hashes |
| ForestIndexRepository.FindRoots | src/main/java/eu/bcvsolutions/forest/index/repository/ForestIndexRepository.java:25-26 | the keys of rows without a parent of the tree type; all are stored keys |
| ForestIndexRepository.FindPreviousRoots | src/main/java/eu/bcvsolutions/forest/index/repository/ForestIndexRepository.java:31-32 | the roots of the type except the row given |
| ForestIndexRepository.FindParentId | src/main/java/eu/bcvsolutions/forest/index/repository/ForestIndexRepository.java:34-35 | the stored parent of the row; null for a missing row |
| ForestIndexRepository.FindDirectChildren | src/main/java/eu/bcvsolutions/forest/index/repository/ForestIndexRepository.java:43-44 | rows whose parent is the given row and whose type is the caller's; the row itself is among them only if it is its own parent |
| ForestIndexRepository.FindAllChildren | src/main/java/eu/bcvsolutions/forest/index/repository/ForestIndexRepository.java:53-54 | rows of the type with lft in `lft+1 .. rgt-1`; nothing when either bound is null |
| ForestIndexRepository.FindByContentId | src/test/java/eu/bcvsolutions/forest/index/entity/NodeContent.java:48-52 | the rows whose content id is the content, all of them stored |
| ForestIndexRepository.SingleResult | src/main/java/eu/bcvsolutions/forest/index/repository/ForestIndexRepository.java:25-26 | a single-result query: no match gives null (iff); several matches give NonUniqueResult (iff); one match gives that row |
| ForestIndexRepository.Max | src/main/java/eu/bcvsolutions/forest/index/repository/ForestIndexRepository.java:75-76 | the `max` aggregate: a member of the set, at least every member |
| ForestIndexRepository.AddedRootRgt | src/main/java/eu/bcvsolutions/forest/index/repository/ForestIndexRepository.java:75-76 | `coalesce(max(rgt), 1) + 1`: above every non-null rgt of the type, and either one above some rgt or 2 when the type has none |
| ForestIndexRepository.DropIndexes | src/main/java/eu/bcvsolutions/forest/index/repository/ForestIndexRepository.java:59-61 | removes the rows of the type, exactly; keeps the other rows unchanged |
| ForestIndexRepository.ClearIndexes | src/main/java/eu/bcvsolutions/forest/index/repository/ForestIndexRepository.java:63-65 | nulls both bounds of every row of the type; keeps every key and every other row |
| ForestIndexRepository.ClearRange | src/main/java/eu/bcvsolutions/forest/index/repository/ForestIndexRepository.java:71-73 | nulls both bounds exactly on the rows of the type with lft in `lft .. rgt`; nothing else changes |
| ForestIndexRepository.Delete | src/main/java/eu/bcvsolutions/forest/index/repository/ForestIndexRepository.java:117-119 | removes exactly the rows of the type with lft in `lft .. rgt`; deletes nothing when a bound is null |
| ForestIndexRepository.BeforeRootInsert | src/main/java/eu/bcvsolutions/forest/index/repository/ForestIndexRepository.java:78-80 | both bounds of every row of the type go up by one, nulls stay null; other types unchanged |
| ForestIndexRepository.BeforeNodeInsert | src/main/java/eu/bcvsolutions/forest/index/repository/ForestIndexRepository.java:104-109 | only the rows of the type with `rgt >= P` change: rgt gains 2, and lft gains 2 when it is above P |
| ForestIndexRepository.CloseGapBound | src/main/java/eu/bcvsolutions/forest/index/repository/ForestIndexRepository.java:128-130 | a bound above L loses the width `R - L + 1`, or becomes null when R is null; other bounds stay |
| ForestIndexRepository.AfterDelete | src/main/java/eu/bcvsolutions/forest/index/repository/ForestIndexRepository.java:127-132 | applies that rule to both bounds of every row of the type; keys and other types unchanged |
| ForestIndexRepository.UpdateIndexes | src/main/java/eu/bcvsolutions/forest/index/repository/ForestIndexRepository.java:90-92 | writes the bounds and the parent of one row by key; every other row unchanged |
| ForestIndexRepository.UpdateParent | src/main/java/eu/bcvsolutions/forest/index/repository/ForestIndexRepository.java:100-102 | writes the parent of one row by key; every other row unchanged |
| NestedSetInvariant.DescendantCount | src/main/java/eu/bcvsolutions/forest/index/repository/ForestIndexRepository.java:53-54 | under the invariant, `rgt - lft == 2 * |findAllChildren| + 1` for every node |
| NestedSetInvariant.ChildrenCountIsDescendants | src/main/java/eu/bcvsolutions/forest/index/entity/AbstractForestIndex.java:114-120 | under the invariant, `getChildrenCount` equals the number of rows `findAllChildren` returns |
| NestedSetInvariant.LeafBounds | src/main/java/eu/bcvsolutions/forest/index/repository/ForestIndexRepository.java:53-54 | under the invariant, a node has no descendants iff `rgt == lft + 1` |
| NestedSetInvariant.InsideIsWithin | src/main/java/eu/bcvsolutions/forest/index/repository/ForestIndexRepository.java:53-54 | every row the interval query returns is another node whose interval lies inside |
| NestedSetInvariant.OnlyRootHoldsAll | src/main/java/eu/bcvsolutions/forest/index/service/impl/AbstractForestIndexService.java:55-59 | with a single root, its descendants are all other nodes and its width is `2(n - 1) + 1` |
| NestedSetInvariant.DescendsInside | src/main/java/eu/bcvsolutions/forest/index/repository/ForestIndexRepository.java:53-54 | a node reached from `j` by parent links has `j`'s interval strictly inside its own, so `findAllChildren` returns `j` |
| NestedSetInvariant.InsideDescends | src/main/java/eu/bcvsolutions/forest/index/repository/ForestIndexRepository.java:53-54 | with a single root, a node strictly inside `x` reaches `x` by parent links |
| NestedSetInvariant.DescendantsByLink | src/main/java/eu/bcvsolutions/forest/index/entity/AbstractForestIndex.java:114-120 | with a single root, `findAllChildren` of a node is exactly its set of descendants by parent links, and `rgt - lft` is twice their number plus one |
| NestedSetInvariant.NoNodesIsNestedSet | src/main/java/eu/bcvsolutions/forest/index/service/impl/AbstractForestIndexService.java:52-53 | a type whose rows have no bounds satisfies the invariant |
| NestedSetInvariant.ClearedIsNestedSet | src/main/java/eu/bcvsolutions/forest/index/repository/ForestIndexRepository.java:63-65 | after clearing a type, the invariant holds for it |
| NestedSetInvariant.DroppedIsNestedSet | src/main/java/eu/bcvsolutions/forest/index/repository/ForestIndexRepository.java:59-61 | after dropping a type, the invariant holds for it |
| NestedSetInvariant.RenumberKeepsNesting | src/main/java/eu/bcvsolutions/forest/index/repository/ForestIndexRepository.java:104-109 | relabelling every node by a map that is increasing and positive on the labels in use keeps nesting and the set of nodes |
| NestedSetInvariant.RenumberKeepsSiblings | src/main/java/eu/bcvsolutions/forest/index/repository/ForestIndexRepository.java:104-109 | such a relabelling keeps two children of one parent apart |
| NestedSetInvariant.SameShapeKeeps | src/main/java/eu/bcvsolutions/forest/index/service/impl/AbstractForestIndexService.java:97 | rewriting rows with the same bounds, types and parents keeps the invariant |
| NestedSetInvariant.ReplaceUnbounded | src/main/java/eu/bcvsolutions/forest/index/service/impl/AbstractForestIndexService.java:97 | saving a row without bounds over a row that is not a node keeps the invariant |
| NestedSetInvariant.ReplaceKeepingShape | src/main/java/eu/bcvsolutions/forest/index/service/impl/AbstractForestIndexService.java:97 | saving a row with its stored type, bounds and parent keeps the invariant |
| NestedSetInvariant.UnindexedChildren | src/main/java/eu/bcvsolutions/forest/index/service/impl/AbstractForestIndexService.java:68-74 | under the invariant, the children of a row without bounds have no bounds |
| NestedSetInsert.RootShiftRenumbers | src/main/java/eu/bcvsolutions/forest/index/repository/ForestIndexRepository.java:78-80 | the root shift relabels every node by +1, which keeps order and positivity |
| NestedSetInsert.AddedRootRgtIgnoresUnbounded | src/main/java/eu/bcvsolutions/forest/index/repository/ForestIndexRepository.java:75-76 | the new root's rgt is the same whether or not its own stale lft is counted |
| NestedSetInsert.PlacedRootIsNestedSet | src/main/java/eu/bcvsolutions/forest/index/service/impl/AbstractForestIndexService.java:127-130 | after the shift, the new root at `(1, addedRootRgt)` encloses every node and the invariant holds |
| NestedSetInsert.ReparentUnderRoot | src/main/java/eu/bcvsolutions/forest/index/service/impl/AbstractForestIndexService.java:131-134 | hanging a previous root under the new enclosing root, which no node hangs from yet, keeps the invariant |
| NestedSetInsert.EnclosingRootSiblings | src/main/java/eu/bcvsolutions/forest/index/service/impl/AbstractForestIndexService.java:127-130 | the new root has no parent, so every pair of siblings is a pair of the old table and stays apart |
| NestedSetInsert.RootInsertKeepsNestedSet | src/main/java/eu/bcvsolutions/forest/index/service/impl/AbstractForestIndexService.java:126-134 | the root insert keeps the invariant, the new root encloses every node, and hanging any previous root under it keeps it too |
| NestedSetInsert.GapRenumbers | src/main/java/eu/bcvsolutions/forest/index/repository/ForestIndexRepository.java:104-109 | the child-insert shift relabels every node by `k >= P ? k + 2 : k`, which keeps order |
| NestedSetInsert.AppendedChildIsNestedSet | src/main/java/eu/bcvsolutions/forest/index/service/impl/AbstractForestIndexService.java:135-141 | appending a row without bounds as the last child `(P, P+1)` keeps the invariant |
| NestedSetInsert.InsertedLeafSiblings | src/main/java/eu/bcvsolutions/forest/index/service/impl/AbstractForestIndexService.java:135-141 | the new last child `(P, P+1)` is apart from every older child of its parent, which all end before `P` |
| NestedSetInsert.RootPlacedKeepsNestedSet | src/main/java/eu/bcvsolutions/forest/index/service/impl/AbstractForestIndexService.java:126-134 | a new root starts at 1, encloses every other node, keeps the invariant and may take a previous root under it |
| NestedSetInsert.AppendedChildBounds | src/main/java/eu/bcvsolutions/forest/index/service/impl/AbstractForestIndexService.java:135-141 | the child becomes `(P, P+1)` under the parent, every node is relabelled by the gap, and the parent's rgt becomes `P+2` |
| NestedSetInsert.AppendedChildGrowsAncestors | src/main/java/eu/bcvsolutions/forest/index/service/impl/AbstractForestIndexService.java:135-141 | the parent and every node around the insert point gain exactly one descendant |
| NestedSetRemove.DeleteTakesSubtree | src/main/java/eu/bcvsolutions/forest/index/repository/ForestIndexRepository.java:117-119 | deleting by a node's bounds removes exactly the node and its descendants; the survivors keep bounds and parents |
| NestedSetRemove.DeleteKeepsNesting | src/main/java/eu/bcvsolutions/forest/index/service/impl/AbstractForestIndexService.java:204 | deleting a subtree without closing the gap keeps nesting |
| NestedSetRemove.AfterDeleteRenumbers | src/main/java/eu/bcvsolutions/forest/index/repository/ForestIndexRepository.java:127-132 | closing the gap relabels every node by `k > L ? k - (R - L + 1) : k` |
| NestedSetRemove.DeleteKeepsNestedSet | src/main/java/eu/bcvsolutions/forest/index/service/impl/AbstractForestIndexService.java:204-207 | deleting a subtree and closing its gap keeps the invariant |
| NestedSetRemove.MoveClearsSubtree | src/main/java/eu/bcvsolutions/forest/index/service/impl/AbstractForestIndexService.java:105-106 | clearing a moved node's interior takes its subtree out of the nodes |
| NestedSetRemove.MoveKeepsNestedSet | src/main/java/eu/bcvsolutions/forest/index/service/impl/AbstractForestIndexService.java:105-108 | clearing a moved node's interior and closing the gap keeps the invariant |
| NestedSetRemove.AncestorLosesSubtree | src/main/java/eu/bcvsolutions/forest/index/service/impl/AbstractForestIndexService.java:201-208 | after the gap closes, every node around the removed subtree has its size plus one fewer descendants |
| ForestIndexService.RebuildRootReady | src/main/java/eu/bcvsolutions/forest/index/service/impl/AbstractForestIndexService.java:53-59 | over a cleared type with one root, that root counts in at lft 1 and the walk starts ready and acyclic |
| ForestIndexService.RebuildNumbersAll | src/main/java/eu/bcvsolutions/forest/index/service/impl/AbstractForestIndexService.java:59 | after the walk, the nodes are exactly the rows walked; the root is `(1, 2n)` and holds every other node |
| ForestIndexService.RebuiltCountsDescendants | src/main/java/eu/bcvsolutions/forest/index/service/impl/AbstractForestIndexService.java:49-61 | after a rebuild from the single root, the interval query of every node returns exactly its descendants by parent links, so the count it reports is theirs |
| ForestIndexService.NumberedAfterWalk | src/main/java/eu/bcvsolutions/forest/index/service/impl/AbstractForestIndexService.java:53-59 | counting in the single root of a cleared type and walking from it numbers the tree as `NumberedFrom` says |
| ForestIndexService.SelfParentFails | src/main/java/eu/bcvsolutions/forest/index/service/impl/AbstractForestIndexService.java:136 | a row saved as its own parent fails to count in, since its parent then has no rgt |
| ForestIndexService.PreparedIndex | src/main/java/eu/bcvsolutions/forest/index/service/impl/AbstractForestIndexService.java:172-183 | the row to save: the old index (id and bounds kept) or a new one with no id and no bounds, with the parent index, content id and tree type set |
| ForestIndexService.PrepareEntity | src/main/java/eu/bcvsolutions/forest/index/service/impl/AbstractForestIndexService.java:172-183 | the entity built through the setters, from the loaded entity or a new one, carries exactly the column values `PreparedIndex` gives: the loaded key and bounds, the parent index, the content's identifier and tree type |
| ForestIndexService.SyntheticRootEntity | src/main/java/eu/bcvsolutions/forest/index/service/impl/AbstractForestIndexService.java:161-163 | a synthetic root is a new entity with no key, parent, bounds or content, and the given tree type |
| ForestIndexService.IndexedAfterSave | src/main/java/eu/bcvsolutions/forest/index/service/impl/AbstractForestIndexService.java:180-185 | the final save leaves the content indexed as `IndexedAs` says |
| ForestIndexService.IndexKeepsInvariant | src/main/java/eu/bcvsolutions/forest/index/service/impl/AbstractForestIndexService.java:145-188 | with a ready table (typed rows and contents, loaded row current), indexing keeps the invariant and the typing |
| ForestIndexService.DeleteShrinksAncestors | src/main/java/eu/bcvsolutions/forest/index/service/impl/AbstractForestIndexService.java:199-208 | `deleteNode(x, true)`: every node around x loses x's subtree size plus one descendants |
| ForestIndexService.ForestIndexService.constructor | src/main/java/eu/bcvsolutions/forest/index/service/impl/AbstractForestIndexService.java:36-47 | an empty table |
| ForestIndexService.ForestIndexService.Save | src/main/java/eu/bcvsolutions/forest/index/service/impl/AbstractForestIndexService.java:97 | JPA merge by key: a stored key is overwritten, otherwise the row gets a fresh larger key; no other row changes |
| ForestIndexService.ForestIndexService.CountIndex | src/main/java/eu/bcvsolutions/forest/index/service/impl/AbstractForestIndexService.java:117-143 | the table becomes `CountedIn`: a parentless row becomes the root `(1, ...)` with the previous root under it; otherwise it becomes the last child `(P, P+1)`; a parent without rgt fails, leaving the table |
| ForestIndexService.ForestIndexService.RecountIndexes | src/main/java/eu/bcvsolutions/forest/index/service/impl/AbstractForestIndexService.java:63-74 | only bounds change; every row walked hangs under a walked row and every child of a walked row is walked; when ready, the invariant holds; with acyclic parents it never fails |
| ForestIndexService.ForestIndexService.VisitChild | src/main/java/eu/bcvsolutions/forest/index/service/impl/AbstractForestIndexService.java:71-73 | one iteration: a child already counted fails with a loop of parents, which acyclic parents rule out; otherwise the child is counted in and walked from, keeping the loop facts and changing only bounds |
| ForestIndexService.ForestIndexService.WalkBelow | src/main/java/eu/bcvsolutions/forest/index/service/impl/AbstractForestIndexService.java:72 | the recursive walk from a child just counted in changes only bounds and moves the loop state on to the remaining children; with acyclic parents it does not fail |
| ForestIndexService.WalkedSubtree | src/main/java/eu/bcvsolutions/forest/index/service/impl/AbstractForestIndexService.java:63-74 | a walk from a node that visited only that node leaves every row of the type hanging from it, at any depth, numbered |
| ForestIndexService.ForestIndexService.SaveNode | src/main/java/eu/bcvsolutions/forest/index/service/impl/AbstractForestIndexService.java:76-115 | a failure restores the table. Otherwise: an unchanged parent with both bounds stores the node as given; a missing bound counts it in; a parent change moves it, and then every row of the type hanging from the moved node is numbered again (`SubtreeNumbered`). The saved row is a numbered node with the requested parent, type and content, and a well-formed save keeps the invariant |
| ForestIndexService.ForestIndexService.CountSaved | src/main/java/eu/bcvsolutions/forest/index/service/impl/AbstractForestIndexService.java:98-102 | with the parent unchanged and a bound missing, the saved row is counted in: the table becomes `CountedIn` of the written table, a failure restores the table as before the save, and a well-formed save keeps the invariant |
| ForestIndexService.ForestIndexService.MoveSaved | src/main/java/eu/bcvsolutions/forest/index/service/impl/AbstractForestIndexService.java:103-113 | the move path: a failure restores the table; the moved row is counted in after its old subtree is taken out, and every row of the type below it ends numbered; a well-formed move keeps the invariant |
| ForestIndexService.ForestIndexService.Relocate | src/main/java/eu/bcvsolutions/forest/index/service/impl/AbstractForestIndexService.java:104-112 | only with both old bounds known is the old interior cleared and the gap closed; the node then counts in under its new parent, and the walk leaves every row of the type below it numbered |
| ForestIndexService.ForestIndexService.Reindex | src/main/java/eu/bcvsolutions/forest/index/service/impl/AbstractForestIndexService.java:110-112 | the moved row, without bounds, is counted in (failing exactly as `CountedIn` does) and its children are walked again, so that every row of the type hanging from it, at any depth, is a node (`SubtreeNumbered`); it ends a numbered node keeping its parent, type and content, and a ready move keeps the invariant |
| ForestIndexService.ForestIndexService.Rebuild | src/main/java/eu/bcvsolutions/forest/index/service/impl/AbstractForestIndexService.java:49-61 | fails (leaving the table) iff the type has several roots; gives a cleared type iff it has none; otherwise numbers the tree from `(1, 2n)` and keeps the invariant, changing only bounds |
| ForestIndexService.ForestIndexService.NumberFrom | src/main/java/eu/bcvsolutions/forest/index/service/impl/AbstractForestIndexService.java:59 | counts the single root of a cleared type in and walks the whole tree, ending in `NumberedFrom` |
| ForestIndexService.ForestIndexService.DeleteNode | src/main/java/eu/bcvsolutions/forest/index/service/impl/AbstractForestIndexService.java:199-208 | issues delete, then afterDelete when asked. For a current node it removes exactly the node and its descendants; the invariant is kept when the gap is closed, nesting when it is not |
| ForestIndexService.ForestIndexService.DropIndex | src/main/java/eu/bcvsolutions/forest/index/service/impl/AbstractForestIndexService.java:190-197 | a content without an index changes nothing; several rows fail; otherwise the row's subtree is deleted and the gap closed, leaving the content with no index and the invariant kept |
| ForestIndexService.ForestIndexService.DropIndexes | src/main/java/eu/bcvsolutions/forest/index/service/impl/AbstractForestIndexService.java:210-214 | no row of the type is left; the invariant holds |
| ForestIndexService.ForestIndexService.ClearIndexes | src/main/java/eu/bcvsolutions/forest/index/service/impl/AbstractForestIndexService.java:216-220 | every row of the type loses its bounds; the invariant holds |
| ForestIndexService.ForestIndexService.ParentIndexOf | src/main/java/eu/bcvsolutions/forest/index/service/impl/AbstractForestIndexService.java:150-170 | the parent index: the parent content's row (indexed first when missing), or for a root content the type's root or a new parentless synthetic root; no row is lost. When ready, rows of other tree types are left alone, and a fully numbered type stays fully numbered |
| ForestIndexService.ForestIndexService.Index | src/main/java/eu/bcvsolutions/forest/index/service/impl/AbstractForestIndexService.java:145-188 | a failure restores the table. Otherwise the content's old row (or a new one) becomes a numbered node of its type, under its parent content's row or the type's root; when ready, the invariant is kept and the rows of every other tree type are left as they were, so types are numbered independently |
| ForestIndexService.ForestIndexService.SavePrepared | src/main/java/eu/bcvsolutions/forest/index/service/impl/AbstractForestIndexService.java:172-185 | the content's loaded row, or a new one, hung under the parent index with the content's key and type and saved, is the content's index row (`IndexedAs`); a failure leaves the table; a ready save keeps the invariant and the typed indexes and leaves the rows of other tree types alone |
| ForestContent.ContentRoots | src/main/java/eu/bcvsolutions/forest/index/repository/TypeableForestContentRepository.java:32-33 | exactly the parentless contents of the type (iff) |
| ForestContent.ContentChildren | src/main/java/eu/bcvsolutions/forest/index/repository/BaseForestContentRepository.java:33-34 | exactly the contents whose parent is the given one (iff) |
| ForestContentService.NotYetIndexed | src/main/java/eu/bcvsolutions/forest/index/service/impl/AbstractForestContentService.java:47-54 | after the drop, a content of the type not yet walked has no index row |
| ForestContentService.IndexKeepsIndexed | src/main/java/eu/bcvsolutions/forest/index/service/impl/AbstractForestContentService.java:63-69 | indexing one more content keeps every walked content indexed and adds it |
| ForestContentService.IndexKeepsOnly | src/main/java/eu/bcvsolutions/forest/index/service/impl/AbstractForestContentService.java:63-69 | after indexing a new content, only walked contents have index rows of the type |
| ForestContentService.IndexKeepsAttached | src/main/java/eu/bcvsolutions/forest/index/service/impl/AbstractForestContentService.java:63-69 | after indexing a new content, every walked content has exactly one row, under its parent content's row |
| ForestContentService.WalkedRoots | src/main/java/eu/bcvsolutions/forest/index/service/impl/AbstractForestContentService.java:48-55 | after the rebuild walk, every parentless row of the type is content-less, and there is at most one |
| ForestContentService.RowDescendsContent | src/main/java/eu/bcvsolutions/forest/index/service/impl/AbstractForestContentService.java:63-69 | a row below a walked content's row, by parent links, belongs to a walked content that descends from that content |
| ForestContentService.ContentDescendsRow | src/main/java/eu/bcvsolutions/forest/index/service/impl/AbstractForestContentService.java:63-69 | conversely, a content descending from a walked content has its row below that content's row |
| ForestContentService.WalkedCountsContentDescendants | src/test/java/eu/bcvsolutions/forest/index/service/DefaultNodeContentServiceIntegrationTest.java:226-245 | after the rebuild walk, a walked content's row is a node whose `rgt - lft` is twice the number of the content's descendants plus one, the count the test reads off the root after `rebuildIndexes` |
| ForestContentService.IndexStep | src/main/java/eu/bcvsolutions/forest/index/service/impl/AbstractForestContentService.java:52-54 | one indexing step keeps the walk state and adds the content |
| ForestContentService.KidsStayUnwalked | src/main/java/eu/bcvsolutions/forest/index/service/impl/AbstractForestContentService.java:66-68 | the walk under one child reaches none of its siblings, so no content is indexed twice |
| ForestContentService.ChildNext | src/main/java/eu/bcvsolutions/forest/index/service/impl/AbstractForestContentService.java:66-68 | after one child's walk, the walked contents still hang from the parent and include all their children |
| ForestContentService.ForestContentService.constructor | src/main/java/eu/bcvsolutions/forest/index/service/impl/AbstractForestContentService.java:38-45 | keeps the given index service |
| ForestContentService.ForestContentService.CreateIndex | src/main/java/eu/bcvsolutions/forest/index/service/impl/AbstractForestContentService.java:71-81 | delegates to `index` with its whole contract, other tree types left alone included; `updateIndex` is the same call |
| ForestContentService.ForestContentService.DeleteIndex | src/main/java/eu/bcvsolutions/forest/index/service/impl/AbstractForestContentService.java:83-87 | delegates to `dropIndex` with its whole contract |
| ForestContentService.ForestContentService.RebuildIndexes | src/main/java/eu/bcvsolutions/forest/index/service/impl/AbstractForestContentService.java:47-55 | drops the type, then indexes every content root and its descendants. The walked contents include all roots and all their children, and each has a row. In a typed forest each has exactly one row, under its parent content's row, only they have rows of the type, and the invariant holds. The type then has at most one parentless row, the synthetic root, and each walked content's row has `rgt - lft` equal to twice its number of content descendants plus one |
| ForestContentService.ForestContentService.RecountIndexes | src/main/java/eu/bcvsolutions/forest/index/service/impl/AbstractForestContentService.java:57-69 | indexes the contents below x: each added content hangs from x or another added one, and every child of x or of an added one is added |

## Left out

- Persistence-context mechanics (`detach`, `flush`, `clear`) are not modelled: every query reads the current table.
- Transaction propagation is modelled only as rollback on failure for the transactional entry points. Concurrency is not modelled.
- Reflective instantiation (`indexClass.newInstance()`) and its `IllegalArgumentException` path: replaced by a plain new row.
- Paging and sorting are left out: a paged query is the set of the rows it selects, and a `forEach` picks them in an arbitrary order.
- Integer width: bounds are unbounded integers. `Long` overflow is not modelled; the narrowing to `int` in `getChildrenCount` is.
- The ranged `dropIndexes(type, lft, rgt)` (ForestIndexRepository.java:67-69) is the same statement as `delete`, which `ForestIndexRepository.Delete` models. No engine operation calls it.
- `findPreviousRoot` (the entity variant at ForestIndexRepository.java:28-29) is not used by the engine. `FindPreviousRoots` models the id variant.
- The content repository's interval query `findAllChildren`, the content-service `find*` delegations and BaseForestContentService.java are not part of this model.
- Assert checks: the `Assert.notNull` calls are not modelled. The `getId() == null` test at AbstractForestIndexService.java:100 is not modelled either, because after a save the id is never null.
- ForestIndexRepository.FindAllChildren: with a null bound the query's parameter expression (`lft + 1` or `rgt - 1` on null) fails before the query runs, while the model returns the empty set. No operation of the index service runs this query; the lemmas use it on nodes only, where both bounds are set.
- ForestIndexService.ForestIndexService.DeleteNode: the removal and invariant claims hold only for a node whose bounds are still the stored ones (`CurrentNode`); the full invariant is claimed only when the gap is closed, and only nesting otherwise. With stale bounds the statements run on whatever interval the caller passed, as the first `ensures` states.
- Recursion that never ends (cyclic parent links in `recountIndexes` or `index`) is modelled as the error `CyclicParents`.
- ForestIndexService.ForestIndexService.RecountIndexes: on the move path, the absence of `CyclicParents` is not proved. Only the rebuild walk is proved never to fail.
- ForestIndexService.ForestIndexService.SaveNode: the invariant is claimed only for a well-formed request.
  - Moving a stored node to the root is excluded. There `countIndex` hangs the previous root under the moved node, and the walk then re-appends the whole previous tree, leaving a gap.
  - A new parentless node that comes with a rgt is excluded, because `addedRootRgt` counts that stale bound.
- ForestIndexService.ForestIndexService.SaveNode: the move claims about descendant counts are not proved (the new parent grows by the subtree size, the root's count is unchanged). The row count kept by a move follows from `SaveFrame`.
- ForestIndexService.ForestIndexService.Index: the invariant is claimed only when the content's loaded index row is still current when it is saved. That holds when nothing has to be indexed first. The source saves the bounds loaded at entry, which indexing the parent or creating the synthetic root can make stale.
- ForestIndexService.ForestIndexService.Index: rows of other tree types are proved left alone only in a typed forest (`ready`). When a parent content has another tree type than its child, the source indexes the parent in the parent's type first, which the contract does not describe.
- ForestContentService.ForestContentService.RebuildIndexes: the absence of failures is not proved. The one-row-per-content, invariant, single-root and descendant-count claims need a typed content forest (`ready`): each content has its parent's tree type, and each index row has its content's type.
- ForestIndexService.ForestIndexService.Rebuild: not proved to give the same descendant counts as before the rebuild, which holds only when the old bounds were consistent. It proves that the tree is renumbered consistently with its parent links: every node's count is its number of descendants by parent links (`RebuiltCountsDescendants`).
- Concrete scenarios from the repository's tests are not restated as lemmas. For example, the first content root gets `(2, 3)` under the synthetic root. Counts such as the rebuilt sample tree's root count 7 follow from `WalkedCountsContentDescendants`; exact bounds such as a root's `lft == 2` are not pinned by the method contracts.
- `toString` is not modelled.
- The content table is a read-only snapshot passed to each call; the content's cached `forestIndex` reference and `setForestIndex` are not modelled: the index row is always looked up by its content id, and `index` and `dropIndex` return the index row (or its key) instead of the content.

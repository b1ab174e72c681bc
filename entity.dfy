/**
 * The forest index entity: one row of the nested-set index. A row belongs to one tree
 * type, may point at a parent row, and carries the left and right bounds (`lft`, `rgt`) of
 * its node. Either bound may be null while the row is waiting to be indexed.
 */
module ForestIndexEntity {
  import opened Wrappers

  /** Generated surrogate key of an index row (a positive `Long` in the source). */
  type Id = nat

  /** Identifier of the indexed content (`Long` in the repository's own entity). */
  type ContentId = int

  type TreeType = string

  const DEFAULT_TREE_TYPE: TreeType := "default"

  /** The persistent columns of one index row, without its key. */
  datatype IndexRow = IndexRow(
    parent: Option<Id>,
    treeType: TreeType,
    lft: Option<int>,
    rgt: Option<int>,
    contentId: Option<ContentId>)

  /** A detached entity, as the services receive and return it: a key (null before the
      first save) and the column values. */
  datatype IndexNode = IndexNode(id: Option<Id>, row: IndexRow)

  predicate IsIndexed(r: IndexRow) {
    r.lft.Some? && r.rgt.Some?
  }

  /** The tree type the two-argument constructor and the getter fall back to. */
  function TreeTypeOrDefault(t: Option<string>): (r: TreeType)
    ensures t == None ==> r == DEFAULT_TREE_TYPE
    ensures t != None ==> r == t.value
  {
    if t.None? then DEFAULT_TREE_TYPE else t.value
  }

  const TWO_TO_32: int := 0x1_0000_0000
  const TWO_TO_64: int := 0x1_0000_0000_0000_0000

  /** Narrowing to a Java `int`: keep the low 32 bits, read them as two's complement. */
  function Int32(x: int): (r: int)
    ensures -0x8000_0000 <= r < 0x8000_0000
    ensures (x - r) % TWO_TO_32 == 0
    ensures -0x8000_0000 <= x < 0x8000_0000 ==> r == x
  {
    var low := x % TWO_TO_32;
    if low < 0x8000_0000 then low else low - TWO_TO_32
  }

  /** Java `long` division by two: the quotient is rounded toward zero. */
  function JavaHalf(a: int): (q: int)
    ensures a >= 0 ==> a == 2 * q || a == 2 * q + 1
    ensures a < 0 ==> a == 2 * q || a == 2 * q - 1
  {
    if a >= 0 then a / 2 else -((-a) / 2)
  }

  /**
   * The number of descendants a node reports: zero when a bound is missing, otherwise
   * half the width of its interval, divided as a Java `long` and narrowed to an `int`.
   */
  function ChildrenCount(lft: Option<int>, rgt: Option<int>): (n: int)
    ensures lft.None? || rgt.None? ==> n == 0
    ensures lft.Some? && rgt.Some? && 0 <= rgt.value - lft.value < TWO_TO_32 ==>
              2 * n <= rgt.value - lft.value <= 2 * n + 1
    ensures -0x8000_0000 <= n < 0x8000_0000
  {
    if rgt.None? || lft.None? then 0 else Int32(JavaHalf(rgt.value - lft.value))
  }

  /** Bitwise exclusive or of two non-negative numbers, one bit at a time. */
  function Xor(a: nat, b: nat): (r: nat)
    decreases a + b
  {
    if a == 0 && b == 0 then 0
    else 2 * Xor(a / 2, b / 2) + (if a % 2 == b % 2 then 0 else 1)
  }

  /** Helper: exclusive or with zero changes nothing. */
  lemma {:induction false} XorZero(a: nat)
    ensures Xor(a, 0) == a
    decreases a
  {
    if a != 0 { XorZero(a / 2); }
  }

  /** `Long.hashCode`: the two 32-bit halves of the 64-bit two's complement value,
      exclusive-or'ed and read as an `int`. */
  function LongHashCode(v: int): (h: int)
    ensures -0x8000_0000 <= h < 0x8000_0000
    ensures 0 <= v < 0x8000_0000 ==> h == v
  {
    var u := v % TWO_TO_64;
    XorZero(u % TWO_TO_32);
    Int32(Xor(u % TWO_TO_32, u / TWO_TO_32))
  }

  /** The hash of an entity: a default `HashCodeBuilder` (17, 37) fed the identifier alone. */
  function IdHashCode(id: Option<Id>): (h: int)
    ensures -0x8000_0000 <= h < 0x8000_0000
    ensures id.None? ==> h == 17 * 37
    ensures id.Some? && id.value < 0x8000_0000 - 17 * 37 ==> h == 17 * 37 + id.value
  {
    if id.None? then Int32(17 * 37) else Int32(17 * 37 + LongHashCode(id.value))
  }

  /** The entity as an object whose setters change one field at a time. */
  class ForestIndex {
    var id: Option<Id>
    var lft: Option<int>
    var rgt: Option<int>
    var parent: Option<Id>
    var forestTreeType: Option<string>
    var contentId: Option<ContentId>

    constructor ()
      ensures id.None? && lft.None? && rgt.None? && parent.None? && contentId.None?
      ensures forestTreeType == Some(DEFAULT_TREE_TYPE)
    {
      id, lft, rgt, parent, contentId := None, None, None, None, None;
      forestTreeType := Some(DEFAULT_TREE_TYPE);
    }

    /** The two-argument constructor: a null tree type becomes the default one. */
    constructor WithParent(treeType: Option<string>, parent: Option<Id>)
      ensures id.None? && lft.None? && rgt.None? && contentId.None?
      ensures this.parent == parent
      ensures forestTreeType == Some(TreeTypeOrDefault(treeType))
    {
      id, lft, rgt, contentId := None, None, None, None;
      this.parent := parent;
      forestTreeType := Some(TreeTypeOrDefault(treeType));
    }

    method SetId(id: Option<Id>)
      modifies this
      ensures this.id == id
      ensures lft == old(lft) && rgt == old(rgt) && parent == old(parent)
      ensures forestTreeType == old(forestTreeType) && contentId == old(contentId)
    {
      this.id := id;
    }

    method SetParent(parent: Option<Id>)
      modifies this
      ensures this.parent == parent
      ensures id == old(id) && lft == old(lft) && rgt == old(rgt)
      ensures forestTreeType == old(forestTreeType) && contentId == old(contentId)
    {
      this.parent := parent;
    }

    method SetLft(lft: Option<int>)
      modifies this
      ensures this.lft == lft
      ensures id == old(id) && rgt == old(rgt) && parent == old(parent)
      ensures forestTreeType == old(forestTreeType) && contentId == old(contentId)
    {
      this.lft := lft;
    }

    method SetRgt(rgt: Option<int>)
      modifies this
      ensures this.rgt == rgt
      ensures id == old(id) && lft == old(lft) && parent == old(parent)
      ensures forestTreeType == old(forestTreeType) && contentId == old(contentId)
    {
      this.rgt := rgt;
    }

    method SetForestTreeType(treeType: Option<string>)
      modifies this
      ensures forestTreeType == treeType
      ensures id == old(id) && lft == old(lft) && rgt == old(rgt)
      ensures parent == old(parent) && contentId == old(contentId)
    {
      forestTreeType := treeType;
    }

    method SetContentId(contentId: Option<ContentId>)
      modifies this
      ensures this.contentId == contentId
      ensures id == old(id) && lft == old(lft) && rgt == old(rgt)
      ensures parent == old(parent) && forestTreeType == old(forestTreeType)
    {
      this.contentId := contentId;
    }

    /** The getter stores the default type back when the field is null. */
    method GetForestTreeType() returns (t: TreeType)
      modifies this
      ensures t == TreeTypeOrDefault(old(forestTreeType))
      ensures forestTreeType == Some(t)
      ensures id == old(id) && lft == old(lft) && rgt == old(rgt)
      ensures parent == old(parent) && contentId == old(contentId)
    {
      if forestTreeType.None? {
        forestTreeType := Some(DEFAULT_TREE_TYPE);
      }
      t := forestTreeType.value;
    }

    function GetChildrenCount(): (n: int)
      reads this
      ensures lft.None? || rgt.None? ==> n == 0
      ensures lft.Some? && rgt.Some? && 0 <= rgt.value - lft.value < TWO_TO_32 ==>
                2 * n <= rgt.value - lft.value <= 2 * n + 1
    {
      ChildrenCount(lft, rgt)
    }

    function HashCode(): (h: int)
      reads this
      ensures id.None? ==> h == 17 * 37
    {
      IdHashCode(id)
    }

    /** Equality is identity of the key, for entities only; two unsaved entities are equal. */
    predicate Equals(o: object?)
      reads this, o
      ensures Equals(o) <==> o != null && o is ForestIndex && (o as ForestIndex).id == id
      ensures Equals(o) ==> (o as ForestIndex).HashCode() == HashCode()
    {
      o is ForestIndex && (o as ForestIndex).id == id
    }

    /** The entity's column values, as the services pass them around. */
    function Snapshot(): (n: IndexNode)
      reads this
      ensures n.id == id && n.row.parent == parent && n.row.lft == lft && n.row.rgt == rgt
      ensures n.row.treeType == TreeTypeOrDefault(forestTreeType)
      ensures n.row.contentId == contentId
    {
      IndexNode(id, IndexRow(parent, TreeTypeOrDefault(forestTreeType), lft, rgt, contentId))
    }
  }
}

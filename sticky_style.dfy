/**
 * `getStickyStyle` of src/components/TanstackVirtualizedTable/utils.ts: the
 * offset at which a sticky table column is pinned. A left-sticky column
 * sits past the widths of the columns before it, a right-sticky column
 * before the widths of the columns after it.
 */
module StickyStyle {
  import opened Wrappers

  datatype Side = Left | Right

  /** A table column as the style reads it: `columnDef.meta?.sticky` and `getSize()`. */
  datatype Column = Column(sticky: Option<Side>, size: int)

  /** The style object; an offset is rendered as `${offset}px`. */
  datatype Style = NoStyle | StickyLeft(left: int) | StickyRight(right: int)

  /** `reduce((acc, col) => acc + col.getSize(), acc)`, folding from the left. */
  function SumFrom(acc: int, columns: seq<Column>): int
    decreases |columns|
  {
    if columns == [] then acc
    else SumFrom(acc + columns[0].size, columns[1..])
  }

  /** The total width of the columns. */
  function TotalSize(columns: seq<Column>): int
    decreases |columns|
  {
    if columns == [] then 0
    else TotalSize(columns[..|columns| - 1]) + columns[|columns| - 1].size
  }

  /** JavaScript's `slice(start)`: a negative start counts from the end. */
  function SliceFrom(columns: seq<Column>, start: int): (r: seq<Column>)
    ensures 0 <= start <= |columns| ==> r == columns[start..]
  {
    var n := |columns|;
    var k := if start < 0 then (if n + start < 0 then 0 else n + start) else (if start > n then n else start);
    columns[k..]
  }

  /** JavaScript's `slice(0, end)`: a negative end counts from the end. */
  function SliceTo(columns: seq<Column>, end: int): (r: seq<Column>)
    ensures 0 <= end <= |columns| ==> r == columns[..end]
  {
    var n := |columns|;
    var k := if end < 0 then (if n + end < 0 then 0 else n + end) else (if end > n then n else end);
    columns[..k]
  }

  /** `getStickyStyle(column, columns, index)`. */
  function GetStickyStyle(column: Column, columns: seq<Column>, index: int): (r: Style)
    ensures column.sticky.None? <==> r.NoStyle?
    ensures column.sticky == Some(Left) <==> r.StickyLeft?
    ensures column.sticky == Some(Right) <==> r.StickyRight?
  {
    match column.sticky
    case None => NoStyle
    case Some(Right) => StickyRight(SumFrom(0, SliceFrom(columns, index + 1)))
    case Some(Left) => StickyLeft(SumFrom(0, SliceTo(columns, index)))
  }

  /** The fold adds the total of the columns to its start value. */
  lemma {:induction false} SumFromTotal(acc: int, columns: seq<Column>)
    ensures SumFrom(acc, columns) == acc + TotalSize(columns)
    decreases |columns|
  {
    if columns != [] {
      SumFromTotal(acc + columns[0].size, columns[1..]);
      TotalSplitFirst(columns);
    }
  }

  /** The total is the first width plus the total of the rest. */
  lemma TotalSplitFirst(columns: seq<Column>)
    requires columns != []
    ensures TotalSize(columns) == columns[0].size + TotalSize(columns[1..])
  {
    assert columns == [columns[0]] + columns[1..];
    TotalAppend([columns[0]], columns[1..]);
    assert [columns[0]][..0] == [];
  }

  /** The total of a concatenation is the sum of the totals. */
  lemma {:induction false} TotalAppend(a: seq<Column>, b: seq<Column>)
    ensures TotalSize(a + b) == TotalSize(a) + TotalSize(b)
    decreases |b|
  {
    if b == [] {
      assert a + b == a;
    } else {
      var init := b[..|b| - 1];
      assert (a + b)[..|a + b| - 1] == a + init;
      TotalAppend(a, init);
    }
  }

  /** The left offset of the column at index. */
  function LeftOffset(columns: seq<Column>, index: int): int {
    TotalSize(SliceTo(columns, index))
  }

  /** The right offset of the column at index. */
  function RightOffset(columns: seq<Column>, index: int): int {
    TotalSize(SliceFrom(columns, index + 1))
  }

  /**
   * For a column of the list, a left-sticky style is offset by the widths
   * strictly before index, a right-sticky one by the widths strictly after.
   */
  lemma StickyOffsets(column: Column, columns: seq<Column>, index: int)
    requires 0 <= index < |columns|
    ensures column.sticky == Some(Left) ==>
      GetStickyStyle(column, columns, index) == StickyLeft(TotalSize(columns[..index]))
    ensures column.sticky == Some(Right) ==>
      GetStickyStyle(column, columns, index) == StickyRight(TotalSize(columns[index + 1..]))
  {
    SumFromTotal(0, columns[..index]);
    SumFromTotal(0, columns[index + 1..]);
  }

  /**
   * Before, at and after index the widths add up to the table's width: the
   * offsets of a column leave exactly its own width between them.
   */
  lemma OffsetsPartition(columns: seq<Column>, index: int)
    requires 0 <= index < |columns|
    ensures LeftOffset(columns, index) + columns[index].size + RightOffset(columns, index) == TotalSize(columns)
  {
    var upTo, after := columns[..index + 1], columns[index + 1..];
    LeftOffsetStep(columns, index);
    assert LeftOffset(columns, index + 1) == TotalSize(upTo);
    assert RightOffset(columns, index) == TotalSize(after);
    assert columns == upTo + after;
    TotalAppend(upTo, after);
  }

  /** The first column is pinned at the left edge, the last at the right edge. */
  lemma EdgeOffsets(columns: seq<Column>)
    requires columns != []
    ensures LeftOffset(columns, 0) == 0
    ensures RightOffset(columns, |columns| - 1) == 0
  {
  }

  /** Each left offset is the previous one plus the previous column's width. */
  lemma LeftOffsetStep(columns: seq<Column>, index: int)
    requires 0 <= index < |columns|
    ensures LeftOffset(columns, index + 1) == LeftOffset(columns, index) + columns[index].size
  {
    assert columns[..index + 1] == columns[..index] + [columns[index]];
    TotalAppend(columns[..index], [columns[index]]);
    assert [columns[index]][..0] == [];
  }

  /** With widths that are not negative, offsets grow to the right. */
  lemma LeftOffsetMonotone(columns: seq<Column>, i: int, j: int)
    requires 0 <= i <= j <= |columns|
    requires forall k | 0 <= k < |columns| :: columns[k].size >= 0
    ensures LeftOffset(columns, i) <= LeftOffset(columns, j)
    decreases j - i
  {
    if i < j {
      LeftOffsetStep(columns, j - 1);
      LeftOffsetMonotone(columns, i, j - 1);
    }
  }
}

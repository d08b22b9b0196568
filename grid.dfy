/** The slot grid of a panel: 9 columns, row-major, one optional item per slot,
    and the fill operations of the layout builder stated as functions on the
    sequence of slots. Each function performs its writes in the order the
    builder's loops do, so a loop can be proved against it one step at a time. */
module Grid {
  import opened Wrappers

  /** A clickable item: the slot it reports and the stack drawn there. */
  datatype Item<S> = Item(slot: int, stack: S)

  /** The contents of the grid, index = slot position; `None` is an empty slot. */
  type Cells<S> = seq<Option<Item<S>>>

  /** What `cloneInSlot(i)` puts into slot `i`: the same item, re-positioned at `i`. */
  function Placed<S>(item: Item<S>, i: int): (r: Option<Item<S>>)
    ensures r.Some? && r.value.slot == i && r.value.stack == item.stack
  {
    Some(item.(slot := i))
  }

  /** Every occupied slot holds an item that reports that very slot. */
  ghost predicate Aligned<S>(s: Cells<S>)
  {
    forall i | 0 <= i < |s| :: s[i].Some? ==> s[i].value.slot == i
  }

  // ---------------------------------------------------------------- ranges

  /** `fillItem(item, fromIndex, toIndex)`: slots fromIndex, ..., toIndex-1 each receive a clone. */
  function RangeFilled<S>(s: Cells<S>, item: Item<S>, fromIndex: int, toIndex: int): (r: Cells<S>)
    requires fromIndex < toIndex ==> 0 <= fromIndex && toIndex <= |s|
    ensures |r| == |s|
    decreases toIndex - fromIndex
  {
    if toIndex <= fromIndex then s
    else RangeFilled(s, item, fromIndex, toIndex - 1)[toIndex - 1 := Placed(item, toIndex - 1)]
  }

  /** Exactly the slots of [fromIndex, toIndex) hold a clone at their own index; all others are as before. */
  lemma {:induction false} RangeFilledAt<S>(s: Cells<S>, item: Item<S>, fromIndex: int, toIndex: int)
    requires fromIndex < toIndex ==> 0 <= fromIndex && toIndex <= |s|
    decreases toIndex - fromIndex
    ensures forall j | 0 <= j < |s| :: RangeFilled(s, item, fromIndex, toIndex)[j] == (if fromIndex <= j < toIndex then Placed(item, j) else s[j])
  {
    if fromIndex < toIndex {
      RangeFilledAt(s, item, fromIndex, toIndex - 1);
    }
  }

  // ---------------------------------------------------------------- rows

  /** First slot of the 1-based row `row`; row 1 is computed by its own branch. */
  function RowStart(row: int): (r: int)
    requires row >= 1
    ensures r == (row - 1) * 9 && (row == 1 <==> r == 0)
  {
    if row == 1 then 0 else (row - 1) * 9
  }

  /** `fillRow(item, row)`: the nine slots of that row each receive a clone. */
  function RowFilled<S>(s: Cells<S>, item: Item<S>, row: int): (r: Cells<S>)
    requires 1 <= row && row * 9 <= |s|
    ensures |r| == |s|
  {
    RangeFilled(s, item, RowStart(row), RowStart(row) + 9)
  }

  /** A row fill writes exactly [(row-1)*9, row*9), a clone at each index, and nothing else. */
  lemma RowFilledAt<S>(s: Cells<S>, item: Item<S>, row: int)
    requires 1 <= row && row * 9 <= |s|
    ensures |RowFilled(s, item, row)| == |s|
    ensures forall j | 0 <= j < |s| :: RowFilled(s, item, row)[j] == (if (row - 1) * 9 <= j < row * 9 then Placed(item, j) else s[j])
  {
    RangeFilledAt(s, item, RowStart(row), RowStart(row) + 9);
  }

  // ---------------------------------------------------------------- columns

  /** Slot `j` is one of the first `k` cells of the 1-based column `column`. */
  predicate InColumn(j: int, column: int, k: int)
  {
    0 <= j && j % 9 == column - 1 && j / 9 < k
  }

  /** The cell of column `column` in the 0-based row `m`. */
  lemma ColumnCell(column: int, m: int)
    requires 1 <= column <= 9 && 0 <= m
    ensures (column - 1 + 9 * m) % 9 == column - 1 && (column - 1 + 9 * m) / 9 == m
  {
  }

  /** `fillColumn(item, column)` after `k` turns of its loop: the slots
      column-1, column-1+9, ..., column-1+9*(k-1), in that order. */
  function ColumnFilled<S>(s: Cells<S>, item: Item<S>, column: int, k: int): (r: Cells<S>)
    requires 1 <= column <= 9 && 0 <= k
    requires k > 0 ==> column - 1 + 9 * (k - 1) < |s|
    ensures |r| == |s|
    decreases k
  {
    if k == 0 then s
    else
      var j := column - 1 + 9 * (k - 1);
      ColumnFilled(s, item, column, k - 1)[j := Placed(item, j)]
  }

  /** Exactly the first `k` cells of the column hold a clone at their own index. */
  lemma {:induction false} ColumnFilledAt<S>(s: Cells<S>, item: Item<S>, column: int, k: int)
    requires 1 <= column <= 9 && 0 <= k
    requires k > 0 ==> column - 1 + 9 * (k - 1) < |s|
    decreases k
    ensures forall j | 0 <= j < |s| :: ColumnFilled(s, item, column, k)[j] == (if InColumn(j, column, k) then Placed(item, j) else s[j])
  {
    if k > 0 {
      ColumnFilledAt(s, item, column, k - 1);
      ColumnCell(column, k - 1);
    }
  }

  /** With a whole grid of `rows` rows, every cell the column loop visits lies below
      slots = rows*9, although its inclusive bound slots-9+column may itself equal slots. */
  lemma ColumnCellsInGrid(rows: int, column: int)
    requires rows > 0 && 1 <= column <= 9
    ensures forall m | 0 <= m < rows :: column - 1 + 9 * m < rows * 9
    ensures forall m | 0 <= m :: column - 1 + 9 * m <= rows * 9 - 9 + column <==> m < rows
  {
  }

  // ---------------------------------------------------------------- borders

  /** Slot `j` of a `rows`-row grid is in its first or last row or first or last column. */
  predicate OnBorder(j: int, rows: int)
  {
    0 <= j < rows * 9 && (j / 9 == 0 || j / 9 == rows - 1 || j % 9 == 0 || j % 9 == 8)
  }

  /** `fillBorders(item)`: nothing below three rows; otherwise row 1, the last row,
      column 1 and column 9, in that order. */
  function BordersFilled<S>(s: Cells<S>, item: Item<S>, rows: int): (r: Cells<S>)
    requires rows >= 1
    requires rows >= 3 ==> rows * 9 <= |s|
    ensures |r| == |s|
  {
    if rows < 3 then s
    else
      var top := RowFilled(s, item, 1);
      RowFilledAt(s, item, 1);
      var bottom := RowFilled(top, item, rows);
      RowFilledAt(top, item, rows);
      var left := ColumnFilled(bottom, item, 1, rows);
      ColumnFilled(left, item, 9, rows)
  }

  /** The border slots hold clones at their own index; every other slot is as before. */
  lemma BordersFilledAt<S>(s: Cells<S>, item: Item<S>, rows: int)
    requires rows >= 1
    requires rows >= 3 ==> rows * 9 <= |s|
    ensures |BordersFilled(s, item, rows)| == |s|
    ensures forall j | 0 <= j < |s| :: BordersFilled(s, item, rows)[j] == (if rows >= 3 && OnBorder(j, rows) then Placed(item, j) else s[j])
  {
    if rows >= 3 {
      var top := RowFilled(s, item, 1);
      RowFilledAt(s, item, 1);
      var bottom := RowFilled(top, item, rows);
      RowFilledAt(top, item, rows);
      var left := ColumnFilled(bottom, item, 1, rows);
      ColumnFilledAt(bottom, item, 1, rows);
      ColumnFilledAt(left, item, 9, rows);
      forall j | 0 <= j < |s|
        ensures OnBorder(j, rows) ==
                  ((0 <= j < 9) || ((rows - 1) * 9 <= j < rows * 9) || InColumn(j, 1, rows) || InColumn(j, 9, rows))
      {
        assert j == 9 * (j / 9) + j % 9;
      }
    }
  }

  /** Interior slots (rows 2..rows-1, columns 2..8, all 1-based) are never written. */
  lemma BordersKeepInterior<S>(s: Cells<S>, item: Item<S>, rows: int, row: int, column: int)
    requires rows * 9 <= |s|
    requires 2 <= row <= rows - 1 && 2 <= column <= 8
    ensures BordersFilled(s, item, rows)[(row - 1) * 9 + column - 1] == s[(row - 1) * 9 + column - 1]
  {
    BordersFilledAt(s, item, rows);
    ColumnCell(column, row - 1);
  }

  // ---------------------------------------------------------------- single slots

  /** `addItem(item, slots...)`: each listed slot, in list order, receives a clone. */
  function SlotsAdded<S>(s: Cells<S>, item: Item<S>, slots: seq<int>): (r: Cells<S>)
    requires forall i | 0 <= i < |slots| :: 0 <= slots[i] < |s|
    ensures |r| == |s|
    decreases |slots|
  {
    if slots == [] then s
    else
      var last := slots[|slots| - 1];
      SlotsAdded(s, item, slots[..|slots| - 1])[last := Placed(item, last)]
  }

  /** Exactly the listed slots hold a clone at their own index, repeated ones included. */
  lemma {:induction false} SlotsAddedAt<S>(s: Cells<S>, item: Item<S>, slots: seq<int>)
    requires forall i | 0 <= i < |slots| :: 0 <= slots[i] < |s|
    decreases |slots|
    ensures forall j | 0 <= j < |s| :: SlotsAdded(s, item, slots)[j] == (if j in slots then Placed(item, j) else s[j])
  {
    if slots != [] {
      var init := slots[..|slots| - 1];
      assert slots == init + [slots[|slots| - 1]];
      SlotsAddedAt(s, item, init);
    }
  }

  // ---------------------------------------------------------------- alignment

  /** The fill operations keep every occupied slot pointing at itself. */
  lemma {:induction false} RangeFilledAligned<S>(s: Cells<S>, item: Item<S>, fromIndex: int, toIndex: int)
    requires fromIndex < toIndex ==> 0 <= fromIndex && toIndex <= |s|
    requires Aligned(s)
    ensures Aligned(RangeFilled(s, item, fromIndex, toIndex))
  {
    RangeFilledAt(s, item, fromIndex, toIndex);
  }

  lemma {:induction false} ColumnFilledAligned<S>(s: Cells<S>, item: Item<S>, column: int, k: int)
    requires 1 <= column <= 9 && 0 <= k
    requires k > 0 ==> column - 1 + 9 * (k - 1) < |s|
    requires Aligned(s)
    ensures Aligned(ColumnFilled(s, item, column, k))
  {
    ColumnFilledAt(s, item, column, k);
  }

  lemma {:induction false} BordersFilledAligned<S>(s: Cells<S>, item: Item<S>, rows: int)
    requires rows >= 1
    requires rows >= 3 ==> rows * 9 <= |s|
    requires Aligned(s)
    ensures Aligned(BordersFilled(s, item, rows))
  {
    BordersFilledAt(s, item, rows);
  }

  lemma {:induction false} SlotsAddedAligned<S>(s: Cells<S>, item: Item<S>, slots: seq<int>)
    requires forall i | 0 <= i < |slots| :: 0 <= slots[i] < |s|
    requires Aligned(s)
    ensures Aligned(SlotsAdded(s, item, slots))
  {
    SlotsAddedAt(s, item, slots);
  }

  /** `addItem(item)` stores the item itself at its own slot, so alignment is kept too. */
  lemma AddedAligned<S>(s: Cells<S>, item: Item<S>)
    requires 0 <= item.slot < |s|
    requires Aligned(s)
    ensures Aligned(s[item.slot := Some(item)])
  {
  }
}

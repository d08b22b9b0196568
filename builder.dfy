/** The layout builder itself: a 9-wide grid of `rows` rows whose items array
    is filled in place, plus the panel-level settings handed to the factory.
    `S` is the host's item stack, `O` the open hook, `C` the close hook; an
    unset hook is `None`. */
module Layout {
  import opened Wrappers
  import opened Grid
  import opened Render

  class Builder<S, O, C> {
    const title: string
    const slots: int
    const rows: int

    var items: array<Option<Item<S>>>

    var openAction: Option<O>
    var closeAction: Option<C>

    var cancelClick: bool

    /** The grid size fixed at construction.  The length of `items` is not part
        of it: `SetItems` may install an array of any length. */
    ghost predicate Valid()
    {
      rows > 0 && slots == rows * 9
    }

    /** A builder of `rows` rows: every slot empty, no hooks, clicks cancelled. */
    constructor (title: string, rows: int)
      requires rows > 0
      ensures Valid()
      ensures this.title == title && this.rows == rows && slots == rows * 9
      ensures fresh(items) && items.Length == slots
      ensures forall i | 0 <= i < items.Length :: items[i].None?
      ensures openAction.None? && closeAction.None? && cancelClick
    {
      this.title := title;
      this.slots := rows * 9;
      this.rows := rows;
      items := new Option<Item<S>>[rows * 9](_ => None);
      openAction, closeAction := None, None;
      cancelClick := true;
    }

    /** A builder with the default six rows. */
    constructor Default(title: string)
      ensures Valid()
      ensures this.title == title && rows == 6 && slots == 54
      ensures fresh(items) && items.Length == slots
      ensures forall i | 0 <= i < items.Length :: items[i].None?
      ensures openAction.None? && closeAction.None? && cancelClick
    {
      this.title := title;
      this.slots := 6 * 9;
      this.rows := 6;
      items := new Option<Item<S>>[6 * 9](_ => None);
      openAction, closeAction := None, None;
      cancelClick := true;
    }

    /** `fillItem`: a clone of `item` at each slot of [fromIndex, toIndex). */
    method FillItem(item: Item<S>, fromIndex: int, toIndex: int)
      requires fromIndex < toIndex ==> 0 <= fromIndex && toIndex <= items.Length
      modifies items
      ensures items[..] == RangeFilled(old(items[..]), item, fromIndex, toIndex)
    {
      var i := fromIndex;
      while i < toIndex
        invariant fromIndex < toIndex ==> fromIndex <= i <= toIndex
        invariant toIndex <= fromIndex ==> i == fromIndex
        invariant items[..] == RangeFilled(old(items[..]), item, fromIndex, i)
      {
        items[i] := Placed(item, i);
        i := i + 1;
      }
    }

    /** `fillRow`: a clone of `item` at each of the nine slots of the 1-based row `row`. */
    method FillRow(item: Item<S>, row: int)
      requires Valid()
      requires 1 <= row <= rows
      requires row * 9 <= items.Length
      modifies items
      ensures items[..] == RowFilled(old(items[..]), item, row)
    {
      var indexStart := if row == 1 then 0 else (row - 1) * 9;
      var indexEnd := indexStart + 9;
      var slot := indexStart;
      while slot < indexEnd
        invariant indexStart <= slot <= indexEnd
        invariant items[..] == RangeFilled(old(items[..]), item, indexStart, slot)
      {
        items[slot] := Placed(item, slot);
        slot := slot + 1;
      }
    }

    /** `fillColumn`: a clone of `item` at the cell of the 1-based column `column`
        in every row, the loop stepping by 9 up to the inclusive bound slots-9+column. */
    method FillColumn(item: Item<S>, column: int)
      requires Valid()
      requires 1 <= column <= 9
      requires slots - 9 + column <= items.Length
      modifies items
      ensures items[..] == ColumnFilled(old(items[..]), item, column, rows)
    {
      var indexStart := column - 1;
      var indexEnd := (slots - 9) + column;
      var slot := indexStart;
      ghost var k := 0;
      while slot <= indexEnd
        invariant 0 <= k <= rows
        invariant slot == column - 1 + 9 * k
        invariant items[..] == ColumnFilled(old(items[..]), item, column, k)
        decreases indexEnd - slot
      {
        items[slot] := Placed(item, slot);
        slot := slot + 9;
        k := k + 1;
      }
    }

    /** `fillBorders`: nothing below three rows; otherwise the first and last rows
        and the first and last columns. */
    method FillBorders(item: Item<S>)
      requires Valid()
      requires rows >= 3 ==> slots <= items.Length
      modifies items
      ensures items[..] == BordersFilled(old(items[..]), item, rows)
    {
      if rows < 3 {
        return;
      }
      FillRow(item, 1);
      FillRow(item, rows);
      FillColumn(item, 1);
      FillColumn(item, 9);
    }

    /** `setItems`: a new items array holding `list`, of whatever length `list` has. */
    method SetItems(list: Cells<S>)
      modifies this
      ensures fresh(items) && items[..] == list
      ensures openAction == old(openAction) && closeAction == old(closeAction)
      ensures cancelClick == old(cancelClick)
    {
      items := new Option<Item<S>>[|list|](i requires 0 <= i < |list| => list[i]);
    }

    /** `addItem(item)`: the item itself, not a clone, at the slot it reports. */
    method AddItem(item: Item<S>)
      requires 0 <= item.slot < items.Length
      modifies items
      ensures items[..] == old(items[..])[item.slot := Some(item)]
    {
      items[item.slot] := Some(item);
    }

    /** `addItem(item, slots...)`: a clone of `item` at each listed slot, in order. */
    method AddItemToSlots(item: Item<S>, positions: seq<int>)
      requires forall i | 0 <= i < |positions| :: 0 <= positions[i] < items.Length
      modifies items
      ensures items[..] == SlotsAdded(old(items[..]), item, positions)
    {
      for n := 0 to |positions|
        invariant items[..] == SlotsAdded(old(items[..]), item, positions[..n])
      {
        assert positions[..n + 1][..n] == positions[..n];
        AddItem(item.(slot := positions[n]));
      }
      assert positions[..|positions|] == positions;
    }

    /** `openAction`: sets (or, with `None`, clears) the open hook and nothing else. */
    method OpenAction(action: Option<O>)
      modifies this
      ensures openAction == action
      ensures items == old(items) && closeAction == old(closeAction) && cancelClick == old(cancelClick)
    {
      openAction := action;
    }

    /** `closeAction`: sets (or, with `None`, clears) the close hook and nothing else. */
    method CloseAction(action: Option<C>)
      modifies this
      ensures closeAction == action
      ensures items == old(items) && openAction == old(openAction) && cancelClick == old(cancelClick)
    {
      closeAction := action;
    }

    /** `toggleClick`: flips whether clicks are cancelled by default. */
    method ToggleClick()
      modifies this
      ensures cancelClick == !old(cancelClick)
      ensures items == old(items) && openAction == old(openAction) && closeAction == old(closeAction)
    {
      cancelClick := !cancelClick;
    }

    /** The descriptor `build` hands to the factory: the builder's settings and
        an element-wise copy of the items. */
    function Snapshot(): (d: GuiData<S, O, C>)
      reads this, items
      ensures d.title == title && d.slots == slots && d.cancelClick == cancelClick
      ensures d.openAction == openAction && d.closeAction == closeAction
      ensures |d.items| == items.Length && forall i | 0 <= i < items.Length :: d.items[i] == items[i]
    {
      GuiData(title, slots, items[..], openAction, closeAction, cancelClick)
    }

    /** `build`: asks `factory` for an inventory from the snapshot; when it gives
        none, so does `build`; otherwise every occupied slot's stack is written
        at the slot its item reports, in index order.  The items are only read. */
    method Build(factory: GuiData<S, O, C> -> Option<map<int, S>>) returns (r: Option<map<int, S>>)
      ensures factory(Snapshot()).None? ==> r.None?
      ensures factory(Snapshot()).Some? ==> r == Some(Rendered(factory(Snapshot()).value, items[..]))
    {
      var guiData := GuiData(title, slots, items[..], openAction, closeAction, cancelClick);
      var created := factory(guiData);
      if created.None? {
        return None;
      }
      var inventory := created.value;
      for n := 0 to items.Length
        invariant inventory == Rendered(created.value, items[..n])
      {
        assert items[..n + 1][..n] == items[..n];
        match items[n]
        case None =>
        case Some(it) => inventory := inventory[it.slot := it.stack];
      }
      assert items[..items.Length] == items[..];
      return Some(inventory);
    }
  }

  /** Toggling twice restores the original flag. */
  method ToggleTwice<S, O, C>(b: Builder<S, O, C>)
    modifies b
    ensures b.cancelClick == old(b.cancelClick)
    ensures b.items == old(b.items) && b.openAction == old(b.openAction) && b.closeAction == old(b.closeAction)
  {
    b.ToggleClick();
    b.ToggleClick();
  }

  /** Building a fresh builder shows the factory exactly its title, `rows * 9`
      slots, all of them empty, no hooks and cancelled clicks, and returns the
      factory's inventory untouched. */
  method BuildFresh<S, O, C>(title: string, rows: int, factory: GuiData<S, O, C> -> Option<map<int, S>>)
    returns (r: Option<map<int, S>>)
    requires rows > 0
    ensures r == factory(GuiData(title, rows * 9, seq(rows * 9, _ => None), None, None, true))
  {
    var b := new Builder<S, O, C>(title, rows);
    assert b.items[..] == seq(rows * 9, _ => None);
    r := b.Build(factory);
    if r.Some? {
      RenderedEmpty(factory(b.Snapshot()).value, rows * 9);
    }
  }
}

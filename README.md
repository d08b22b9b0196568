# GUI layout builder — Dafny model

A model of `GUIBuilderLayout`, the fluent builder of a clickable chest-style
panel. The panel is a grid 9 columns wide and `rows` rows high, stored row-major
in one array of optional clickable items. The builder fills ranges, rows,
columns and borders with clones of an item, places single items, stores the
open and close hooks and the click-cancellation flag, and `build()` asks a
factory for an inventory and draws every item's stack into it.

Files:

- `wrappers.dfy` — `Option`, which stands for the source's `null`: an empty slot, an unset hook, a panel the factory could not create.
- `grid.dfy` (module `Grid`) — the item type `Item(slot, stack)` and the grid `Cells` (a sequence of `Option<Item>`). Each fill is a function on the sequence of slots, writing in the same order as the source's loop. Lemmas say, slot by slot, what each fill leaves. A slot's clone `cloneInSlot(i)` is `item.(slot := i)` (`Placed`).
- `render.dfy` (module `Render`) — the descriptor `GuiData` given to the factory, and `Rendered`, the inventory after the `setItem` loop of `build()`. The inventory is a map from slot to stack.
- `builder.dfy` (module `Layout`) — the class `Builder` with the source's fields. `items` is an `array` filled in place by the loops. Each method is proved against the functions of `Grid` and `Render`.

Design decisions:

- No class invariant ties `items.Length` to `slots`. `setItems` installs an array of any length and keeps `slots` and `rows` (`GUIBuilderLayout.java:105`). So every write operation has its own `requires` bounding the written indices by `items.Length`. `Valid()` only says `rows > 0 && slots == rows * 9`.
- The source's `isNotNull` and `isState` checks, and the array bounds Java would check, are preconditions. Dafny values cannot be null, so the null checks on the title, the items and the list hold by typing.
- The factory `GUIFactory.create` is a function parameter of `Build`, from descriptor to `Option` of inventory. The inventory's starting contents are whatever the factory returns.
- The hooks are opaque type parameters `O` and `C`. They are only stored, never called.
- The self-typed `back()` chaining returns nothing here. Every mutator is a method without a result.

Notes on what the source does:

- `addItem(item)` stores the item itself at `item.getSlot()`, not a clone (line 114).
- The descriptor gets a copy of the items list, `new ArrayList<>(Arrays.asList(items))` (line 153). It does not share the array. The model passes the value `items[..]`.
- A fill rejected by `isState` writes nothing. A fill that runs past the end of the array writes some slots before it throws. The model's preconditions exclude the second case (see Left out).

## Model

| member | source | states |
|---|---|---|
| `Layout.Builder.constructor` | src/team/unnamed/gui/core/gui/type/GUIBuilderLayout.java:37-46 | needs `rows > 0`; gives `slots == rows * 9`, a fresh items array of length `slots` with every slot empty, no hooks and `cancelClick` true |
| `Layout.Builder.Default` | src/team/unnamed/gui/core/gui/type/GUIBuilderLayout.java:33-35 | the one-argument constructor: six rows, 54 empty slots, no hooks, `cancelClick` true |
| `Layout.Builder.FillItem` | src/team/unnamed/gui/core/gui/type/GUIBuilderLayout.java:49-57 | the counting loop leaves exactly `RangeFilled(old items, item, fromIndex, toIndex)`; bounds are needed only when the range is non-empty |
| `Grid.Placed` | src/team/unnamed/gui/core/gui/type/GUIBuilderLayout.java:53 | `cloneInSlot(i)`: the same stack, re-positioned at slot `i` |
| `Grid.RangeFilled` | src/team/unnamed/gui/core/gui/type/GUIBuilderLayout.java:52-54 | a range fill never changes the number of slots |
| `Grid.RangeFilledAt` | src/team/unnamed/gui/core/gui/type/GUIBuilderLayout.java:49-57 | after a range fill, every slot `j` in `[fromIndex, toIndex)` holds `item.(slot := j)`; every other slot is unchanged, so an empty range (`fromIndex >= toIndex`) changes nothing |
| `Grid.RowStart` | src/team/unnamed/gui/core/gui/type/GUIBuilderLayout.java:63 | the `row == 1` branch and the general branch agree: the start is `(row - 1) * 9`, and it is 0 exactly for row 1 |
| `Grid.RowFilled` | src/team/unnamed/gui/core/gui/type/GUIBuilderLayout.java:63-68 | a row fill, written as the range `[RowStart(row), RowStart(row) + 9)`, never changes the number of slots |
| `Layout.Builder.FillRow` | src/team/unnamed/gui/core/gui/type/GUIBuilderLayout.java:60-71 | needs `1 <= row <= rows` and the row to lie inside the array; leaves exactly `RowFilled(old items, item, row)` |
| `Grid.RowFilledAt` | src/team/unnamed/gui/core/gui/type/GUIBuilderLayout.java:63-68 | a row fill writes exactly the nine slots `[(row-1)*9, row*9)`, each with a clone at its own index; all other slots are unchanged |
| `Layout.Builder.FillColumn` | src/team/unnamed/gui/core/gui/type/GUIBuilderLayout.java:74-85 | needs `1 <= column <= 9` and the last visited cell inside the array; the loop, stepping by 9 to the inclusive bound `slots - 9 + column`, runs exactly `rows` times and leaves `ColumnFilled(old items, item, column, rows)` |
| `Grid.ColumnFilled` | src/team/unnamed/gui/core/gui/type/GUIBuilderLayout.java:80-82 | a partial column fill never changes the number of slots |
| `Grid.ColumnFilledAt` | src/team/unnamed/gui/core/gui/type/GUIBuilderLayout.java:77-82 | after `k` turns, slot `j` holds a clone at `j` exactly when `j % 9 == column - 1` and `j / 9 < k`; all other slots are unchanged |
| `Grid.ColumnCellsInGrid` | src/team/unnamed/gui/core/gui/type/GUIBuilderLayout.java:77-80 | the visited cells `column - 1 + 9m` are within the inclusive bound exactly for `m < rows`, and each lies below `slots` |
| `Layout.Builder.FillBorders` | src/team/unnamed/gui/core/gui/type/GUIBuilderLayout.java:88-99 | with fewer than three rows nothing changes; otherwise it performs row 1, row `rows`, column 1 and column 9, leaving `BordersFilled(old items, item, rows)` |
| `Grid.BordersFilled` | src/team/unnamed/gui/core/gui/type/GUIBuilderLayout.java:88-99 | the border fill (row 1, row `rows`, column 1, column 9, in that order) never changes the number of slots |
| `Grid.BordersFilledAt` | src/team/unnamed/gui/core/gui/type/GUIBuilderLayout.java:88-99 | below three rows every slot is unchanged; otherwise exactly the slots in the first or last row or the first or last column hold a clone at their own index |
| `Grid.BordersKeepInterior` | src/team/unnamed/gui/core/gui/type/GUIBuilderLayout.java:93-96 | every interior slot (row in `[2, rows-1]`, column in `[2, 8]`) keeps its old content |
| `Layout.Builder.SetItems` | src/team/unnamed/gui/core/gui/type/GUIBuilderLayout.java:102-108 | installs a fresh array equal to the given list, of the list's length; hooks and flag unchanged |
| `Layout.Builder.AddItem` | src/team/unnamed/gui/core/gui/type/GUIBuilderLayout.java:111-117 | needs the item's slot inside the array; stores the item itself there, and no other slot changes |
| `Layout.Builder.AddItemToSlots` | src/team/unnamed/gui/core/gui/type/GUIBuilderLayout.java:120-128 | needs every listed slot inside the array; leaves exactly `SlotsAdded(old items, item, positions)` |
| `Grid.SlotsAdded` | src/team/unnamed/gui/core/gui/type/GUIBuilderLayout.java:123-125 | placing at listed slots never changes the number of slots |
| `Grid.SlotsAddedAt` | src/team/unnamed/gui/core/gui/type/GUIBuilderLayout.java:120-128 | every listed slot `j`, repeated ones included, holds `item.(slot := j)`; unlisted slots are unchanged |
| `Grid.RangeFilledAligned` | src/team/unnamed/gui/core/gui/type/GUIBuilderLayout.java:53 | a range fill keeps every occupied slot holding an item that reports that slot |
| `Grid.ColumnFilledAligned` | src/team/unnamed/gui/core/gui/type/GUIBuilderLayout.java:81 | a column fill keeps that alignment |
| `Grid.BordersFilledAligned` | src/team/unnamed/gui/core/gui/type/GUIBuilderLayout.java:88-99 | a border fill keeps that alignment |
| `Grid.SlotsAddedAligned` | src/team/unnamed/gui/core/gui/type/GUIBuilderLayout.java:123-125 | placing clones at listed slots keeps that alignment |
| `Grid.AddedAligned` | src/team/unnamed/gui/core/gui/type/GUIBuilderLayout.java:114 | storing an item at its own slot keeps that alignment |
| `Layout.Builder.OpenAction` | src/team/unnamed/gui/core/gui/type/GUIBuilderLayout.java:131-135 | assigns the open hook (`None` clears it); items, close hook and flag unchanged |
| `Layout.Builder.CloseAction` | src/team/unnamed/gui/core/gui/type/GUIBuilderLayout.java:138-142 | assigns the close hook (`None` clears it); items, open hook and flag unchanged |
| `Layout.Builder.ToggleClick` | src/team/unnamed/gui/core/gui/type/GUIBuilderLayout.java:145-149 | negates `cancelClick`; items and hooks unchanged |
| `Layout.ToggleTwice` | src/team/unnamed/gui/core/gui/type/GUIBuilderLayout.java:145-149 | toggling twice restores the original flag |
| `Layout.Builder.Snapshot` | src/team/unnamed/gui/core/gui/type/GUIBuilderLayout.java:153-154 | the descriptor carries the builder's title, slot count, hooks and flag, and an element-wise copy of the items |
| `Render.Rendered` | src/team/unnamed/gui/core/gui/type/GUIBuilderLayout.java:162-168 | the built inventory has a slot exactly when the factory's inventory had it or some occupied slot's item reports it |
| `Layout.Builder.Build` | src/team/unnamed/gui/core/gui/type/GUIBuilderLayout.java:152-171 | the factory sees the builder's title, slot count, hooks, flag and a copy of the items. If it yields nothing, so does `build`. Otherwise the result is that inventory with each occupied slot's stack written at the slot its item reports, in index order. The items are only read. |
| `Render.RenderedLastWins` | src/team/unnamed/gui/core/gui/type/GUIBuilderLayout.java:162-168 | an item that no later item overwrites shows its stack at its own slot in the built inventory |
| `Render.RenderedUntouched` | src/team/unnamed/gui/core/gui/type/GUIBuilderLayout.java:162-168 | a slot that no item reports keeps the factory's content (present exactly when it was) |
| `Render.RenderedAligned` | src/team/unnamed/gui/core/gui/type/GUIBuilderLayout.java:162-168 | on an aligned grid the inventory is the factory's contents overlaid with every occupied slot's stack, and nothing else |
| `Render.RenderedEmpty` | src/team/unnamed/gui/core/gui/type/GUIBuilderLayout.java:162-165 | with every slot empty the factory's inventory comes back unchanged |
| `Layout.BuildFresh` | src/team/unnamed/gui/core/gui/type/GUIBuilderLayout.java:152-160 | building a fresh builder shows the factory exactly the given title, `rows * 9` empty slots, no hooks and cancelled clicks, and returns the factory's answer unchanged |

## Left out

- Java's 32-bit `int` is not modelled. `rows * 9` and the index arithmetic are unbounded integers. A row count large enough to overflow `rows * 9` is not captured.
- Exceptions are not modelled. A call that would throw (a null argument, a row or column out of range, an index outside the array) is excluded by a precondition, or, for a null argument, by typing. In particular, the slots a Java loop writes before an `ArrayIndexOutOfBoundsException` are not modelled.
- `GUIFactory.create` and `SimpleGUIData` are not part of this model. The factory is an arbitrary function parameter, and `GuiData` only holds the descriptor's fields.
- The Bukkit types are not part of this model. `Inventory` is a map from slot to stack, and `ItemStack` is the type parameter `S`. `Inventory.setItem` rejecting a slot outside the inventory is not modelled. Neither is the click behaviour of `ItemClickable`, which `build` never uses. The event types are folded into the opaque hook types `O` and `C`.
- Object identity and aliasing of items and inventories are not modelled. Items and inventories are values. So "each slot gets its own clone" is shown as slot-index equality, not as distinct objects.
- `back()` and the self-typed generic parameter `T` are left out. They are a way of typing chained calls and have no behaviour.

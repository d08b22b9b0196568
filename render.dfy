/** Building a panel: the descriptor handed to the factory, and how the
    items are then drawn into the inventory the factory created. The
    inventory is a map from slot to stack; the factory's own contents are
    whatever it put there. */
module Render {
  import opened Wrappers
  import opened Grid

  /** The snapshot passed to the factory (`SimpleGUIData`). */
  datatype GuiData<S, O, C> = GuiData(
    title: string,
    slots: int,
    items: Cells<S>,
    openAction: Option<O>,
    closeAction: Option<C>,
    cancelClick: bool)

  /** The inventory after `setItem(item.slot, item.stack)` for every occupied
      slot of `s`, in index order. */
  function Rendered<S>(inv: map<int, S>, s: Cells<S>): (r: map<int, S>)
    ensures forall k :: k in r <==>
              k in inv || exists i :: 0 <= i < |s| && s[i].Some? && s[i].value.slot == k
    decreases |s|
  {
    if s == [] then inv
    else
      var before := Rendered(inv, s[..|s| - 1]);
      match s[|s| - 1]
      case None => before
      case Some(it) => before[it.slot := it.stack]
  }

  /** A slot that no item of `s` reports keeps what the factory put there. */
  lemma {:induction false} RenderedUntouched<S>(inv: map<int, S>, s: Cells<S>, k: int)
    requires forall i | 0 <= i < |s| :: s[i].None? || s[i].value.slot != k
    ensures k in Rendered(inv, s) <==> k in inv
    ensures k in inv ==> Rendered(inv, s)[k] == inv[k]
    decreases |s|
  {
    if s != [] {
      RenderedUntouched(inv, s[..|s| - 1], k);
    }
  }

  /** An item that no later item overwrites shows its stack at its own slot. */
  lemma {:induction false} RenderedLastWins<S>(inv: map<int, S>, s: Cells<S>, i: int)
    requires 0 <= i < |s| && s[i].Some?
    requires forall j | i < j < |s| :: s[j].None? || s[j].value.slot != s[i].value.slot
    ensures s[i].value.slot in Rendered(inv, s)
    ensures Rendered(inv, s)[s[i].value.slot] == s[i].value.stack
    decreases |s|
  {
    if i < |s| - 1 {
      RenderedLastWins(inv, s[..|s| - 1], i);
    }
  }

  /** On an aligned grid (what fills and `AddItem` keep, starting from a fresh builder) the inventory is exactly the
      factory's contents overlaid with each occupied slot's stack. */
  lemma {:induction false} RenderedAligned<S>(inv: map<int, S>, s: Cells<S>)
    requires Aligned(s)
    ensures forall k :: k in Rendered(inv, s) <==> k in inv || (0 <= k < |s| && s[k].Some?)
    ensures forall k | 0 <= k < |s| && s[k].Some? :: Rendered(inv, s)[k] == s[k].value.stack
    ensures forall k | k in inv && !(0 <= k < |s| && s[k].Some?) :: Rendered(inv, s)[k] == inv[k]
  {
    forall k | 0 <= k < |s| && s[k].Some?
      ensures k in Rendered(inv, s) && Rendered(inv, s)[k] == s[k].value.stack
    {
      RenderedLastWins(inv, s, k);
    }
    forall k | !(0 <= k < |s| && s[k].Some?)
      ensures k in Rendered(inv, s) <==> k in inv
      ensures k in inv ==> Rendered(inv, s)[k] == inv[k]
    {
      RenderedUntouched(inv, s, k);
    }
  }

  /** A grid with no occupied slot leaves the factory's inventory as it was. */
  lemma {:induction false} RenderedEmpty<S>(inv: map<int, S>, n: nat)
    ensures Rendered(inv, seq(n, _ => None)) == inv
  {
    var s: Cells<S> := seq(n, _ => None);
    forall k ensures k in Rendered(inv, s) <==> k in inv {
      RenderedUntouched(inv, s, k);
    }
    forall k | k in inv ensures Rendered(inv, s)[k] == inv[k] {
      RenderedUntouched(inv, s, k);
    }
  }
}

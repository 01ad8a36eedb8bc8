/** The plain variant of the application: `App`, `ItemPane` and `SelectionView`
    with the two context cells read as fields of one object. */
module Components {
  import opened Items
  import opened StateMachine
  import opened Summary

  /** The two signals `App` provides as context to every component. */
  class AppState {
    /** `ExistingItems`: the identifiers in display order. */
    var items: seq<nat>
    /** `SelectedItem`: the highlighted identifier, if any. */
    var selectedItem: Option<nat>

    /** The abstract value of the two cells. */
    ghost function Cells(): State
      reads this
    {
      State(items, selectedItem)
    }

    /** `App`: pushes 0, 1, 2, 3 into a fresh vector and selects its first element. */
    constructor ()
      ensures items == [0, 1, 2, 3] && selectedItem == Some(0)
      ensures Cells() == Initial
      ensures Invariant(Cells())
    {
      var v: seq<nat> := [];
      var source: seq<nat> := [0, 1, 2, 3];
      for i := 0 to |source|
        invariant v == source[..i]
      {
        v := v + [source[i]];
      }
      selectedItem := Some(v[0]);
      items := v;
      InitialInvariant();
    }

    /** `is_this_selected` of the row showing `item`. */
    function IsThisSelected(item: nat): (b: bool)
      reads this
      ensures b <==> selectedItem == Some(item)
      ensures selectedItem.None? ==> !b
    {
      match selectedItem
      case Some(s) => item == s
      case None => false
    }

    /** `set_this_selected`: a click on the row body. */
    method SetThisSelected(item: nat)
      modifies this
      ensures selectedItem == Some(item) && items == old(items)
      ensures Cells() == Select(old(Cells()), item)
      ensures old(Invariant(Cells())) && item in items ==> Invariant(Cells())
    {
      selectedItem := Some(item);
    }

    /** `close_this`: a click on the row's close control. The event is stopped
        from bubbling to the row body, so `SetThisSelected` does not follow. */
    method CloseThis(item: nat)
      modifies this
      ensures items == Without(old(items), item)
      ensures item !in items && IsSubsequence(items, old(items))
      ensures selectedItem == if old(selectedItem) == Some(item) then None else old(selectedItem)
      ensures selectedItem != Some(item)
      ensures Cells() == Close(old(Cells()), item)
      ensures old(Invariant(Cells())) ==> Invariant(Cells())
    {
      ghost var before := Cells();
      items := Retain(items, item);
      if IsThisSelected(item) {
        selectedItem := None;
      }
      WithoutSubsequence(before.items, item);
      if Invariant(before) {
        CloseKeepsInvariant(before, item);
      }
    }

    /** `SelectionView`: the `Show` evaluated once on the current state. Here
        the child, with its `unwrap`, is evaluated only after the guard
        `is_some()` has held. */
    function SelectionView(): (text: string)
      reads this
      ensures text == NoneText <==> selectedItem.None?
      ensures forall x: nat :: text == SomeText(x) <==> selectedItem == Some(x)
    {
      SomeTextInjective();
      if selectedItem.Some? then SomeText(selectedItem.value) else NoneText
    }
  }
}

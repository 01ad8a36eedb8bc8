/** The logging variant of the application. Its handlers and views do what
    those in `Components` do and, in addition, write console lines; here each
    operation returns the lines it writes, in order, as `log`. The state
    contracts are the same as in `Components`, so the logging changes nothing. */
module ComponentsWithLogging {
  import opened Items
  import opened StateMachine
  import opened Summary

  /** The two signals `App` provides as context to every component. */
  class AppState {
    /** `ExistingItems`: the identifiers in display order. */
    var items: seq<nat>
    /** `SelectedItem`: the highlighted identifier, if any. */
    var selectedItem: Option<nat>

    /** The abstract value of the two cells. */
    ghost function Cells(): State
      reads this
    {
      State(items, selectedItem)
    }

    /** `App`: pushes 0, 1, 2, 3 into a fresh vector and selects its first element. */
    constructor ()
      ensures items == [0, 1, 2, 3] && selectedItem == Some(0)
      ensures Cells() == Initial
      ensures Invariant(Cells())
    {
      var v: seq<nat> := [];
      var source: seq<nat> := [0, 1, 2, 3];
      for i := 0 to |source|
        invariant v == source[..i]
      {
        v := v + [source[i]];
      }
      selectedItem := Some(v[0]);
      items := v;
      InitialInvariant();
    }

    /** `is_this_selected` of the row showing `item` (it logs nothing). */
    function IsThisSelected(item: nat): (b: bool)
      reads this
      ensures b <==> selectedItem == Some(item)
      ensures selectedItem.None? ==> !b
    {
      match selectedItem
      case Some(s) => item == s
      case None => false
    }

    /** `set_this_selected`: logs the new selection, then sets it. */
    method SetThisSelected(item: nat) returns (log: seq<string>)
      modifies this
      ensures selectedItem == Some(item) && items == old(items)
      ensures Cells() == Select(old(Cells()), item)
      ensures old(Invariant(Cells())) && item in items ==> Invariant(Cells())
      ensures log == ["Setting selected item to " + Decimal(item)]
    {
      log := ["Setting selected item to " + Decimal(item)];
      selectedItem := Some(item);
    }

    /** `close_this`: logs the close, stops the click from bubbling to the row
        body (so `SetThisSelected` does not follow), retains every other item
        and, if this row was selected, logs and clears the selection. */
    method CloseThis(item: nat) returns (log: seq<string>)
      modifies this
      ensures items == Without(old(items), item)
      ensures item !in items && IsSubsequence(items, old(items))
      ensures selectedItem == if old(selectedItem) == Some(item) then None else old(selectedItem)
      ensures selectedItem != Some(item)
      ensures Cells() == Close(old(Cells()), item)
      ensures old(Invariant(Cells())) ==> Invariant(Cells())
      ensures log == ["Closing item " + Decimal(item)]
                     + if old(selectedItem) == Some(item) then ["Setting selected item to None"] else []
    {
      ghost var before := Cells();
      log := ["Closing item " + Decimal(item)];
      items := Retain(items, item);
      if IsThisSelected(item) {
        log := log + ["Setting selected item to None"];
        selectedItem := None;
      }
      WithoutSubsequence(before.items, item);
      if Invariant(before) {
        CloseKeepsInvariant(before, item);
      }
    }

    /** The `when` closure of the `Show`: its result is exactly `is_some()`;
        the `unwrap` in its log line runs only in the `is_some` branch. */
    method When() returns (isSome: bool, log: seq<string>)
      ensures isSome <==> selectedItem.Some?
      ensures log == ["Checking if item is selected...",
                      match selectedItem
                      case Some(x) => "Selected item is Some(" + Decimal(x) + ")"
                      case None => "Selected item is None"]
    {
      log := ["Checking if item is selected..."];
      var item := selectedItem;
      isSome := item.Some?;
      if isSome {
        log := log + ["Selected item is Some(" + Decimal(item.value) + ")"];
      } else {
        log := log + ["Selected item is None"];
      }
    }

    /** The `fallback` of the `Show`. */
    method Fallback() returns (text: string, log: seq<string>)
      ensures text == NoneText
      ensures log == ["Updating displayed item...", "Set displayed item to None"]
    {
      log := ["Updating displayed item...", "Set displayed item to None"];
      text := "No item selected";
    }

    /** The reactive child of the `Show` that displays the selected identifier.
        Its `unwrap` needs a selection; in this model it is evaluated only
        after the `when` guard has held (see `SelectionView`). */
    method Child() returns (shown: nat, log: seq<string>)
      requires selectedItem.Some?
      ensures selectedItem == Some(shown)
      ensures log == ["Updating displayed item...", "Set displayed item to " + Decimal(shown)]
    {
      log := ["Updating displayed item..."];
      shown := selectedItem.value;
      log := log + ["Set displayed item to " + Decimal(shown)];
    }

    /** `SelectionView`, evaluated once on the current state: the guard, then
        either the fallback or "Item ", the child and " is selected". Whatever
        is logged, the text is the one the plain variant renders. */
    method SelectionView() returns (text: string, log: seq<string>)
      ensures text == NoneText <==> selectedItem.None?
      ensures forall x: nat :: text == SomeText(x) <==> selectedItem == Some(x)
      ensures log == ["Checking if item is selected...",
                      match selectedItem
                      case Some(x) => "Selected item is Some(" + Decimal(x) + ")"
                      case None => "Selected item is None",
                      "Updating displayed item...",
                      match selectedItem
                      case Some(x) => "Set displayed item to " + Decimal(x)
                      case None => "Set displayed item to None"]
    {
      SomeTextInjective();
      var shown, whenLog := When();
      if shown {
        var x, childLog := Child();
        text := "Item " + Decimal(x) + " is selected";
        assert text == SomeText(x);
        log := whenLog + childLog;
      } else {
        var fallbackLog;
        text, fallbackLog := Fallback();
        log := whenLog + fallbackLog;
      }
    }
  }
}

# Item selection and removal in leptos-show-problem

The application shows a list of numbered items, `[0, 1, 2, 3]` at start-up with
item 0 selected. Clicking a row selects its item; clicking the row's close
button removes the item from the list and, if it was the selected one, clears
the selection. A summary line above the list reads "No item selected" or
"Item x is selected". Two near-identical versions of the components exist:
`src/components.rs` and `src/components_with_logging.rs`, which also writes a
console line at each step.

The model reads the two Leptos signals provided as context, `ExistingItems`
(`Vec<usize>`) and `SelectedItem` (`Option<usize>`), as the two fields of a
class `AppState`, one class per source file:

- `items.dfy` (module `Items`): the item list and `Vec::retain(|i| *i != item)`,
  specified by the filter function `Without` and modelled by the loop `Retain`;
  lemmas that the filter drops exactly the closed item, keeps everything else in
  order, is idempotent and cannot create duplicates.
- `state_machine.dfy` (module `StateMachine`): the pair of cells as a value
  `State`, the start state, the two transitions `Select` and `Close`, sequences
  of user actions, and the invariant every reachable state satisfies.
- `summary.dfy` (module `Summary`): the two texts `SelectionView` can render and
  the decimal formatting of an identifier, with the proof that the text names
  exactly one selection.
- `components.dfy` (module `Components`): `App`, the `ItemPane` closures and
  `SelectionView` of the plain version, each method proved to follow
  `StateMachine`.
- `components_with_logging.dfy` (module `ComponentsWithLogging`): the same with
  logging. Each operation returns the console lines it writes as `log`; its
  state contracts are those of the plain version word for word, so the logging
  has no effect on the state or on the rendered text.

Identifiers are `usize` in the source; nothing computes with them, so they are
`nat` here.

## Model

| member | source | states |
|---|---|---|
| Items.Without | src/components.rs:27 | after retaining every element other than `x`, the value `x` occurs nowhere in the list, and the list is no longer |
| Items.Retain | src/components.rs:27 | the retain loop, run over the vector, leaves exactly the filtered sequence `Without(v, item)` |
| Items.WithoutConcat | src/components.rs:27 | filtering a concatenation is the concatenation of the filtered parts, so the filter is decided element by element |
| Items.WithoutAbsent | src/components.rs:27 | closing an item that is not in the list leaves the list unchanged |
| Items.WithoutIdempotent | src/components.rs:27 | removing the same item twice equals removing it once |
| Items.WithoutMultiset | src/components.rs:27 | every copy of the closed item goes and every other value keeps its number of copies |
| Items.WithoutMembers | src/components.rs:27 | a value is in the result exactly when it was in the list and is not the closed item |
| Items.WithoutSubsequence | src/components.rs:27 | the remaining elements keep their relative order (the result is a subsequence of the old list) |
| Items.WithoutUnique | src/components.rs:27 | the order-preserving subsequence without `x` that keeps every other element is unique and equals `Without(s, x)` |
| Items.WithoutDistinct | src/components.rs:27 | a duplicate-free list stays duplicate-free after a removal |
| StateMachine.Select | src/components.rs:21-23 | a click on a row body makes that item the selection whatever it was and leaves the list untouched |
| StateMachine.Close | src/components.rs:25-31 | a click on a close control leaves exactly the filtered list `Without(s.items, x)` (so it removes the item and nothing else: membership is the old list minus the item, order kept), resets the selection to `None` when it was the closed item, and keeps a selection of another item |
| StateMachine.Apply | src/components.rs:21-31 | one gesture never adds to or reorders the list; a close removes its item; a click selects its item |
| StateMachine.Run | src/components.rs:21-31 | along any sequence of gestures on displayed rows the list only shrinks (a subsequence of the start) and every closed item stays closed |
| Summary.SomeText | src/components.rs:69-71 | the child text is "Item ", then exactly `Decimal(x)` (the shortest decimal form, as `{}` prints it), then " is selected"; the digits read back as the identifier, and the text differs from the fallback `NoneText` ("No item selected", src/components.rs:64-66) |
| StateMachine.InitialInvariant | src/components.rs:86-90 | the start state `[0,1,2,3]` with `Some(0)` selected satisfies the invariant: no duplicates, a subsequence of the initial list, the selection is listed |
| StateMachine.CloseKeepsInvariant | src/components.rs:25-31 | closing any row keeps the invariant and leaves a subsequence of the previous list |
| StateMachine.SelectKeepsInvariant | src/components.rs:21-23 | selecting a listed row keeps the invariant |
| StateMachine.RunKeepsInvariant | src/components.rs:21-31 | every sequence of clicks on displayed rows and their close buttons preserves the invariant |
| StateMachine.Reachable | src/components.rs:86-90 | every state reachable from start-up has distinct items forming a subsequence of `[0,1,2,3]`, and a selected item is listed |
| StateMachine.Scenario | src/components.rs:21-31 | from start-up, select 2, close 0, close 2 gives `[0,1,2,3]`/`Some(2)`, then `[1,2,3]`/`Some(2)`, then `[1,3]`/`None` |
| Summary.Decimal | src/components.rs:70 | an identifier is displayed as a non-empty run of decimal digits without a leading zero |
| Summary.DecimalRoundTrip | src/components.rs:70 | the displayed digits read back as the identifier, so distinct identifiers display differently |
| Summary.SomeTextInjective | src/components.rs:61-73 | "Item x is selected" is never "No item selected", and it determines `x` |
| Components.AppState.constructor | src/components.rs:86-90 | the push loop builds `[0,1,2,3]`, the selection is `Some(items[0]) == Some(0)`, and the invariant holds |
| Components.AppState.IsThisSelected | src/components.rs:9-19 | true exactly when the selection is `Some(item)`; false when nothing is selected |
| Components.AppState.SetThisSelected | src/components.rs:21-23 | the selection becomes `Some(item)` whatever it was, the list is untouched, and selecting a listed item keeps the invariant |
| Components.AppState.CloseThis | src/components.rs:25-31 | the list becomes the filtered, order-preserving subsequence without `item`; the selection becomes `None` if it was `item` and is unchanged otherwise, so `item` is never left selected; the invariant is kept |
| Components.AppState.SelectionView | src/components.rs:61-73 | the text is "No item selected" iff nothing is selected and "Item x is selected" iff `x` is selected; in the model, the child with its `unwrap` is evaluated only after the `is_some` guard holds |
| ComponentsWithLogging.AppState.constructor | src/components_with_logging.rs:114-118 | the push loop builds `[0,1,2,3]`, the selection is `Some(0)`, and the invariant holds |
| ComponentsWithLogging.AppState.IsThisSelected | src/components_with_logging.rs:9-19 | true exactly when the selection is `Some(item)` |
| ComponentsWithLogging.AppState.SetThisSelected | src/components_with_logging.rs:21-24 | the same state change as the plain version; the only log line is "Setting selected item to {item}" |
| ComponentsWithLogging.AppState.CloseThis | src/components_with_logging.rs:26-41 | the same state change as the plain version (filtered list, selection cleared only if it was `item`); logs "Closing item {item}" and, only when clearing, "Setting selected item to None" |
| ComponentsWithLogging.AppState.When | src/components_with_logging.rs:72-82 | the guard returns exactly `selected.is_some()`; its log lines name the selection and do not affect the result |
| ComponentsWithLogging.AppState.Fallback | src/components_with_logging.rs:84-88 | the fallback renders "No item selected" and logs its two lines |
| ComponentsWithLogging.AppState.Child | src/components_with_logging.rs:92-97 | given a selection, the child displays the selected identifier and logs its two lines; in the model it is evaluated only after the guard holds |
| ComponentsWithLogging.AppState.SelectionView | src/components_with_logging.rs:70-101 | the rendered text is "No item selected" iff nothing is selected and "Item x is selected" iff `x` is selected, the same as the plain version; in the model the child is evaluated only after the guard holds, and the log is the guard's lines followed by those of the branch taken, for one evaluation |

## Left out

- Leptos reactivity (`RwSignal`, `provide_context`/`expect_context`, re-running
  closures when a signal changes, `Show` and `For`): the signals are plain fields
  and each view is a function or method evaluated on the current state.
- Event handling: `MouseEvent` and `stop_propagation` are browser semantics. The
  model records only their effect, that a click on a close button is not followed
  by the row's own select handler (`Close` is never followed by a `Select` for
  the same click).
- ComponentsWithLogging.AppState.Child: its `requires` asks for a selection, so the panic of `unwrap` on `None` is not modelled; neither is the framework's order of re-running the `when` closure and the child after `selected_item.set(None)`. Both `SelectionView`s (`Components.AppState.SelectionView` and `ComponentsWithLogging.AppState.SelectionView`) evaluate the guard once and then one branch on the current state, and the log order stated is the order of one such evaluation.
- Rendering: the `view!` markup, the row label `Item {item}`, the `selected` CSS
  class and the keyed list projection of `ItemsView` are UI output.
- The console: `logging::log!` is I/O; the logging variant returns the lines it
  would write instead of writing them.
- `src/main.rs`: installing the panic hook and mounting `App` are start-up glue.
- `Vec::retain` updates the vector's buffer in place; `Retain` computes the kept
  elements into a new sequence that then replaces the field, so buffer-level
  compaction is not modelled.
- Identifiers are unbounded `nat`, not the fixed-width `usize` (32 bits on the
  wasm32 target the app is built for); no operation does arithmetic on them, so
  the width cannot matter.
- Rows exist only for listed items: `ItemsView` creates one `ItemPane`, and so
  one pair of click handlers, per element of `items` (src/components.rs:46-52).
  The model states this as `StateMachine.Enabled`, which `Run` requires of every
  gesture; `SelectKeepsInvariant` and the "a selected item is listed" part of
  the invariant rest on it. The class methods themselves accept any identifier.
- `close_this` evaluates `is_this_selected()` after the `retain`; since `retain`
  does not touch the selection, this is the same as testing the selection before
  removal, which is how the transition `Close` states it.

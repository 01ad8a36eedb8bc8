/** The selection and removal state machine shared by both variants of the
    application, as pure values and transitions. The classes in `Components`
    and `ComponentsWithLogging` are proved to follow it step by step. */
module StateMachine {
  import opened Items

  /** The values held by the two context cells: `ExistingItems` and `SelectedItem`. */
  datatype State = State(items: seq<nat>, selected: Option<nat>)

  /** The list `App` builds at start-up. */
  const InitialItems: seq<nat> := [0, 1, 2, 3]

  /** The state `App` provides: the list above with its first element selected. */
  const Initial: State := State(InitialItems, Some(InitialItems[0]))

  /** A click on the body of row `x` (`set_this_selected`): `x` becomes the
      selection whatever it was, and the list is not touched. */
  function Select(s: State, x: nat): (t: State)
    ensures t.selected == Some(x) && t.items == s.items
  {
    State(s.items, Some(x))
  }

  /** A click on the close control of row `x` (`close_this`): retain everything
      but `x`, then clear the selection if it was `x`. The handler stops the
      click from bubbling to the row body, so no `Select` follows it. */
  function Close(s: State, x: nat): (t: State)
    ensures t.items == Without(s.items, x)
    ensures x !in t.items && IsSubsequence(t.items, s.items)
    ensures forall y :: y in t.items <==> y in s.items && y != x
    ensures t.selected != Some(x)
    ensures s.selected == Some(x) ==> t.selected == None
    ensures s.selected != Some(x) ==> t.selected == s.selected
  {
    WithoutSubsequence(s.items, x);
    WithoutMembers(s.items, x);
    State(Without(s.items, x), if s.selected == Some(x) then None else s.selected)
  }

  /** The user's two gestures on the rendered list. */
  datatype Action = Click(item: nat) | CloseClick(item: nat)

  /** A row, and with it both of its handlers, exists only for a listed item. */
  predicate Enabled(s: State, a: Action)
  {
    a.item in s.items
  }

  /** The effect of one gesture: the list never gains an element or changes
      order, and a closed item is gone from it. */
  function Apply(s: State, a: Action): (t: State)
    ensures IsSubsequence(t.items, s.items)
    ensures a.CloseClick? ==> a.item !in t.items
    ensures a.Click? ==> t.selected == Some(a.item)
  {
    match a
    case Click(x) => SubsequenceReflexive(s.items); Select(s, x)
    case CloseClick(x) => Close(s, x)
  }

  /** Performs the actions in order; `None` if one of them targets a row that
      is not on screen. The list only shrinks along the way, and an item that
      was closed never comes back. */
  function Run(s: State, acts: seq<Action>): (r: Option<State>)
    ensures r.Some? ==> IsSubsequence(r.value.items, s.items)
    ensures r.Some? ==> forall i | 0 <= i < |acts| && acts[i].CloseClick? :: acts[i].item !in r.value.items
    decreases |acts|
  {
    if acts == [] then
      SubsequenceReflexive(s.items);
      Some(s)
    else if !Enabled(s, acts[0]) then None
    else
      var t := Apply(s, acts[0]);
      var r := Run(t, acts[1..]);
      if r.Some? then
        SubsequenceTransitive(r.value.items, t.items, s.items);
        ClosedStaysClosed(r.value.items, t.items, acts);
        r
      else r
  }

  /** Helper for `Run`: the first action's closed item is not in `t`, the later
      ones' are not in `u`, and `u` is a subsequence of `t`. */
  lemma ClosedStaysClosed(u: seq<nat>, t: seq<nat>, acts: seq<Action>)
    requires acts != [] && IsSubsequence(u, t)
    requires acts[0].CloseClick? ==> acts[0].item !in t
    requires forall i | 0 <= i < |acts[1..]| && acts[1..][i].CloseClick? :: acts[1..][i].item !in u
    ensures forall i | 0 <= i < |acts| && acts[i].CloseClick? :: acts[i].item !in u
  {
    SubsequenceMultiset(u, t);
    forall i | 0 <= i < |acts| && acts[i].CloseClick?
      ensures acts[i].item !in u
    {
      if i == 0 {
        assert multiset(t)[acts[0].item] == 0;
      } else {
        assert acts[i] == acts[1..][i - 1];
      }
    }
  }

  /** What every reachable state satisfies: the list holds no duplicates, is what
      is left of the initial list after deletions (so it only ever shrinks and
      never reorders), and a selected item is one that is still listed. */
  ghost predicate Invariant(s: State)
  {
    && Distinct(s.items)
    && IsSubsequence(s.items, InitialItems)
    && (s.selected.Some? ==> s.selected.value in s.items)
  }

  lemma InitialInvariant()
    ensures Invariant(Initial)
  {
    SubsequenceReflexive(InitialItems);
  }

  /** Closing any row keeps the invariant, and leaves a subsequence of the
      previous list. */
  lemma CloseKeepsInvariant(s: State, x: nat)
    requires Invariant(s)
    ensures Invariant(Close(s, x))
    ensures IsSubsequence(Close(s, x).items, s.items)
  {
    WithoutDistinct(s.items, x);
    SubsequenceTransitive(Close(s, x).items, s.items, InitialItems);
  }

  /** Selecting a listed row keeps the invariant. */
  lemma SelectKeepsInvariant(s: State, x: nat)
    requires Invariant(s) && x in s.items
    ensures Invariant(Select(s, x))
  {
  }

  /** The invariant holds after every sequence of actions the user can perform,
      in particular from the initial state. */
  lemma {:induction false} RunKeepsInvariant(s: State, acts: seq<Action>)
    requires Invariant(s)
    ensures Run(s, acts).Some? ==> Invariant(Run(s, acts).value)
    decreases |acts|
  {
    if acts != [] && Enabled(s, acts[0]) {
      match acts[0] {
        case Click(x) => SelectKeepsInvariant(s, x);
        case CloseClick(x) => CloseKeepsInvariant(s, x);
      }
      RunKeepsInvariant(Apply(s, acts[0]), acts[1..]);
    }
  }

  lemma Reachable(acts: seq<Action>)
    ensures Run(Initial, acts).Some? ==> Invariant(Run(Initial, acts).value)
  {
    InitialInvariant();
    RunKeepsInvariant(Initial, acts);
  }

  /** The walk-through: select row 2, close row 0, close row 2. */
  lemma Scenario()
    ensures Run(Initial, [Click(2)]) == Some(State([0, 1, 2, 3], Some(2)))
    ensures Run(Initial, [Click(2), CloseClick(0)]) == Some(State([1, 2, 3], Some(2)))
    ensures Run(Initial, [Click(2), CloseClick(0), CloseClick(2)]) == Some(State([1, 3], None))
  {
    assert Without([0, 1, 2, 3], 0) == [1, 2, 3] by {
      assert [0, 1, 2, 3][1..] == [1, 2, 3];
      assert [1, 2, 3][1..] == [2, 3] && [2, 3][1..] == [3] && [3][1..] == [];
    }
    assert Without([1, 2, 3], 2) == [1, 3] by {
      assert [1, 2, 3][1..] == [2, 3] && [2, 3][1..] == [3] && [3][1..] == [];
    }
    var acts := [Click(2), CloseClick(0), CloseClick(2)];
    assert acts[1..] == [CloseClick(0), CloseClick(2)];
    assert acts[1..][1..] == [CloseClick(2)];
    assert [Click(2), CloseClick(0)][1..] == [CloseClick(0)];
  }
}

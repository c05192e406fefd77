/**
 * The stop input with suggestions (components/AutocompleteInput.tsx): the
 * keyboard navigation over the suggestion list and the reaction to a new
 * input value. `value` is the prop the parent passes down; what the
 * component hands to the parent's `onChange` is the result of the handler
 * that calls it. The debounced `fetch` is outside the model: a non-empty
 * value yields the query to send, and the list that comes back is the input
 * of `ReceiveSuggestions`.
 */
module Autocomplete {
  import opened Options

  /* ---------------------------------------------------------------------- */
  /* Index arithmetic                                                        */
  /* ---------------------------------------------------------------------- */

  /**
   * JavaScript's `a % n` for `n > 0`: the remainder takes the sign of `a`
   * (truncating division), unlike Dafny's Euclidean `%`.
   */
  function JsRemainder(a: int, n: int): (r: int)
    requires n > 0
    ensures a >= 0 ==> 0 <= r < n && r == a % n
    ensures a < 0 ==> -n < r <= 0 && -r == (-a) % n
  {
    if a >= 0 then a % n else -((-a) % n)
  }

  /** The `ArrowDown` update `(prev + 1) % suggestions.length` on a non-empty list. */
  function NextIndex(i: int, n: int): (r: int)
    requires n > 0
    ensures -n < r < n
    ensures -1 <= i < n ==> 0 <= r < n
  {
    JsRemainder(i + 1, n)
  }

  /** The `ArrowUp` update: the first row goes to the last, any other index one down. */
  function PrevIndex(i: int, n: int): (r: int)
    ensures 0 <= i < n ==> 0 <= r < n
  {
    if i == 0 then n - 1 else i - 1
  }

  /** On a valid row `ArrowDown` moves one row down and wraps from the last row to the first. */
  lemma NextWraps(i: int, n: int)
    requires n > 0 && 0 <= i < n
    ensures i < n - 1 ==> NextIndex(i, n) == i + 1
    ensures i == n - 1 ==> NextIndex(i, n) == 0
  {
  }

  /** On the rows of the list `ArrowUp` undoes `ArrowDown`, and the other way round. */
  lemma PrevUndoesNext(i: int, n: int)
    requires n > 0 && 0 <= i < n
    ensures PrevIndex(NextIndex(i, n), n) == i
    ensures NextIndex(PrevIndex(i, n), n) == i
  {
    if i == n - 1 {
      assert NextIndex(i, n) == 0;
    } else {
      assert NextIndex(i, n) == i + 1;
    }
    if i == 0 {
      assert NextIndex(n - 1, n) == 0;
    }
  }

  /**
   * From the initial "no row" index -1, `ArrowUp` does not reach the last
   * row: it goes to -2, and `ArrowDown` from there goes back to -1 on a list
   * of two or more rows; no row is active in either state.
   */
  lemma ArrowUpFromNoRow(n: int)
    requires n > 1
    ensures PrevIndex(-1, n) == -2
    ensures NextIndex(-2, n) == -1
  {
    assert JsRemainder(-1, n) == -(1 % n);
  }

  /* ---------------------------------------------------------------------- */
  /* The component                                                           */
  /* ---------------------------------------------------------------------- */

  /** One entry of the stops endpoint's answer; only `id` (the list key) and `stop_name` are read. */
  datatype Suggestion = Suggestion(id: int, stop_name: string)

  /** What a key press does beyond the component's own state. */
  datatype KeyOutcome =
    | Ignored                  // nothing handled; the browser's default action proceeds
    | Moved                    // the active row changed
    | Chosen(name: string)     // `onChange(name)` was called
    | Thrown                   // `suggestions[activeIndex]` is undefined: a TypeError

  class AutocompleteInput {
    var value: string
    var suggestions: seq<Suggestion>
    var activeIndex: int
    var isOpen: bool

    /**
     * The `useState` initial values, with the parent's value. React also runs
     * the `[value]` effect on mount, so mounting is this constructor followed
     * by `ValueChanged(initial)`, which sends a lookup for a non-empty value.
     */
    constructor(initial: string)
      ensures value == initial && suggestions == [] && activeIndex == -1 && !isOpen
    {
      value, suggestions, activeIndex, isOpen := initial, [], -1, false;
    }

    /**
     * The effect on a new `value`: an empty value empties and closes the
     * list at once; any other value is looked up (the returned query), and
     * the list is left as it is until the answer arrives.
     */
    method ValueChanged(newValue: string) returns (query: Option<string>)
      modifies this
      ensures value == newValue && activeIndex == old(activeIndex)
      ensures query.None? <==> newValue == ""
      ensures newValue == "" ==> suggestions == [] && !isOpen
      ensures newValue != "" ==> query == Some(newValue) && suggestions == old(suggestions) && isOpen == old(isOpen)
    {
      value := newValue;
      if newValue == "" {
        suggestions := [];
        isOpen := false;
        return None;
      }
      query := Some(newValue);
    }

    /** The lookup answered: the list shows the answer and opens; the active index is kept. */
    method ReceiveSuggestions(data: seq<Suggestion>)
      modifies this
      ensures suggestions == data && isOpen
      ensures value == old(value) && activeIndex == old(activeIndex)
    {
      suggestions := data;
      isOpen := true;
    }

    /**
     * `handleKeyDown`. A closed list ignores every key. `ArrowDown` and
     * `ArrowUp` move the active index; `Enter` on a non-negative index hands
     * that row's name to `onChange` and closes the list, or throws when the
     * index is past the end of the current list; `Enter` with no active row
     * and every other key are ignored.
     */
    method HandleKeyDown(key: string) returns (outcome: KeyOutcome)
      requires isOpen && key == "ArrowDown" ==> |suggestions| > 0
      modifies this
      ensures value == old(value) && suggestions == old(suggestions)
      ensures !old(isOpen) ==> outcome == Ignored && activeIndex == old(activeIndex) && !isOpen
      ensures old(isOpen) && key == "ArrowDown" ==>
                outcome == Moved && activeIndex == NextIndex(old(activeIndex), |suggestions|) && isOpen
      ensures old(isOpen) && key == "ArrowUp" ==>
                outcome == Moved && activeIndex == PrevIndex(old(activeIndex), |suggestions|) && isOpen
      ensures old(isOpen) && key == "Enter" && 0 <= old(activeIndex) < |suggestions| ==>
                outcome == Chosen(suggestions[old(activeIndex)].stop_name) && activeIndex == old(activeIndex) && !isOpen
      ensures old(isOpen) && key == "Enter" && old(activeIndex) >= |suggestions| ==>
                outcome == Thrown && activeIndex == old(activeIndex) && isOpen
      ensures old(isOpen) && key == "Enter" && old(activeIndex) < 0 ==>
                outcome == Ignored && activeIndex == old(activeIndex) && isOpen
      ensures old(isOpen) && key != "ArrowDown" && key != "ArrowUp" && key != "Enter" ==>
                outcome == Ignored && activeIndex == old(activeIndex) && isOpen
    {
      if !isOpen {
        return Ignored;
      }
      if key == "ArrowDown" {
        activeIndex := NextIndex(activeIndex, |suggestions|);
        outcome := Moved;
      } else if key == "ArrowUp" {
        activeIndex := PrevIndex(activeIndex, |suggestions|);
        outcome := Moved;
      } else if key == "Enter" && activeIndex >= 0 {
        if activeIndex >= |suggestions| {
          return Thrown;
        }
        outcome := Chosen(suggestions[activeIndex].stop_name);
        isOpen := false;
      } else {
        outcome := Ignored;
      }
    }

    /** A click on a listed row hands its name to `onChange` and closes the list. */
    method ClickSuggestion(i: nat) returns (name: string)
      requires isOpen && i < |suggestions|
      modifies this
      ensures value == old(value) && suggestions == old(suggestions) && activeIndex == old(activeIndex)
      ensures name == suggestions[i].stop_name && !isOpen
    {
      name := suggestions[i].stop_name;
      isOpen := false;
    }
  }
}

/** The interactive terminal of `js/script.js`: command history with an
    up/down cursor, dispatch on Enter and the ghost autocomplete accepted with
    Tab. */
module Terminal {
  import opened Strings
  import opened Shell

  /** The state the key handlers share: `commandHistory`, `historyIndex`, the
      value of the input box, `currentSuggestion` (mirrored in the ghost box)
      and the paragraphs of the output pane. */
  class Session {
    var history: seq<string>
    var historyIndex: int
    var input: string
    var suggestion: string
    var output: seq<Line>

    /** The cursor stays in [-1, |history|] and leaves -1 once a command has
        been entered; the ghost shows nothing or the suggestion for the
        current input. */
    predicate Valid()
      reads this
    {
      && -1 <= historyIndex <= |history|
      && (|history| > 0 ==> historyIndex >= 0)
      && (suggestion == "" || suggestion == Suggestion(Commands, ToLower(input)))
    }

    constructor ()
      ensures Valid()
      ensures history == [] && historyIndex == -1 && input == "" && suggestion == "" && output == []
    {
      history := [];
      historyIndex := -1;
      input := "";
      suggestion := "";
      output := [];
    }

    /** `updateGhost`: recompute the suggestion for the lower-cased input. */
    method UpdateGhost()
      requires -1 <= historyIndex <= |history| && (|history| > 0 ==> historyIndex >= 0)
      modifies this
      ensures Valid()
      ensures suggestion == Suggestion(Commands, ToLower(input))
      ensures history == old(history) && historyIndex == old(historyIndex)
      ensures input == old(input) && output == old(output)
    {
      suggestion := FindSuggestion(Commands, ToLower(input));
    }

    /** The `input` event: the box now holds `value`. */
    method Type(value: string)
      requires Valid()
      modifies this
      ensures Valid()
      ensures input == value && suggestion == Suggestion(Commands, ToLower(value))
      ensures history == old(history) && historyIndex == old(historyIndex) && output == old(output)
    {
      input := value;
      UpdateGhost();
    }

    /** Tab: take the suggestion when there is one. */
    method Tab()
      requires Valid()
      modifies this
      ensures Valid()
      ensures old(suggestion) != "" ==> input == old(suggestion)
      ensures old(suggestion) != "" ==> input in Commands && Extends(input, ToLower(old(input)))
      ensures old(suggestion) == "" ==> input == old(input)
      ensures suggestion == ""
      ensures history == old(history) && historyIndex == old(historyIndex) && output == old(output)
    {
      if suggestion != "" {
        input := suggestion;
        suggestion := "";
      }
    }

    /** Enter: a blank input only clears the ghost; otherwise the trimmed
        command is pushed, the cursor moves past it and the command runs.
        `threw` reports an inherited property called as a handler, which
        aborts the handler before the spacer and before the input is cleared. */
    method Enter() returns (threw: bool)
      requires Valid()
      modifies this
      ensures Valid()
      ensures suggestion == ""
      ensures Trim(old(input)) == "" ==>
                && !threw && history == old(history) && historyIndex == old(historyIndex)
                && input == old(input) && output == old(output)
      ensures Trim(old(input)) != "" ==>
                var cmd := Trim(old(input));
                var o := Run(Commands, old(history) + [cmd], old(output), cmd, true);
                && history == old(history) + [cmd]
                && historyIndex == |history|
                && output == o.output && threw == o.threw
                && input == (if o.threw then old(input) else "")
    {
      suggestion := "";
      threw := false;
      var cmd := Trim(input);
      if cmd == "" {
        return;
      }
      history := history + [cmd];
      historyIndex := |history|;
      var o := Run(Commands, history, output, cmd, true);
      output := o.output;
      if o.threw {
        threw := true;
        return;
      }
      input := "";
    }

    /** ArrowUp: step back through the history, clearing the ghost. */
    method ArrowUp()
      requires Valid()
      modifies this
      ensures Valid()
      ensures history == old(history) && output == old(output)
      ensures Cursor(historyIndex, input) == Up(history, old(Cursor(historyIndex, input)))
      ensures suggestion == ""
    {
      if historyIndex > 0 {
        historyIndex := historyIndex - 1;
        input := history[historyIndex];
      }
      suggestion := "";
    }

    /** ArrowDown: step forward through the history, or past its end to an
        empty input, clearing the ghost. */
    method ArrowDown()
      requires Valid()
      modifies this
      ensures Valid()
      ensures history == old(history) && output == old(output)
      ensures Cursor(historyIndex, input) == Down(history, old(Cursor(historyIndex, input)))
      ensures suggestion == ""
    {
      if historyIndex < |history| - 1 {
        historyIndex := historyIndex + 1;
        input := history[historyIndex];
      } else {
        historyIndex := |history|;
        input := "";
      }
      suggestion := "";
    }
  }
}

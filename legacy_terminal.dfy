/** The interactive terminal of the earlier `script.js`: command history with
    an up/down cursor and dispatch on Enter, without autocomplete, and with
    history entries shown unescaped. */
module LegacyTerminal {
  import opened Strings
  import opened Shell

  /** `commandHistory`, `historyIndex`, the value of the input box and the
      paragraphs of the output pane. */
  class Session {
    var history: seq<string>
    var historyIndex: int
    var input: string
    var output: seq<Line>

    /** The cursor stays in [-1, |history|] and leaves -1 once a command has
        been entered. */
    predicate Valid()
      reads this
    {
      && -1 <= historyIndex <= |history|
      && (|history| > 0 ==> historyIndex >= 0)
    }

    constructor ()
      ensures Valid()
      ensures history == [] && historyIndex == -1 && input == "" && output == []
    {
      history := [];
      historyIndex := -1;
      input := "";
      output := [];
    }

    /** The user typing into the box. This is no code of `script.js`, which
        has no `input` listener; it lets the model change the input between
        key presses. */
    method Type(value: string)
      requires Valid()
      modifies this
      ensures Valid()
      ensures input == value
      ensures history == old(history) && historyIndex == old(historyIndex) && output == old(output)
    {
      input := value;
    }

    /** Enter: a blank input changes nothing; otherwise the trimmed command is
        pushed, the cursor moves past it and the command runs. `threw`
        reports an inherited property called as a handler, which aborts the
        handler before the spacer and before the input is cleared. */
    method Enter() returns (threw: bool)
      requires Valid()
      modifies this
      ensures Valid()
      ensures Trim(old(input)) == "" ==>
                && !threw && history == old(history) && historyIndex == old(historyIndex)
                && input == old(input) && output == old(output)
      ensures Trim(old(input)) != "" ==>
                var cmd := Trim(old(input));
                var o := Run(LegacyCommands, old(history) + [cmd], old(output), cmd, false);
                && history == old(history) + [cmd]
                && historyIndex == |history|
                && output == o.output && threw == o.threw
                && input == (if o.threw then old(input) else "")
    {
      threw := false;
      var cmd := Trim(input);
      if cmd == "" {
        return;
      }
      history := history + [cmd];
      historyIndex := |history|;
      var o := Run(LegacyCommands, history, output, cmd, false);
      output := o.output;
      if o.threw {
        threw := true;
        return;
      }
      input := "";
    }

    /** ArrowUp: step back through the history. */
    method ArrowUp()
      requires Valid()
      modifies this
      ensures Valid()
      ensures history == old(history) && output == old(output)
      ensures Cursor(historyIndex, input) == Up(history, old(Cursor(historyIndex, input)))
    {
      if historyIndex > 0 {
        historyIndex := historyIndex - 1;
        input := history[historyIndex];
      }
    }

    /** ArrowDown: step forward through the history, or past its end to an
        empty input. */
    method ArrowDown()
      requires Valid()
      modifies this
      ensures Valid()
      ensures history == old(history) && output == old(output)
      ensures Cursor(historyIndex, input) == Down(history, old(Cursor(historyIndex, input)))
    {
      if historyIndex < |history| - 1 {
        historyIndex := historyIndex + 1;
        input := history[historyIndex];
      } else {
        historyIndex := |history|;
        input := "";
      }
    }
  }
}

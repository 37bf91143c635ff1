/** What the two terminal scripts share: the command tables, the lookup of a
    typed command, the `history` command, the history cursor moved by the
    arrow keys and the autocomplete search. */
module Shell {
  import opened Strings

  /** One paragraph appended to the terminal output. Command text is shown
      through `escapeHTML`, which is left abstract: a line records the text it
      shows and, for history entries, whether that text was escaped. */
  datatype Line =
    | Echo(command: string)
    | Result(key: string)
    | HistoryEntry(number: nat, command: string, escaped: bool)
    | NoHistory
    | NotFound(command: string)
    | Spacer

  /** `Object.keys(commands)` in `js/script.js`: "42" is an integer-like key,
      so it comes first; the others follow in the order they are written. */
  const Commands: seq<string> := [
    "42", "help", "whoami", "about", "skills", "projects", "contact", "socials",
    "experience", "education", "clear", "date", "history", "banner",
    "sudo rm -rf /", "sudo", "hack", "matrix", "hello", "hi", "ls", "pwd", "cat",
    "cat readme.md", "exit", "winget moo", "moo", "vim", "neofetch", "coffee", "ping"
  ]

  /** The command table of `script.js`: the same without the cow. */
  const LegacyCommands: seq<string> := [
    "42", "help", "whoami", "about", "skills", "projects", "contact", "socials",
    "experience", "education", "clear", "date", "history", "banner",
    "sudo rm -rf /", "sudo", "hack", "matrix", "hello", "hi", "ls", "pwd", "cat",
    "cat readme.md", "exit", "vim", "neofetch", "coffee", "ping"
  ]

  /** The lower-case properties every object inherits from `Object.prototype`;
      `commands[name]` finds them too. Neither works as a handler: `__proto__`
      is `Object.prototype`, which is not callable, and `constructor` is
      `Object`, whose call returns an empty object that has no `forEach`. */
  const InheritedNames: set<string> := {"constructor", "__proto__"}

  /** What `commands[name]` yields. */
  datatype Handler = Own(key: string) | Inherited | Absent

  function Lookup(keys: seq<string>, name: string): (h: Handler)
    ensures h.Own? ==> h.key == name
    ensures h == Own(name) <==> name in keys
    ensures h == Inherited <==> name !in keys && name in InheritedNames
    ensures h == Absent <==> name !in keys && name !in InheritedNames
  {
    if name in keys then Own(name) else if name in InheritedNames then Inherited else Absent
  }

  /** The `history` command: one numbered line per entry, oldest first, or a
      single line saying there is nothing to show. */
  function HistoryLines(history: seq<string>, escaped: bool): (r: seq<Line>)
    ensures |history| == 0 ==> r == [NoHistory]
    ensures |history| > 0 ==> |r| == |history|
    ensures |history| > 0 ==> forall i :: 0 <= i < |r| ==> r[i] == HistoryEntry(i + 1, history[i], escaped)
  {
    if |history| == 0 then [NoHistory] else Numbered(history, 1, escaped)
  }

  function Numbered(commands: seq<string>, first: nat, escaped: bool): (r: seq<Line>)
    ensures |r| == |commands|
    ensures forall i :: 0 <= i < |r| ==> r[i] == HistoryEntry(first + i, commands[i], escaped)
  {
    if |commands| == 0 then []
    else [HistoryEntry(first, commands[0], escaped)] + Numbered(commands[1..], first + 1, escaped)
  }

  /** How running one command ends: the output afterwards, and whether the
      handler threw, which ends the key handler before the spacer line. */
  datatype Outcome = Outcome(output: seq<Line>, threw: bool)

  /** Running the command `cmd` (already trimmed and already pushed onto
      `history`): echo it, look up its lower-cased text and show what the
      handler returns. `clear` empties the output before its (empty) result is
      shown. An inherited property used as a handler throws: calling
      `__proto__`, or calling `forEach` on what `constructor` returns. */
  function Run(keys: seq<string>, history: seq<string>, output: seq<Line>, cmd: string, escaped: bool): (r: Outcome)
    ensures r.threw <==> ToLower(cmd) !in keys && ToLower(cmd) in InheritedNames
    ensures ToLower(cmd) == "clear" && "clear" in keys ==> r.output == [Spacer]
    ensures !(ToLower(cmd) == "clear" && "clear" in keys) ==>
              |r.output| > |output| && r.output[..|output|] == output && r.output[|output|] == Echo(cmd)
    ensures !r.threw ==> |r.output| > 0 && r.output[|r.output| - 1] == Spacer
    ensures r.threw ==> r.output == output + [Echo(cmd)]
  {
    var shown := output + [Echo(cmd)];
    match Lookup(keys, ToLower(cmd))
    case Inherited => Outcome(shown, true)
    case Absent => Outcome(shown + [NotFound(cmd), Spacer], false)
    case Own(key) =>
      if key == "clear" then Outcome([Spacer], false)
      else if key == "history" then Outcome(shown + HistoryLines(history, escaped) + [Spacer], false)
      else Outcome(shown + [Result(key), Spacer], false)
  }

  /** An unknown command adds its echo, exactly one "command not found" line
      and the spacer. */
  lemma UnknownCommand(keys: seq<string>, history: seq<string>, output: seq<Line>, cmd: string, escaped: bool)
    requires ToLower(cmd) !in keys && ToLower(cmd) !in InheritedNames
    ensures Run(keys, history, output, cmd, escaped) == Outcome(output + [Echo(cmd), NotFound(cmd), Spacer], false)
  {
  }

  /** Only a table key runs, found by exact comparison with the lower-cased
      command, and every table key other than `clear` and `history` does run:
      its result follows the echo. A handler throws exactly for the inherited
      names. */
  lemma DispatchIsExact(keys: seq<string>, history: seq<string>, output: seq<Line>, cmd: string, escaped: bool)
    ensures Run(keys, history, output, cmd, escaped).threw <==> ToLower(cmd) !in keys && ToLower(cmd) in InheritedNames
    ensures var o := Run(keys, history, output, cmd, escaped).output;
            forall k :: Result(k) in o && Result(k) !in output ==> k == ToLower(cmd) && k in keys
    ensures ToLower(cmd) in keys && ToLower(cmd) != "clear" && ToLower(cmd) != "history" ==>
              Run(keys, history, output, cmd, escaped).output == output + [Echo(cmd), Result(ToLower(cmd)), Spacer]
  {
  }

  /** Commands that differ only in the case of ASCII letters behave alike:
      both throw or neither does, the output has the same length, and after
      each one's echo the lines agree, except that "command not found" quotes
      each command as it was typed. */
  lemma DispatchIgnoresCase(keys: seq<string>, history: seq<string>, output: seq<Line>, a: string, b: string, escaped: bool)
    requires ToLower(a) == ToLower(b)
    ensures var ra := Run(keys, history, output, a, escaped);
            var rb := Run(keys, history, output, b, escaped);
            && ra.threw == rb.threw
            && |ra.output| == |rb.output|
            && (ToLower(a) == "clear" && "clear" in keys ==> ra.output == rb.output == [Spacer])
            && (!(ToLower(a) == "clear" && "clear" in keys) ==>
                  && ra.output[|output|] == Echo(a) && rb.output[|output|] == Echo(b)
                  && (ToLower(a) in keys ==> ra.output[|output| + 1..] == rb.output[|output| + 1..])
                  && (ToLower(a) !in keys ==>
                        && ra.output[|output| + 1..] == (if ra.threw then [] else [NotFound(a), Spacer])
                        && rb.output[|output| + 1..] == (if rb.threw then [] else [NotFound(b), Spacer])))
  {
  }

  /** The `history` command lists every entry, itself last. */
  lemma HistoryListsItself(keys: seq<string>, before: seq<string>, output: seq<Line>, cmd: string, escaped: bool)
    requires "history" in keys && ToLower(cmd) == "history"
    ensures var o := Run(keys, before + [cmd], output, cmd, escaped);
            && !o.threw
            && o.output == output + [Echo(cmd)] + Numbered(before + [cmd], 1, escaped) + [Spacer]
            && o.output[|o.output| - 2] == HistoryEntry(|before| + 1, cmd, escaped)
  {
  }

  // ---------------------------------------------------------------------------
  // History cursor

  /** `historyIndex` together with the text in the input box. */
  datatype Cursor = Cursor(index: int, input: string)

  /** ArrowUp: step back one entry while not at the oldest, showing it. */
  function Up(history: seq<string>, c: Cursor): (r: Cursor)
    requires c.index <= |history|
    ensures 0 < c.index ==> r == Cursor(c.index - 1, history[c.index - 1])
    ensures c.index <= 0 ==> r == c
    ensures r.index <= c.index && r.index <= |history|
    ensures -1 <= c.index ==> -1 <= r.index
    ensures c.index >= 0 ==> r.index >= 0
    ensures r.index < c.index ==> 0 <= r.index == c.index - 1 && r.input == history[r.index]
    ensures r.index == c.index ==> r == c
  {
    if c.index > 0 then Cursor(c.index - 1, history[c.index - 1]) else c
  }

  /** ArrowDown: step forward one entry while before the newest, showing it;
      otherwise stand past the newest with an empty input. */
  function Down(history: seq<string>, c: Cursor): (r: Cursor)
    requires -1 <= c.index
    ensures c.index < |history| - 1 ==> r == Cursor(c.index + 1, history[c.index + 1])
    ensures c.index >= |history| - 1 ==> r == Cursor(|history|, "")
    ensures 0 <= r.index <= |history|
    ensures r.index < |history| ==> r.index == c.index + 1 && r.input == history[r.index]
    ensures r.index == |history| ==> r.input == ""
  {
    if c.index < |history| - 1 then Cursor(c.index + 1, history[c.index + 1]) else Cursor(|history|, "")
  }

  /** `n` presses of ArrowUp. */
  function UpTimes(history: seq<string>, c: Cursor, n: nat): (r: Cursor)
    requires c.index <= |history|
    ensures r.index <= |history|
    decreases n
  {
    if n == 0 then c else UpTimes(history, Up(history, c), n - 1)
  }

  /** After a command is entered, `n` presses of ArrowUp show the `n`-th most
      recent entry, and once the oldest is reached further presses stay on it. */
  lemma {:induction false} RecallOlder(history: seq<string>, input: string, n: nat)
    requires 1 <= n
    ensures |history| >= n ==> UpTimes(history, Cursor(|history|, input), n) == Cursor(|history| - n, history[|history| - n])
    ensures 1 <= |history| < n ==> UpTimes(history, Cursor(|history|, input), n) == Cursor(0, history[0])
  {
    if n == 1 {
    } else {
      RecallOlder(history, input, n - 1);
      var c := UpTimes(history, Cursor(|history|, input), n - 1);
      UpTimesLast(history, Cursor(|history|, input), n - 1);
      assert UpTimes(history, Cursor(|history|, input), n) == Up(history, c);
    }
  }

  lemma {:induction false} UpTimesLast(history: seq<string>, c: Cursor, n: nat)
    requires c.index <= |history|
    ensures UpTimes(history, c, n + 1) == Up(history, UpTimes(history, c, n))
    decreases n
  {
    if n > 0 {
      UpTimesLast(history, Up(history, c), n - 1);
    }
  }

  /** ArrowDown takes back an ArrowUp: the cursor returns to where it was,
      showing that entry again, or the empty input when it stood past the
      newest entry. */
  lemma DownUndoesUp(history: seq<string>, c: Cursor)
    requires 1 <= c.index <= |history|
    ensures Down(history, Up(history, c)) == Cursor(c.index, if c.index < |history| then history[c.index] else "")
  {
  }

  // ---------------------------------------------------------------------------
  // Autocomplete

  /** `key.indexOf(input) === 0 && key !== input`: the key properly extends the input. */
  predicate Extends(key: string, input: string) {
    StartsWith(key, input) && key != input
  }

  /** The index of the first key that properly extends `input`, or -1. */
  function FirstExtension(keys: seq<string>, input: string): (k: int)
    ensures -1 <= k < |keys|
    ensures k >= 0 ==> Extends(keys[k], input)
    ensures forall j :: 0 <= j < |keys| && (k == -1 || j < k) ==> !Extends(keys[j], input)
  {
    if |keys| == 0 then -1
    else if Extends(keys[0], input) then 0
    else
      var k := FirstExtension(keys[1..], input);
      assert forall j :: 1 <= j < |keys| ==> keys[j] == keys[1..][j - 1];
      if k == -1 then -1 else k + 1
  }

  /** The suggestion for a lower-cased input: none below two characters,
      otherwise the first key in table order that properly extends it. */
  function Suggestion(keys: seq<string>, input: string): (s: string)
    ensures |input| < 2 ==> s == ""
    ensures s != "" ==> s in keys && StartsWith(s, input) && s != input
    ensures |input| >= 2 && FirstExtension(keys, input) >= 0 ==> s == keys[FirstExtension(keys, input)]
    ensures |input| >= 2 && "" !in keys ==> (s == "" <==> forall j :: 0 <= j < |keys| ==> !Extends(keys[j], input))
  {
    if |input| < 2 then ""
    else
      var k := FirstExtension(keys, input);
      if k == -1 then "" else keys[k]
  }

  /** The search loop of `updateGhost` over the table keys. */
  method FindSuggestion(keys: seq<string>, input: string) returns (s: string)
    ensures s == Suggestion(keys, input)
  {
    s := "";
    if |input| < 2 {
      return;
    }
    var i := 0;
    while i < |keys|
      invariant 0 <= i <= |keys|
      invariant forall j :: 0 <= j < i ==> !Extends(keys[j], input)
    {
      if StartsWith(keys[i], input) && keys[i] != input {
        s := keys[i];
        return;
      }
      i := i + 1;
    }
  }

  /** The first key that extends the input is the one at `k` when it extends
      it and none before it does. */
  lemma FirstIs(keys: seq<string>, input: string, k: nat)
    requires k < |keys| && Extends(keys[k], input)
    requires forall j :: 0 <= j < k ==> !Extends(keys[j], input)
    ensures FirstExtension(keys, input) == k
  {
  }

  lemma NotExtending(key: string, input: string, pos: nat)
    requires pos < |key| && pos < |input| && key[pos] != input[pos]
    ensures !Extends(key, input)
  {
  }

  lemma NoneBeforeHistory0()
    ensures forall j :: 0 <= j < 4 ==> !Extends(Commands[j], "hi")
  {
    NotExtending(Commands[0], "hi", 0);
    NotExtending(Commands[1], "hi", 1);
    NotExtending(Commands[2], "hi", 0);
    NotExtending(Commands[3], "hi", 0);
  }

  lemma NoneBeforeHistory1()
    ensures forall j :: 4 <= j < 8 ==> !Extends(Commands[j], "hi")
  {
    NotExtending(Commands[4], "hi", 0);
    NotExtending(Commands[5], "hi", 0);
    NotExtending(Commands[6], "hi", 0);
    NotExtending(Commands[7], "hi", 0);
  }

  lemma NoneBeforeHistory2()
    ensures forall j :: 8 <= j < 12 ==> !Extends(Commands[j], "hi")
  {
    NotExtending(Commands[8], "hi", 0);
    NotExtending(Commands[9], "hi", 0);
    NotExtending(Commands[10], "hi", 0);
    NotExtending(Commands[11], "hi", 0);
  }

  /** Typing "hi" suggests "history", which comes before "hi" in the table. */
  lemma HiSuggestsHistory()
    ensures Suggestion(Commands, "hi") == "history"
  {
    NoneBeforeHistory0();
    NoneBeforeHistory1();
    NoneBeforeHistory2();
    assert Commands[12][..2] == "hi";
    FirstIs(Commands, "hi", 12);
  }
}

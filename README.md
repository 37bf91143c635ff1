# whoami: a verified model of the site server and its terminal scripts

This project models the logic of a personal site in Dafny and proves what that
logic guarantees. The site has three parts:

- **The Node server** (`server.js`). It serves the static site and counts
  visitors. The model covers:
  - `parseCookies`;
  - the start-up count read from `visitors.json`;
  - the request handler: percent-decoding, the `/api/visitors` counter, the
    rewrite of `/`, the allowlist, the containment test against
    `PROJECT_ROOT`, the MIME choice and the security headers.
- **The terminal of `js/script.js`**: command history with an up/down cursor,
  dispatch on Enter, the ghost autocomplete and Tab.
- **The earlier `script.js`**: the same terminal without autocomplete, with
  history entries shown unescaped.

Both scripts also have a Konami-code listener and a contribution graph. The
graph has a yearly total and groups the days into weeks of seven. The newer
script pads the first week up to the weekday of the first day.

Modules:

| module | file | what it holds |
|---|---|---|
| `Strings` | `strings.dfy` | JavaScript's `indexOf`, `split`, `join`, `trim`, `startsWith` and `toLowerCase`, over `seq<char>` |
| `Paths` | `paths.dfy` | `path.resolve` as dot-segment normalisation, the prefix test on resolved paths, and `path.extname` |
| `Server` | `server.dfy` | cookies, initial count, responses, allowlist, containment, MIME; class `VisitorServer`, whose `Handle` method is the request handler |
| `Shell` | `shell.dfy` | what both terminals share: the two command tables, lookup, the `history` command, the cursor moves and the autocomplete search |
| `Terminal` | `terminal.dfy` | class `Session` for `js/script.js` |
| `LegacyTerminal` | `legacy_terminal.dfy` | class `Session` for `script.js` |
| `Konami` | `konami.dfy` | class `Matcher` and the exact condition under which it fires |
| `Contributions` | `contributions.dfy` | week grouping with and without padding, and the totals |

Some behaviour follows from the code as written and the model keeps it:

- **The allowlist sees the pathname before normalisation.** A pathname like
  `/js/../server.js` starts with `/js/`, so it passes. It is reachable as
  `/js/..%2fserver.js`, because the URL parser leaves `%2f` alone. The file
  actually read is `server.js` in the server directory. What the server does
  guarantee is that a file it reads resolves strictly inside that directory.
  `Handle` proves this, and `AllowlistPrecedesNormalisation` and
  `TraversalIsForbidden` show both sides of it.
- **`commands[name]` also finds inherited properties.** It finds
  `constructor` and `__proto__`, the all-lower-case properties of
  `Object.prototype`. Neither works as a handler. `__proto__` yields
  `Object.prototype`, which cannot be called. `constructor` yields `Object`,
  whose call returns an empty object, and calling `forEach` on that throws.
  Either way the key handler stops after the command was recorded and echoed,
  but before the spacer line and before the input is cleared.
- **`Object.keys` lists `"42"` first**, because it is an integer-like key, so
  autocomplete searches it first. Typing `hi` suggests `history`, because
  `history` comes before `hi` in the table.
- **A cookie named `__proto__` is not stored**, since a string assigned to
  `__proto__` is ignored. A `visited` cookie with an empty value counts as a
  new visitor, since `""` is falsy.
- **Two requests make the server throw outside any `catch`, ending the
  process.** A request target such as `//` names no host, so `new URL` throws.
  A decoded pathname holding a NUL character, such as `/js/%00`, passes the
  allowlist and the containment test. `fs.readFile` then throws on it before
  it starts the read. `Handle` answers no response in both cases, and
  `NulReachesRead` shows the second one is reachable.
- **The Konami matcher never restarts.** A wrong key resets it to 0 without
  checking whether that key starts the code. So ArrowUp followed by the code
  does not fire.

Inputs that come from outside are parameters of the model:

- the URL's pathname, or the failure of `new URL`;
- the `Cookie` header;
- `decodeURIComponent`, as a partial function;
- the file system, as a function from path to contents or failure;
- what `visitors.json` held at start-up;
- the weekday of the first contribution;
- the values of `data.total`.

## Model

| member | source | states |
|---|---|---|
| Strings.IndexOf | server.js:52 | the first index of the character, or -1 exactly when it does not occur |
| Strings.Split | server.js:51 | always at least one piece, and no piece contains the separator |
| Strings.JoinSplit | server.js:51 | joining the pieces with the separator gives back the header text |
| Strings.SplitJoin | server.js:51 | splitting joined separator-free pieces gives back the pieces |
| Strings.Trim | server.js:54 | the result is a slice of the input; everything cut off at either end is ECMAScript whitespace, and the result neither starts nor ends with whitespace |
| Strings.ToLower | js/script.js:683 | same length, each character lowered, and no upper-case ASCII letter left |
| Paths.Apply | server.js:99 | "" and "." leave the directory stack alone, ".." pops one directory (none at the root), and any other segment is pushed |
| Paths.WalkAppend | server.js:99 | resolving a concatenation of segments resolves the first part, then the second from there |
| Paths.Segments | server.js:99 | a resolved path consists only of plain segments: no empty, dot or separator-holding segment |
| Paths.Resolve | server.js:7 | a resolved absolute path starts with "/" |
| Paths.ResolveJoin | server.js:99 | `path.resolve(path.join(dir, p))` walks the segments of `p` from the resolved segments of `dir` |
| Paths.SplitConcat | server.js:99 | splitting `a + "/" + b` gives the pieces of `a` followed by those of `b` |
| Paths.JoinPrefix | server.js:100 | a joined path starts with another joined path plus "/" exactly when the other's segments are a proper prefix of its own |
| Paths.RenderPrefix | server.js:100 | the same for rendered absolute paths, where the root directory contains nothing because its prefix is "//" |
| Paths.Extname | server.js:105 | the extension is empty exactly when no dot follows the first character of the last segment; otherwise it is the proper suffix of that segment that begins at its last dot |
| Paths.ExtnameOfFile | server.js:105 | a file named `stem + ext` in any directory, where `ext` is a dot followed by dot-free text and `stem` is not empty, has the extension `ext` |
| Server.Record | server.js:53-55 | a piece whose first "=" is past index 0 and whose trimmed name is not `__proto__` stores its trimmed value under that name; every other entry is kept, and no other name appears |
| Server.CookiesOf | server.js:51-56 | recording the pieces in order never yields a `__proto__` entry |
| Server.RecordPiece | server.js:52-55 | one `forEach` step records the trimmed name and value of a piece whose first "=" is past index 0 |
| Server.ParseCookies | server.js:49-58 | the dictionary is the result of recording every `;`-separated piece of the header in order |
| Server.RecordKeys | server.js:53-54 | after one piece, a name is present exactly when it already was or the piece stores it; the piece's value wins |
| Server.CookiePresent | server.js:51-56 | a name is in the dictionary exactly when some piece defines it (first "=" past index 0, trimmed name, not `__proto__`) |
| Server.CookieLastWins | server.js:54 | the stored value is the trimmed text after the first "=" of the last piece that defines the name |
| Server.NoHeaderNoCookies | server.js:51 | an absent Cookie header gives an empty dictionary |
| Server.HasVisited | server.js:78 | a visitor counts as returning exactly when a `visited` cookie is present with a non-empty value (the empty string is falsy) |
| Server.ReturningVisitor | server.js:78-82 | the cookie the API sets, sent back as `visited=1` after any whitespace and not redefined by a later piece, marks the next request as a returning visitor |
| Server.EmptyVisitedIsNew | server.js:78 | a last `visited=` piece with an empty value leaves the request counted as a new visitor |
| Server.InitialCount | server.js:37-43 | the stored count when the file parses and has one, otherwise 0, including a missing file and unparsable text |
| Server.ApiHeaders | server.js:73-82 | JSON content type, `no-cache`, all three security headers, and `Set-Cookie` with the visited cookie exactly for a new visitor |
| Server.IsAllowed | server.js:91-92 | allowed exactly for the three bare files and for anything under `/js/`, `/css/` or `/assets/`; an allowed pathname starts with "/" |
| Server.Rewrite | server.js:88 | "/" becomes "/index.html"; every other pathname is kept |
| Server.ContainmentIsInside | server.js:100 | `filePath.startsWith(PROJECT_ROOT)` holds exactly when the resolved file has the server directory's segments as a proper prefix |
| Server.ContentType | server.js:105-114 | the table's type for the lower-cased extension when the table lists it, otherwise `application/octet-stream`, in particular for a file without an extension |
| Server.ContentTypeOfFile | server.js:105-114 | a file `stem + ext` in any directory is served with the table's type for the lower-cased `ext`, or as `application/octet-stream` when the table has none |
| Server.ContentTypeIgnoresCase | server.js:105-114 | any file whose name ends in ".JS" is served as JavaScript |
| Server.VisitorServer.constructor | server.js:37-43 | the count starts as the initial count of the stored file |
| Server.VisitorServer.Handle | server.js:60-118 | the whole routing, case by case: no response when `new URL` throws; 400 on a decoding failure with nothing changed; on `/api/visitors`, +1 and Set-Cookie exactly without a truthy `visited` cookie, with the body reporting the new count; 404 outside the allowlist, 403 outside `PROJECT_ROOT`, no response when the resolved path holds a NUL character, otherwise a read of the resolved path with 404 on error or 200 with the MIME type. Also: the count never decreases, every response carries the security headers, and anything read lies strictly inside the server directory and holds no NUL |
| Server.AllowlistPrecedesNormalisation | server.js:91-100 | "/js/../" + name passes the allowlist and the containment test and reads `name` directly from the server directory, where "/" + name alone would be refused unless it is an allowed file |
| Server.NulReachesRead | server.js:64-107 | "/js/" followed by a file name holding a NUL passes the allowlist and the containment test, and the resolved path still holds the NUL |
| Server.TraversalIsForbidden | server.js:99-103 | climbing above the server directory under "/js/" passes the allowlist, resolves to the bare name and fails the containment test |
| Shell.Lookup | js/script.js:683 | a name that is a table key finds that key's handler; otherwise `constructor` and `__proto__` find an inherited property, and any other name finds nothing |
| Shell.HistoryLines | js/script.js:390-395 | "No commands in history." for an empty history, otherwise one line per entry, numbered from 1 in insertion order |
| Shell.Numbered | js/script.js:392-394 | entry `i` of the list is numbered `first + i` |
| Shell.Run | js/script.js:675-697 | `clear` leaves only the spacer; otherwise the old output is kept and the echo follows it; the handler throws exactly for an inherited name that is not a key, leaving just the echo, and otherwise the output ends with the spacer |
| Shell.UnknownCommand | js/script.js:689-697 | an unknown command adds its echo, exactly one "command not found" line and the spacer |
| Shell.DispatchIsExact | js/script.js:683-688 | a handler throws exactly for an inherited name that is not a key; only the table key equal to the lower-cased command can produce output, and every key other than `clear` and `history` does: its result follows the echo |
| Shell.DispatchIgnoresCase | js/script.js:675-697 | commands that lower-case alike give the same outcome: both throw or neither does, and after each one's echo the lines agree, except that "command not found" quotes each command as typed |
| Shell.HistoryListsItself | js/script.js:390-395 | `history` lists every entry, itself last, because it is pushed before it runs |
| Shell.Up | js/script.js:704-712 | ArrowUp moves back by one and shows that entry whenever the index is above 0, whatever was typed; at 0 or -1 nothing changes |
| Shell.Down | js/script.js:713-724 | ArrowDown moves forward by one and shows that entry whenever the index is before the newest entry, whatever was typed; otherwise it stands at the length with an empty input |
| Shell.RecallOlder | js/script.js:704-709 | after a command, n presses of ArrowUp show the n-th most recent entry, and further presses stay on the oldest |
| Shell.DownUndoesUp | js/script.js:704-724 | ArrowDown after ArrowUp returns to the same entry, or to the empty input past the newest |
| Shell.FirstExtension | js/script.js:635-641 | the first index whose key properly extends the input, with no earlier key doing so, or -1 when none does |
| Shell.Suggestion | js/script.js:629-642 | nothing below two characters; otherwise a key of the table that properly extends the input, the first in table order, and none exactly when no key extends it |
| Shell.FindSuggestion | js/script.js:633-641 | the search loop returns that suggestion |
| Shell.HiSuggestsHistory | js/script.js:634-641 | typing "hi" suggests "history" |
| Terminal.Session.constructor | js/script.js:238-239 | empty history, index -1, no suggestion |
| Terminal.Session.UpdateGhost | js/script.js:629-642 | the suggestion is recomputed for the lower-cased input; nothing else changes |
| Terminal.Session.Type | js/script.js:646-648 | an input event stores the text and recomputes the ghost |
| Terminal.Session.Tab | js/script.js:654-662 | with a suggestion, the input becomes that table key, which properly extends what was typed; without one, the input is unchanged; either way the suggestion is cleared |
| Terminal.Session.Enter | js/script.js:664-701 | a blank input only clears the ghost; otherwise the trimmed command is pushed, the index becomes the new length, the command runs with escaped history, and the input is cleared unless the handler threw |
| Terminal.Session.ArrowUp | js/script.js:704-712 | the cursor moves as `Shell.Up`, the ghost is cleared, and the class invariant is kept |
| Terminal.Session.ArrowDown | js/script.js:713-724 | the cursor moves as `Shell.Down`, the ghost is cleared, and the class invariant is kept |
| LegacyTerminal.Session.constructor | script.js:201-202 | empty history, index -1 |
| LegacyTerminal.Session.Enter | script.js:509-540 | a blank input changes nothing; otherwise push, index becomes the new length, dispatch on the table without the cow commands and with history unescaped, and the input is cleared unless the handler threw |
| LegacyTerminal.Session.ArrowUp | script.js:543-549 | the cursor moves as `Shell.Up`, never below 0 once a command was entered |
| LegacyTerminal.Session.ArrowDown | script.js:550-559 | the cursor moves as `Shell.Down`, clearing the input past the newest entry |
| Konami.Next | js/script.js:759-767 | the position stays within the code's length |
| Konami.IndexAfter | script.js:591-603 | the position after any keys lies in [0, 6) |
| Konami.Matcher.constructor | js/script.js:756 | the listener starts at position 0 with no keys typed |
| Konami.Matcher.KeyDown | js/script.js:758-768 | the position follows the keys typed, and the listener fires exactly when `FiredBy` holds for them |
| Konami.Predecessor | js/script.js:759-760 | a non-zero position was reached by the expected key from one position lower |
| Konami.RunBack | js/script.js:759-767 | going back j keys from position i >= j gives position i - j |
| Konami.RunBackKeys | js/script.js:759-767 | the last j keys before position i are the code's keys from i - j up to i |
| Konami.MatchedIsSuffix | script.js:594-602 | the typed keys end with the first `position` keys of the code |
| Konami.TypeCode | js/script.js:759-764 | from position i, typing the code's next keys reaches each later position |
| Konami.FiresExactly | js/script.js:758-768 | it fires exactly when the keys end with the whole code and the position was 0 just before it |
| Konami.CodeFires | js/script.js:751-764 | a fresh listener fires on the code |
| Konami.NoRestart | script.js:594-602 | ArrowUp followed by the code does not fire |
| Contributions.Chunks | script.js:748-757 | no weeks exactly for no days; otherwise the first week is the first seven days, or all of them when there are fewer |
| Contributions.FlattenChunks | script.js:748-757 | concatenating the weeks gives back the days in order |
| Contributions.ChunkSizes | js/script.js:931-938 | ceil(n / 7) weeks, each with one to seven cells, and all but the last with exactly seven |
| Contributions.ChunksAppend | script.js:750-756 | cutting a whole number of weeks followed by more days cuts each part on its own |
| Contributions.GroupStep | script.js:751-755 | each push and full-week test keeps the loop state: the full weeks so far plus the current partial week |
| Contributions.GroupDone | script.js:757 | pushing a non-empty partial week completes the grouping |
| Contributions.GroupWeeks | script.js:748-757 | the loop yields the days cut into weeks of seven |
| Contributions.GroupPaddedWeeks | js/script.js:922-938 | the loops yield `firstDay` blanks followed by the days, cut into weeks of seven |
| Contributions.PaddedWeeks | js/script.js:922-938 | the padded weeks hold firstDay + n cells, the blanks then the days in order; the first week opens with the blanks; no week is empty; all but the last are full |
| Contributions.TotalContributions | js/script.js:918-919 | the loop adds up all values |
| Contributions.Reduce | script.js:743 | `reduce` with a start value gives that value plus the sum, so both scripts show the same total |
| Contributions.ShowContributions | js/script.js:914-938 | no contributions fails, as the thrown "no data" does; otherwise the summed total and the padded weeks |
| Contributions.ShowLegacyContributions | script.js:741-757 | the total by `reduce` and the unpadded weeks |

## Left out

- URL parsing: `new URL(req.url, ...)` is not modelled; `Handle` takes the parsed pathname, or None where the constructor throws.
- `decodeURIComponent`: it is a function parameter of `Handle`, so its own behaviour is not modelled.
- File reads and writes: `fs.readFile` is a parameter of `Handle`. `fs.readFileSync` and `JSON.parse` at start-up are summarised by `StoredCounter`. The fire-and-forget `writeCounter` is not modelled; persistence is the in-memory count only.
- The server is modelled as `listen` handing over one request at a time. Concurrency between the asynchronous read and later requests is not modelled.
- The order of headers and the byte encoding of response bodies are not modelled. Headers are a map. The counter body is the count it reports, not its JSON text.
- Server.InitialCount: a stored `count` that is truthy but not an integer is not modelled, because the model's counter is an integer. This covers a fraction, a string, or `true`; the source would keep such a value and `++` would turn it into a number or NaN.
- Server.VisitorServer.Handle: JavaScript numbers lose precision above 2^53, and that rounding is not modelled; the model's count is unbounded.
- Paths.Extname: the model covers only paths produced by `path.resolve`, which never end in a separator or a ".." segment, except the root `/`, whose extension is empty both in the source and in the model. It does not model `path.extname` on other inputs.
- `path.resolve` is modelled as dot-segment normalisation of an absolute path, as on POSIX. Windows separators and drive letters are not modelled.
- Strings.ToLower: only the letters A-Z are mapped. Unicode case mapping is not modelled. For example, the Kelvin sign lowers to "k" in JavaScript, so a command typed with it can match a key in the source but not in the model.
- Shell.Run: the text each command returns is not modelled. Such a command is a single `Result(key)` entry. The extra `<pre>` blocks that `banner` and the cow commands insert are not modelled, and neither are the timers and canvas started by `matrix`.
- `escapeHTML` and the HTML wrapping of output lines are left abstract. A line records its text, plus whether it was escaped for history entries.
- Rendering: the DOM, the output pane's scrolling and focus, and the ghost input box (it mirrors `suggestion`) are presentation and are not modelled.
- The key-click sound, the globe, the boot sequence, the matrix rain, the logo easter egg and the random taglines are not modelled. They use floating point, randomness, timers or audio.
- The Konami listener fires the easter egg; what the egg displays is not modelled. `fired` is returned instead.
- The contributions `fetch`, the HTTP status check and the `catch` text are not modelled. The `then` callbacks take the parsed `contributions` array and the values of `data.total`.
- `Date.getDay`: the weekday of the first day is an input in 0..6.
- Contributions: the totals are integers, so JavaScript's floating-point addition and string concatenation on non-number values are not modelled. The tooltip and cell attributes are not modelled either.

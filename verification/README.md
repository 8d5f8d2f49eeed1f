# Duke command pipeline in Dafny

Duke is a command-line task tracker. A user types a line such as
`todo read book` or `mark 2`. The program turns it into a
keyword and an argument text, and the handler for that keyword validates the text
and changes the task list. A task is a todo, a deadline (with a due time) or an
event (with a start and an end), and each task carries a done flag.

The repository holds two executors of this pipeline, and this project models both:

- **The list-backed executor** (`Command.execute` and its handlers).
  - It keeps the tasks in an `ArrayList`.
  - It recognises nine keywords: list, todo, deadline, event, mark, unmark, delete, help and find.
  - It finds fields with the markers `by:`, `from:` and `to:`.
  - It parses times into dates and rejects an event that ends before it starts.
  - Module `Command`, file `command.dfy`.
- **The legacy array-backed executor** (`Duke.process` and its handlers).
  - It keeps the tasks in a fixed array of `MAX_TASKS = 100` slots plus a `taskCount`.
  - It splits the line itself with `trim().split("\\s+", 2)`.
  - It uses the markers `/by`, `/from` and `/to`, and keeps times as raw text.
  - It recognises seven keywords: `find` and `delete` are not among them.
  - Module `Duke`, file `duke.dfy`.

Each handler is a pure function. It returns `Ok(new state)`, or `Err(f)` where `f`
names the Java exception the handler throws (module `Outcomes`). The dispatchers
`Command.Execute` and `Duke.Process` reproduce each `try`/`catch` of the `switch`:
- A caught exception becomes a `Rejected(f)` note, and the state stays unchanged.
- An exception no clause catches escapes as `Err(f)`. The possible escapes are:
  - the `StringIndexOutOfBoundsException` of an event whose end marker comes before its start marker;
  - Duke's `NumberFormatException` from `Integer.parseInt`;
  - Duke's `ArrayIndexOutOfBoundsException` when a 101st task is stored;
  - the `InvalidCommandException` of the `default:` branch for an unknown keyword (Command.java:116, Duke.java:120);
  - whatever `deleteTask` throws beyond its catch clause.

The Java library behaviour the handlers depend on is modelled explicitly:
- `java_text.dfy`: `String.trim`, `indexOf`, `contains`, `replace(marker, "")` and `split("\\s+", 2)`.
- `java_int.dfy`: `Integer.parseInt` and 32-bit `n - 1`.
- `task_model.dfy`: the task datatype shared by both executors. Its time type is a
  parameter, so the list-backed executor holds dates and the array-backed one holds text.

The parser used by the list-backed executor (`Parser.parseCommand`, `parseDate`,
`parseIndex`) and `TaskList.deleteTask` are not part of this model. They are
parameters of `Command.Execute`, collected in the `Collaborators` datatype:
- `parseDate` and `parseIndex` are partial: `None` stands for the `ParseException`
  or `FormatException` they throw.
- A date is an instant in milliseconds, and `before` compares instants.

## Model

| member | source | states |
|---|---|---|
| JavaInt.Pred | src/main/java/duke/Duke.java:157 | `n - 1` on a Java int agrees with the mathematical value modulo 2^32, and is smaller than `n` except at the wrap from the minimum int |
| JavaInt.ParseInt | src/main/java/duke/Duke.java:139 | `Integer.parseInt` succeeds only on an optional sign followed by one or more digits; a negative result comes from a leading minus; the empty text and a bare sign are rejected |
| JavaInt.DecimalValue | src/main/java/duke/Duke.java:157 | the decimal numeral of a natural number consists of digits and denotes that number |
| JavaInt.ParseIntDigits | src/main/java/duke/Duke.java:157 | on a non-empty digit string `s`, `Integer.parseInt(s)` succeeds exactly when the value of `s` is at most 2^31 - 1 and then yields that value; `"+" + s` parses the same as `s`; `"-" + s` succeeds exactly when the value is at most 2^31 and then yields its negation |
| JavaInt.ParseIntLeadingZero | src/main/java/duke/Duke.java:157 | a leading zero in front of a non-empty digit string changes neither success nor value |
| JavaInt.ParseIntOutOfRange | src/main/java/duke/Duke.java:139 | the numeral of any number above 2^31 - 1, and the negated numeral of any number above 2^31, is rejected, as Java throws NumberFormatException |
| JavaInt.ParseIntDecimal | src/main/java/duke/Duke.java:157 | `Integer.parseInt` reads back every int from its decimal numeral, with or without a minus sign |
| JavaText.Trim | src/main/java/duke/Command.java:128 | `trim` returns the slice between the leading and trailing characters up to U+0020; it is empty exactly for blank text, and otherwise starts and ends with a non-space |
| JavaText.TrimIdempotent | src/main/java/duke/Command.java:182 | trimming the already trimmed description again changes nothing |
| JavaText.BlankTrim | src/main/java/duke/Command.java:154 | a text is blank exactly when its trim is blank, so `x.trim().length() == 0` tests blankness of `x` |
| JavaText.TrimPaddedRight | src/main/java/duke/Duke.java:195 | blank text after an unpadded string is cut off by `trim` |
| JavaText.IndexOf | src/main/java/duke/Command.java:176 | `indexOf` returns -1 exactly when the marker occurs nowhere; otherwise it returns an occurrence with no earlier one |
| JavaText.ContainsEmpty | src/main/java/duke/Command.java:202 | every description contains the empty keyword |
| JavaText.IndexOfAfter | src/main/java/duke/Duke.java:191 | a marker placed after text that lacks its first character is found exactly where it was placed |
| JavaText.RemoveAll | src/main/java/duke/Command.java:181 | `replace(marker, "")` never lengthens the text, leaves text without the marker unchanged, and shortens text with the marker by at least its length |
| JavaText.RemoveAllIsScan | src/main/java/duke/Command.java:181 | the indexOf-driven removal equals an independent left-to-right scan that skips each occurrence whole and keeps every other character |
| JavaText.RemoveLeading | src/main/java/duke/Command.java:181 | removing the marker from text that starts with it is removing it from the rest |
| JavaText.TrimThenRemove | src/main/java/duke/Duke.java:199 | when the marker starts with a non-space character, and `w` is non-empty, ends with a non-space character and does not contain the marker's first character: trimming `marker + " " + w` and then dropping the marker keeps the blank before `w` |
| JavaText.SplitOnce | src/main/java/duke/Duke.java:47 | `split("\\s+", 2)` yields one piece exactly when there is no `\s` character; otherwise the first piece is the text before the first `\s` run, the second the text after it, and only `\s` characters lie between them |
| Command.AddTodo | src/main/java/duke/Command.java:127-133 | blank arguments are rejected with NoDescription exactly; otherwise one not-done todo with the untrimmed argument as description is appended and earlier tasks are unchanged |
| Command.DeadlineFields | src/main/java/duke/Command.java:176-187 | no `by:` gives Format exactly; otherwise NoDescription exactly when the text before the first `by:` or the rest with every `by:` dropped is blank; success yields both trimmed |
| Command.AddDatedDeadline | src/main/java/duke/Command.java:188-189 | a due text the date parser rejects gives DateParse exactly; otherwise one deadline with the parsed date is appended |
| Command.AddDeadline | src/main/java/duke/Command.java:174-190 | no `by:` gives Format exactly; a blank description before the first `by:` or a blank remainder (every `by:` dropped) gives NoDescription exactly, whatever the date parser does; then a rejected due text gives DateParse exactly; success appends one deadline with the trimmed description and the parsed due date, keeping earlier tasks |
| Command.EventFields | src/main/java/duke/Command.java:146-156 | a missing `from:` or `to:` gives Format exactly; `to:` before `from:` gives StringIndexOutOfBounds exactly; otherwise NoDescription exactly when the description, start or end text is blank |
| Command.AddTimedEvent | src/main/java/duke/Command.java:157-162 | an unparsable time gives DateParse exactly; an end strictly before the start gives Format exactly; an equal start and end is accepted; success appends one event with both dates |
| Command.AddEvent | src/main/java/duke/Command.java:144-163 | a missing marker gives Format; `to:` before `from:` gives StringIndexOutOfBounds exactly; a blank description, start or end text gives NoDescription exactly, whatever the date parser does; then an unparsable time gives DateParse exactly, an end strictly before the start gives Format exactly, an equal start and end is accepted, and success appends one event |
| Command.MarkTask | src/main/java/duke/Command.java:249-266 | blank gives NoDescription, a rejected index gives Format, an index outside [1, size] gives IndexOutOfBounds exactly; a done task is left as it is; otherwise only that task's flag becomes done |
| Command.UnmarkTask | src/main/java/duke/Command.java:221-238 | the same checks as markTask; a task not done is left as it is; otherwise only that task's flag is cleared |
| Command.MarkIdempotent | src/main/java/duke/Command.java:258-264 | marking again with the same argument leaves the list unchanged |
| Command.UnmarkUndoesMark | src/main/java/duke/Command.java:230-236 | unmarking the task that marking just flipped restores the original list |
| Command.Find | src/main/java/duke/Command.java:199-209 | find reports exactly the tasks whose description contains the keyword, each once with its 1-based number, in list order |
| Command.FindEmptyKeyword | src/main/java/duke/Command.java:202 | with the empty keyword find reports the whole numbered list |
| Command.FindNothing | src/main/java/duke/Command.java:199-209 | find reports nothing exactly when no description contains the keyword |
| TaskModel.Catch | src/main/java/duke/Command.java:42-55 | one `try`/`catch` around a handler: the state changes only through the handler's own success; the note is Rejected exactly when the handler threw a caught exception, and then the state is the one before the call and the note names that exception; the result is `Err` exactly when the exception is not caught, and it carries the same exception; both executors use it |
| Command.ExecuteAdd | src/main/java/duke/Command.java:32-69 | each of todo, deadline and event reports the result of its own handler: a success is reported as an addition of the handler's list, which appends one well-formed task; NoDescription is caught for a todo, and NoDescription, Format and DateParse for a deadline or an event, each as a rejection that leaves the list unchanged; every other failure escapes, and the only one that can is an event's StringIndexOutOfBounds |
| Command.ExecuteFlag | src/main/java/duke/Command.java:70-95 | mark and unmark each report the result of their own handler and never escape; a missing, malformed or out-of-range index is a rejection that leaves the list unchanged; a success is reported as a flip exactly when one task's flag changed, and otherwise as already set with the list unchanged |
| Command.Dispatch | src/main/java/duke/Command.java:28-117 | list, help and find leave the list unchanged and show the numbered list, the usage and find's hits; todo, deadline, event, mark and unmark report their own handler as above; delete reports deleteTask under the same catch clause as mark; any other keyword throws InvalidCommand; every reported note agrees with the change to the list |
| Command.Execute | src/main/java/duke/Command.java:24-118 | the same guarantees, keyword by keyword, for the keyword and argument the command parser extracts from the input |
| Command.StepKeepsWellFormed | src/main/java/duke/Command.java:24-118 | a step whose note agrees with its change, other than a deletion, keeps every task with a non-blank description and every event ending no earlier than it starts |
| Command.ExecuteKeepsWellFormed | src/main/java/duke/Command.java:24-118 | every command other than delete preserves that invariant of the list |
| Duke.Initial | src/main/java/duke/Duke.java:6-8 | the starting array has 100 null slots and a count of zero |
| Duke.Contents | src/main/java/duke/Duke.java:7-8 | the tasks held are exactly the first taskCount slots, in order |
| Duke.AddTask | src/main/java/duke/Duke.java:12-15 | with room, the task goes to slot taskCount, the count rises by one, and every other slot is unchanged; on a full array the store throws ArrayIndexOutOfBounds |
| Duke.AddTodo | src/main/java/duke/Duke.java:210-219 | blank arguments give NoDescription; otherwise the untrimmed argument becomes one new todo in the next slot |
| Duke.AddDeadline | src/main/java/duke/Duke.java:190-208 | no `/by` gives Format exactly; a blank description or due text gives NoDescription exactly; the due text is the rest trimmed with every `/by` dropped and not trimmed again |
| Duke.AddEvent | src/main/java/duke/Duke.java:171-188 | missing markers give Format exactly; `/to` before `/from` gives StringIndexOutOfBounds exactly; a blank field gives NoDescription exactly; there is no ordering check and the times are kept as text |
| Duke.MarkTask | src/main/java/duke/Duke.java:153-169 | blank gives NoDescription, a non-numeral gives NumberFormat, an index outside [1, taskCount] gives IndexOutOfBounds exactly; otherwise only that task becomes done, or nothing changes if it already was |
| Duke.UnmarkTask | src/main/java/duke/Duke.java:135-151 | the same checks as markTask; otherwise only that task becomes not done, or nothing changes if it already was |
| Duke.ContentsDetermine | src/main/java/duke/Duke.java:7-8 | two valid registries holding the same tasks are equal |
| Duke.MarkIdempotent | src/main/java/duke/Duke.java:161-167 | marking again with the same argument leaves the registry unchanged |
| Duke.UnmarkUndoesMark | src/main/java/duke/Duke.java:143-149 | unmarking the task that marking just flipped restores the original registry |
| Duke.ListTasks | src/main/java/duke/Duke.java:221-228 | the listing has one line per filled slot, in slot order, numbered from 1 |
| Duke.SplitCommand | src/main/java/duke/Duke.java:47-50 | the keyword holds no `\s` character, and the line is blank exactly when both keyword and argument are empty |
| Duke.SplitTrimmed | src/main/java/duke/Duke.java:47-48 | on trimmed text the argument is empty exactly when there is no `\s` character; otherwise the keyword and argument surround the first `\s` run |
| Duke.SplitKeywordAndArgs | src/main/java/duke/Duke.java:47-50 | a keyword, one blank and a trimmed argument split back into that keyword and that argument |
| Duke.SplitAtBlank | src/main/java/duke/Duke.java:47-48 | trimmed `keyword args` is cut at the single blank |
| Duke.ProcessAdd | src/main/java/duke/Duke.java:55-89 | each of todo, deadline and event reports the result of its own handler: a success is reported as an addition of the handler's registry, which stores one task; NoDescription is caught for a todo, and NoDescription and Format for a deadline or an event, each as a rejection that leaves the registry unchanged; only the array overflow and an event's StringIndexOutOfBounds escape |
| Duke.ProcessFlag | src/main/java/duke/Duke.java:90-115 | mark and unmark each report the result of their own handler; a missing or out-of-range index is a rejection that leaves the registry unchanged, and only NumberFormat escapes; a success is reported as a flip exactly when one task's flag changed, and otherwise as already set with the registry unchanged |
| Duke.FlagMatches | src/main/java/duke/Duke.java:161-167 | a flag outcome is reported as a flip exactly when the registry changed |
| Duke.Dispatch | src/main/java/duke/Duke.java:51-121 | list and help leave the registry unchanged and show the numbered list and the usage; todo, deadline, event, mark and unmark report their own handler as above; InvalidCommand is thrown exactly for keywords outside the seven; the escaping failures are InvalidCommand, NumberFormat, StringIndexOutOfBounds and ArrayIndexOutOfBounds; every note agrees with the change |
| Duke.Process | src/main/java/duke/Duke.java:46-123 | the same guarantees, keyword by keyword, for the keyword and argument split off the line |
| Duke.StepKeepsWellFormed | src/main/java/duke/Duke.java:46-123 | a step whose note agrees with its change keeps every stored field non-blank |
| Duke.ProcessKeepsWellFormed | src/main/java/duke/Duke.java:46-123 | every line processed preserves that invariant of the registry |
| Duke.DeadlineKeepsBlank | src/main/java/duke/Duke.java:199 | when `d` and `w` have no leading or trailing blank and contain no `/`: `d /by w` stores description `d` and due text `" " + w`, keeping the blank that follows the marker |
| Duke.DeadlineSplit | src/main/java/duke/Duke.java:191-199 | when `d` and `w` have no leading or trailing blank and contain no `/`: in `d /by w` the marker is found right after `d `, and the due text computed is `" " + w` |
| Duke.ProcessLine | src/main/java/duke/Duke.java:46-51 | a line of a keyword free of blanks, one blank and a non-empty argument with no blank at either end reaches the case of that keyword with that argument |
| Duke.FindAndDeleteUnknown | src/main/java/duke/Duke.java:119-120 | `find a` and `delete a`, for a non-empty argument `a` with no blank at either end, are rejected with InvalidCommand |
| Duke.TodoLine | src/main/java/duke/Duke.java:55-57 | when `d` has no leading or trailing blank: `todo d` adds the todo `d` while there is room, and escapes with ArrayIndexOutOfBounds on the 101st task |
| Duke.DeadlineLine | src/main/java/duke/Duke.java:64-66 | when the registry has room, and `d` and `w` have no leading or trailing blank and contain no `/`: `deadline d /by w` adds a deadline with due text `" " + w` |
| Duke.MarkLine | src/main/java/duke/Duke.java:90-92 | `mark k` for an existing task k marks it, and reports it as already done exactly when it was |

## Left out

- Console input and the main loop are not modelled because they are I/O. This covers `inputCommand`, its skipping of blank and `#` lines, `main`, and the `bye` check.
- Printing is not modelled. This covers the banners, `greet`, `goodBye`, `info`, `printLine`, every message, and `Ui.*`. A handler's output is reduced to the `Note` it returns.
- Task rendering (`toString` of `Task`, `Todo`, `Deadline` and `Event`) is not part of this model.
- `Parser.parseCommand`, `Parser.parseDate` and `Parser.parseIndex` are not part of this model. They are abstract parameters, and no date format is assumed.
- `TaskList.deleteTask` is not part of this model. It is an abstract parameter, and only the catch clause around it is modelled.
- `TaskList.addTask` is not part of this model. It is taken to append to the list.
- `Parser.parseCommand` is taken to always return at least two strings, the keyword and its argument, so that reading `commandTypeAndParams[1]` (Command.java:27) never throws.
- `Ui.printListOfTasks` is not part of this model. It is taken to enumerate the list numbered from 1.
- The unused `commands` array (Duke.java:10) is not modelled.
- The classes `Task`, `Todo`, `Deadline` and `Event` are not part of this model. Their constructors are taken to store the given description (and time text or dates) with the task not done, and `markAsDone`/`markAsNotDone` are taken to change only the done flag.
- Characters: a Dafny `string` is a sequence of Unicode scalar values, while a Java `String` is a sequence of UTF-16 code units, so indices differ on text outside the Basic Multilingual Plane. No result of the model depends on this: every marker is ASCII, and `trim` and `\s` only touch characters up to U+0020.
- JavaInt.ParseInt: accepts only ASCII digits. `Integer.parseInt` also accepts the other Unicode decimal digits.
- Command.Dispatch: states `keyword !in KEYWORDS ==> Err(InvalidCommand)` in one direction only. `deleteTask` is abstract and may itself throw an `InvalidCommandException` that escapes.
- Command.Execute: states `InvalidCommand` for an unknown keyword in one direction only, for the same reason. It also requires at most 2^31 - 1 tasks, as mark and unmark do.
- Command.ExecuteFlag: requires the list to have at most 2^31 - 1 tasks, the size limit of a Java `ArrayList`.
- Command.MarkTask: requires the list to have at most 2^31 - 1 tasks, the size limit of a Java `ArrayList`.
- Command.UnmarkTask: requires the list to have at most 2^31 - 1 tasks, the size limit of a Java `ArrayList`.
- Command.StepKeepsWellFormed: excludes deletions, because `deleteTask` is abstract.
- Command.ExecuteKeepsWellFormed: excludes deletions, because `deleteTask` is abstract.
- Event ordering: the documentation comment of `addEvent` (Command.java:141) promises a FormatException for a wrongly formatted event. When `to:` comes before `from:`, `substring` throws StringIndexOutOfBoundsException instead, and `execute` does not catch it. The model follows the code, and so it does for Duke.java's `/to` before `/from`.

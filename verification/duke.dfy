/** The legacy array-backed executor of src/main/java/duke/Duke.java: a fixed array
    of MAX_TASKS slots with a `taskCount`, its own keyword split, `/by`, `/from` and
    `/to` markers whose times stay raw text, and seven keywords. */
module Duke {
  import opened Outcomes
  import opened JavaText
  import opened JavaInt
  import opened TaskModel

  const MAX_TASKS := 100

  const BY_MARKER := "/by"
  const FROM_MARKER := "/from"
  const TO_MARKER := "/to"

  /** The keywords `process` dispatches on; any other one throws InvalidCommandException. */
  const KEYWORDS: set<string> := {"list", "todo", "deadline", "event", "mark", "unmark", "help"}

  /** The static `tasks` array (a null slot is None) and `taskCount`. */
  datatype Registry = Registry(slots: seq<Option<Task<string>>>, taskCount: int)

  /** The array has MAX_TASKS slots; exactly those below taskCount are filled, since
      the only store into the array is addTask's store at taskCount. */
  predicate Valid(reg: Registry) {
    && |reg.slots| == MAX_TASKS
    && 0 <= reg.taskCount <= MAX_TASKS
    && forall i | 0 <= i < MAX_TASKS :: reg.slots[i].Some? <==> i < reg.taskCount
  }

  /** The state when the program starts: every slot null, no tasks. */
  function Initial(): (reg: Registry)
    ensures Valid(reg) && reg.taskCount == 0
  {
    Registry(seq(MAX_TASKS, _ => None), 0)
  }

  /** The tasks held, in slot order. */
  function Contents(reg: Registry): (tasks: seq<Task<string>>)
    requires Valid(reg)
    ensures |tasks| == reg.taskCount
    ensures forall i | 0 <= i < |tasks| :: reg.slots[i] == Some(tasks[i])
  {
    seq(reg.taskCount, i requires 0 <= i < reg.taskCount => reg.slots[i].value)
  }

  /** What every task this executor creates satisfies: no blank field. */
  predicate WellFormed(t: Task<string>) {
    && !IsBlank(t.description)
    && (t.kind.Deadline? ==> !IsBlank(t.kind.due))
    && (t.kind.Event? ==> !IsBlank(t.kind.start) && !IsBlank(t.kind.end))
  }

  predicate AllWellFormed(tasks: seq<Task<string>>) {
    forall i | 0 <= i < |tasks| :: WellFormed(tasks[i])
  }

  /** `after` holds the tasks of `reg` in the same slots plus one well-formed task
      in the next slot. */
  predicate Grown(reg: Registry, after: Registry)
    requires Valid(reg)
  {
    && Valid(after)
    && after.taskCount == reg.taskCount + 1
    && Contents(after)[..reg.taskCount] == Contents(reg)
    && WellFormed(Contents(after)[reg.taskCount])
  }

  // ---------------------------------------------------------------- addTask

  /** addTask: store the task in slot taskCount and count it. On a full array the
      store throws before taskCount moves. */
  function AddTask(reg: Registry, t: Task<string>): (r: Result<Registry>)
    requires Valid(reg)
    ensures r.Ok? <==> reg.taskCount < MAX_TASKS
    ensures r.Err? ==> r.failure == ArrayIndexOutOfBounds
    ensures r.Ok? ==>
      && Valid(r.value)
      && r.value.taskCount == reg.taskCount + 1
      && r.value.slots[reg.taskCount] == Some(t)
      && (forall i | 0 <= i < MAX_TASKS && i != reg.taskCount :: r.value.slots[i] == reg.slots[i])
      && Appended(Contents(reg), Contents(r.value), t)
  {
    if reg.taskCount < |reg.slots| then
      var after := Registry(reg.slots[reg.taskCount := Some(t)], reg.taskCount + 1);
      assert Contents(after)[..reg.taskCount] == Contents(reg);
      Ok(after)
    else Err(ArrayIndexOutOfBounds)
  }

  // ---------------------------------------------------------------- todo

  /** addTodo: a blank argument is rejected; otherwise the argument, untrimmed,
      becomes one new todo. */
  function AddTodo(reg: Registry, args: string): (r: Result<Registry>)
    requires Valid(reg)
    ensures r.Ok? ==> Grown(reg, r.value)
    ensures r.Err? ==> r.failure in {NoDescription, ArrayIndexOutOfBounds}
    ensures IsBlank(args) ==> r == Err(NoDescription)
    ensures !IsBlank(args) ==> r == AddTask(reg, NewTask(args, Todo)) && WellFormed(NewTask(args, Todo))
  {
    if |Trim(args)| == 0 then Err(NoDescription) else AddTask(reg, NewTask(args, Todo))
  }

  // ---------------------------------------------------------------- deadline

  /** addDeadline: a missing `/by` is a format error; then the description before it
      must be non-blank, checked before the due text is even computed; then the due
      text (the rest, trimmed, with every `/by` dropped but NOT trimmed again) must be
      non-blank; then one deadline is added. */
  function AddDeadline(reg: Registry, args: string): (r: Result<Registry>)
    requires Valid(reg)
    ensures r.Ok? ==> Grown(reg, r.value)
    ensures r.Err? ==> r.failure in {Format, NoDescription, ArrayIndexOutOfBounds}
    ensures r == Err(Format) <==> !Contains(args, BY_MARKER)
    ensures Contains(args, BY_MARKER) ==>
      var i := IndexOf(args, BY_MARKER);
      var due := RemoveAll(Trim(args[i..]), BY_MARKER);
      && (r == Err(NoDescription) <==> IsBlank(args[..i]) || IsBlank(due))
      && (!IsBlank(args[..i]) && !IsBlank(due) ==>
            r == AddTask(reg, NewTask(Trim(args[..i]), Deadline(due))) && WellFormed(NewTask(Trim(args[..i]), Deadline(due))))
  {
    var i := IndexOf(args, BY_MARKER);
    if i == -1 then Err(Format)
    else
      var description := Trim(args[..i]);
      BlankTrim(args[..i]);
      BlankTrim(description);
      if |Trim(description)| == 0 then Err(NoDescription)
      else
        var due := RemoveAll(Trim(args[i..]), BY_MARKER);
        if |Trim(due)| == 0 then Err(NoDescription)
        else AddTask(reg, NewTask(description, Deadline(due)))
  }

  // ---------------------------------------------------------------- event

  /** addEvent: both markers must occur (else a format error) with `/from` first
      (else `substring` throws); the description and both times must be non-blank;
      the times are kept as text, with no ordering check; then one event is added. */
  function AddEvent(reg: Registry, args: string): (r: Result<Registry>)
    requires Valid(reg)
    ensures r.Ok? ==> Grown(reg, r.value)
    ensures r.Err? ==> r.failure in {Format, StringIndexOutOfBounds, NoDescription, ArrayIndexOutOfBounds}
    ensures r == Err(Format) <==> !Contains(args, FROM_MARKER) || !Contains(args, TO_MARKER)
    ensures r == Err(StringIndexOutOfBounds) <==>
      Contains(args, FROM_MARKER) && Contains(args, TO_MARKER) && IndexOf(args, TO_MARKER) < IndexOf(args, FROM_MARKER)
    ensures Contains(args, FROM_MARKER) && Contains(args, TO_MARKER) && IndexOf(args, FROM_MARKER) <= IndexOf(args, TO_MARKER) ==>
      var f := IndexOf(args, FROM_MARKER);
      var t := IndexOf(args, TO_MARKER);
      var from := RemoveAll(Trim(args[f..t]), FROM_MARKER);
      var to := RemoveAll(Trim(args[t..]), TO_MARKER);
      && (r == Err(NoDescription) <==> IsBlank(args[..f]) || IsBlank(from) || IsBlank(to))
      && (!IsBlank(args[..f]) && !IsBlank(from) && !IsBlank(to) ==>
            r == AddTask(reg, NewTask(Trim(args[..f]), Event(from, to))) && WellFormed(NewTask(Trim(args[..f]), Event(from, to))))
  {
    var f := IndexOf(args, FROM_MARKER);
    var t := IndexOf(args, TO_MARKER);
    if t == -1 || f == -1 then Err(Format)
    else if t < f then Err(StringIndexOutOfBounds)
    else
      var description := Trim(args[..f]);
      var from := RemoveAll(Trim(args[f..t]), FROM_MARKER);
      var to := RemoveAll(Trim(args[t..]), TO_MARKER);
      BlankTrim(args[..f]);
      BlankTrim(description);
      BlankTrim(from);
      BlankTrim(to);
      if |Trim(Trim(args[..f]))| == 0 || |Trim(from)| == 0 || |Trim(to)| == 0 then Err(NoDescription)
      else AddTask(reg, NewTask(description, Event(from, to)))
  }

  // ---------------------------------------------------------------- mark / unmark

  /** The shared body of markTask (done = true) and unmarkTask (done = false). */
  function SetFlag(reg: Registry, args: string, done: bool): (r: Result<Registry>)
    requires Valid(reg)
  {
    if |Trim(args)| == 0 then Err(NoDescription)
    else
      match ParseInt(args)
      case None => Err(NumberFormat)
      case Some(n) =>
        var id := Pred(n);
        if id < 0 || id >= reg.taskCount then Err(IndexOutOfBounds)
        else if reg.slots[id].value.isDone == done then Ok(reg)
        else Ok(reg.(slots := reg.slots[id := Some(reg.slots[id].value.(isDone := done))]))
  }

  /** The flag of task `n` (1-based) becomes `done` and nothing else changes; when it
      already was `done`, the registry is returned as it was. */
  predicate FlagOutcome(reg: Registry, r: Result<Registry>, n: int, done: bool)
    requires Valid(reg)
    requires 1 <= n <= reg.taskCount
  {
    && r.Ok?
    && Valid(r.value)
    && r.value.taskCount == reg.taskCount
    && (Contents(reg)[n - 1].isDone == done ==> r.value == reg)
    && (Contents(reg)[n - 1].isDone != done ==> FlagSet(Contents(reg), Contents(r.value), n - 1, done))
  }

  /** markTask: a blank argument and an index outside [1, taskCount] are caught
      errors; text Integer.parseInt rejects throws NumberFormatException, which
      nothing catches; a task already done stays as it is; otherwise only that
      task becomes done. */
  function MarkTask(reg: Registry, args: string): (r: Result<Registry>)
    requires Valid(reg)
    ensures IsBlank(args) ==> r == Err(NoDescription)
    ensures !IsBlank(args) && ParseInt(args).None? ==> r == Err(NumberFormat)
    ensures !IsBlank(args) && ParseInt(args).Some? ==>
      var n := ParseInt(args).value;
      && (n < 1 || n > reg.taskCount <==> r == Err(IndexOutOfBounds))
      && (1 <= n <= reg.taskCount ==> FlagOutcome(reg, r, n, true))
  {
    var r := SetFlag(reg, args, true);
    assert r.Ok? ==> Contents(r.value) == Contents(reg)[Pred(ParseInt(args).value) := Contents(r.value)[Pred(ParseInt(args).value)]];
    r
  }

  /** unmarkTask: the same checks as markTask; a task not done stays as it is;
      otherwise only that task becomes not done. */
  function UnmarkTask(reg: Registry, args: string): (r: Result<Registry>)
    requires Valid(reg)
    ensures IsBlank(args) ==> r == Err(NoDescription)
    ensures !IsBlank(args) && ParseInt(args).None? ==> r == Err(NumberFormat)
    ensures !IsBlank(args) && ParseInt(args).Some? ==>
      var n := ParseInt(args).value;
      && (n < 1 || n > reg.taskCount <==> r == Err(IndexOutOfBounds))
      && (1 <= n <= reg.taskCount ==> FlagOutcome(reg, r, n, false))
  {
    var r := SetFlag(reg, args, false);
    assert r.Ok? ==> Contents(r.value) == Contents(reg)[Pred(ParseInt(args).value) := Contents(r.value)[Pred(ParseInt(args).value)]];
    r
  }

  /** A valid registry is determined by the tasks it holds. */
  lemma ContentsDetermine(a: Registry, b: Registry)
    requires Valid(a) && Valid(b)
    requires Contents(a) == Contents(b)
    ensures a == b
  {
    forall i | 0 <= i < MAX_TASKS ensures a.slots[i] == b.slots[i] {
      if i < a.taskCount {
        assert a.slots[i] == Some(Contents(a)[i]);
      }
    }
  }

  /** Marking twice with the same argument is marking once. */
  lemma MarkIdempotent(reg: Registry, args: string)
    requires Valid(reg)
    requires MarkTask(reg, args).Ok?
    ensures var marked := MarkTask(reg, args).value;
      Valid(marked) && MarkTask(marked, args) == Ok(marked)
  {
    var n := ParseInt(args).value;
    var marked := MarkTask(reg, args).value;
    assert FlagOutcome(reg, MarkTask(reg, args), n, true);
    assert Contents(marked)[n - 1].isDone;
  }

  /** Unmarking a task that marking just changed restores the registry. */
  lemma UnmarkUndoesMark(reg: Registry, args: string)
    requires Valid(reg)
    requires MarkTask(reg, args).Ok? && MarkTask(reg, args).value != reg
    ensures var marked := MarkTask(reg, args).value;
      Valid(marked) && UnmarkTask(marked, args) == Ok(reg)
  {
    var n := ParseInt(args).value;
    var marked := MarkTask(reg, args).value;
    assert FlagOutcome(reg, MarkTask(reg, args), n, true);
    assert !Contents(reg)[n - 1].isDone;
    assert FlagSet(Contents(reg), Contents(marked), n - 1, true);
    var back := UnmarkTask(marked, args).value;
    assert FlagOutcome(marked, UnmarkTask(marked, args), n, false);
    assert FlagSet(Contents(marked), Contents(back), n - 1, false);
    assert Contents(back) == Contents(reg) by {
      assert Contents(back)[n - 1] == Contents(reg)[n - 1];
    }
    ContentsDetermine(back, reg);
  }

  // ---------------------------------------------------------------- list

  /** printListOfTasks: slots 0 .. taskCount-1 in order, numbered from 1. */
  method ListTasks(reg: Registry) returns (lines: seq<Hit<string>>)
    requires Valid(reg)
    ensures |lines| == reg.taskCount
    ensures forall i | 0 <= i < |lines| :: lines[i].number == i + 1 && reg.slots[i] == Some(lines[i].task)
    ensures lines == Listing(Contents(reg))
  {
    lines := [];
    var i := 0;
    while i < reg.taskCount
      invariant 0 <= i <= reg.taskCount
      invariant |lines| == i
      invariant forall k | 0 <= k < i :: lines[k].number == k + 1 && reg.slots[k] == Some(lines[k].task)
    {
      lines := lines + [Hit(i + 1, reg.slots[i].value)];
      i := i + 1;
    }
  }

  // ---------------------------------------------------------------- process

  /** The keyword and argument text of a line: `line.trim().split("\\s+", 2)`, with ""
      as the argument when there is only one piece. */
  function SplitCommand(line: string): (r: (string, string))
    ensures forall i | 0 <= i < |r.0| :: !IsRegexSpace(r.0[i])
    ensures IsBlank(line) <==> r == ("", "")
  {
    SplitTrimmed(Trim(line))
  }

  /** The split of a line that `trim` has already processed. */
  function SplitTrimmed(t: string): (r: (string, string))
    requires t == [] || (!IsTrimSpace(t[0]) && !IsTrimSpace(t[|t| - 1]))
    ensures forall i | 0 <= i < |r.0| :: !IsRegexSpace(r.0[i])
    ensures r.1 == [] <==> forall i | 0 <= i < |t| :: !IsRegexSpace(t[i])
    ensures r.1 == [] ==> r.0 == t
    ensures r.1 != [] ==>
      && |r.0| + |r.1| < |t|
      && t[..|r.0|] == r.0
      && t[|t| - |r.1|..] == r.1
      && (forall i | |r.0| <= i < |t| - |r.1| :: IsRegexSpace(t[i]))
      && !IsRegexSpace(r.1[0])
    ensures t != [] ==> r.0 != []
  {
    var split := SplitOnce(t);
    if |split| == 2 then
      assert split[1] != [] by {
        RegexSpaceIsTrimSpace(t[|t| - 1]);
      }
      assert split[0] != [] by {
        RegexSpaceIsTrimSpace(t[0]);
      }
      (split[0], split[1])
    else (split[0], "")
  }

  /** A line made of a keyword, a space and an argument that is already trimmed
      splits back into that keyword and that argument. */
  lemma SplitKeywordAndArgs(keyword: string, args: string)
    requires keyword != [] && forall i | 0 <= i < |keyword| :: !IsTrimSpace(keyword[i])
    requires Unpadded(args)
    ensures SplitCommand(keyword + " " + args) == (keyword, args)
  {
    var line := keyword + " " + args;
    assert Trim(line) == line by {
      assert line[0] == keyword[0] && line[|line| - 1] == args[|args| - 1];
      TrimUnpadded(line);
    }
    SplitAtBlank(keyword, args);
  }

  /** The split of an already trimmed `keyword args` cuts at the one blank. */
  lemma SplitAtBlank(keyword: string, args: string)
    requires keyword != [] && forall i | 0 <= i < |keyword| :: !IsTrimSpace(keyword[i])
    requires Unpadded(args)
    ensures Unpadded(keyword + " " + args)
    ensures SplitTrimmed(keyword + " " + args) == (keyword, args)
  {
    var line := keyword + " " + args;
    var k := |keyword|;
    assert line[0] == keyword[0] && line[|line| - 1] == args[|args| - 1];
    assert line[k] == ' ';
    assert line[k + 1] == args[0];
    assert line[..k] == keyword;
    assert line[k + 1..] == args;
    var r := SplitTrimmed(line);
    assert r.1 != [] by {
      assert IsRegexSpace(line[k]);
    }
    var g := |line| - |r.1|;
    assert |r.0| == k by {
      forall i | 0 <= i < k ensures !IsRegexSpace(line[i]) {
        RegexSpaceIsTrimSpace(line[i]);
        assert line[i] == keyword[i];
      }
    }
    assert g == k + 1 by {
      RegexSpaceIsTrimSpace(line[k + 1]);
    }
    assert r.1 == line[g..];
  }

  /** The registry after a line, and what was reported. */
  type ArrayTurn = Turn<Registry, string>

  /** The note agrees with what happened to the registry: nothing changes on a
      rejection, a listing, help or a flag already set; an addition appends one task;
      a flip changes one task's flag and nothing else. */
  predicate NoteMatchesChange(reg: Registry, after: Registry, note: Note<string>)
    requires Valid(reg) && Valid(after)
  {
    && (note.Rejected? || note.Shown? || note.Usage? || note.AlreadyInState? ==> after == reg)
    && (note.Added? ==> Grown(reg, after))
    && (note.Flipped? ==>
          exists i | 0 <= i < reg.taskCount :: FlagSet(Contents(reg), Contents(after), i, !Contents(reg)[i].isDone))
  }

  /** What `process` catches around the deadline and event handlers, and around
      mark and unmark. */
  const ADD_CAUGHT: set<Failure> := {NoDescription, Format}
  const INDEX_CAUGHT: set<Failure> := {NoDescription} + INDEX_OUT_OF_BOUNDS

  /** `r` is what an adding keyword reports: the result of its own handler, with
      only NoDescription caught for a todo and also Format for a deadline or an
      event, and a success reported as an addition. */
  ghost predicate AddReported(reg: Registry, keyword: string, args: string, r: Result<ArrayTurn>)
    requires Valid(reg)
  {
    && (keyword == "todo" ==> Reports(reg, AddTodo(reg, args), {NoDescription}, r))
    && (keyword == "deadline" ==> Reports(reg, AddDeadline(reg, args), ADD_CAUGHT, r))
    && (keyword == "event" ==> Reports(reg, AddEvent(reg, args), ADD_CAUGHT, r))
    && (r.Ok? ==> r.value.note == Added || r.value.note.Rejected?)
  }

  /** `r` is what mark or unmark reports: the result of its own handler, with a
      missing or out-of-range index caught, and a success reported as a flip or as
      a flag already set. */
  ghost predicate FlagReported(reg: Registry, keyword: string, args: string, r: Result<ArrayTurn>)
    requires Valid(reg)
  {
    && (keyword == "mark" ==> Reports(reg, MarkTask(reg, args), INDEX_CAUGHT, r))
    && (keyword == "unmark" ==> Reports(reg, UnmarkTask(reg, args), INDEX_CAUGHT, r))
    && (r.Ok? ==> r.value.note == Flipped || r.value.note == AlreadyInState || r.value.note.Rejected?)
  }

  /** `r` is what `process` does for `keyword`: list and help show something and
      leave the registry alone, each other keyword reports its own handler, and
      an unknown keyword throws InvalidCommandException. */
  ghost predicate Handles(reg: Registry, keyword: string, args: string, r: Result<ArrayTurn>)
    requires Valid(reg)
  {
    && (keyword == "list" ==> r == Ok(Turn(reg, Shown(Listing(Contents(reg))))))
    && (keyword == "help" ==> r == Ok(Turn(reg, Usage)))
    && (keyword in {"todo", "deadline", "event"} ==> AddReported(reg, keyword, args, r))
    && (keyword in {"mark", "unmark"} ==> FlagReported(reg, keyword, args, r))
    && (keyword !in KEYWORDS ==> r == Err(InvalidCommand))
  }

  /** The todo, deadline and event cases of the switch. */
  function ProcessAdd(reg: Registry, keyword: string, args: string): (r: Result<ArrayTurn>)
    requires Valid(reg)
    requires keyword in {"todo", "deadline", "event"}
    ensures r.Err? ==> r.failure == ArrayIndexOutOfBounds || (keyword == "event" && r.failure == StringIndexOutOfBounds)
    ensures r.Ok? ==> Valid(r.value.state) && NoteMatchesChange(reg, r.value.state, r.value.note)
    ensures AddReported(reg, keyword, args, r)
  {
    var outcome :=
      if keyword == "todo" then AddTodo(reg, args)
      else if keyword == "deadline" then AddDeadline(reg, args)
      else AddEvent(reg, args);
    var caught: set<Failure> := if keyword == "todo" then {NoDescription} else ADD_CAUGHT;
    assert outcome.Ok? ==> Grown(reg, outcome.value);
    assert outcome.Err? ==> outcome.failure in caught + {StringIndexOutOfBounds, ArrayIndexOutOfBounds};
    Catch(reg, outcome, caught, Added)
  }

  /** The mark and unmark cases of the switch. */
  function ProcessFlag(reg: Registry, keyword: string, args: string): (r: Result<ArrayTurn>)
    requires Valid(reg)
    requires keyword in {"mark", "unmark"}
    ensures r.Err? ==> r.failure == NumberFormat
    ensures r.Ok? ==> Valid(r.value.state) && NoteMatchesChange(reg, r.value.state, r.value.note)
    ensures FlagReported(reg, keyword, args, r)
  {
    var outcome := if keyword == "mark" then MarkTask(reg, args) else UnmarkTask(reg, args);
    var note := if outcome == Ok(reg) then AlreadyInState else Flipped;
    if outcome.Ok? then
      FlagMatches(reg, outcome, ParseInt(args).value, keyword == "mark");
      Catch(reg, outcome, INDEX_CAUGHT, note)
    else Catch(reg, outcome, INDEX_CAUGHT, note)
  }

  /** A flag outcome is reported as a flip exactly when the registry changed. */
  lemma FlagMatches(reg: Registry, outcome: Result<Registry>, n: int, done: bool)
    requires Valid(reg) && 1 <= n <= reg.taskCount
    requires FlagOutcome(reg, outcome, n, done)
    ensures Valid(outcome.value)
    ensures NoteMatchesChange(reg, outcome.value, if outcome == Ok(reg) then AlreadyInState else Flipped)
  {
    if outcome != Ok(reg) {
      assert FlagSet(Contents(reg), Contents(outcome.value), n - 1, !Contents(reg)[n - 1].isDone);
    }
  }

  /** The switch of `process` on an already split line. */
  function Dispatch(reg: Registry, keyword: string, args: string): (r: Result<ArrayTurn>)
    requires Valid(reg)
    ensures keyword !in KEYWORDS <==> r == Err(InvalidCommand)
    ensures r.Err? ==> r.failure in {InvalidCommand, NumberFormat, StringIndexOutOfBounds, ArrayIndexOutOfBounds}
    ensures r.Ok? ==> Valid(r.value.state) && NoteMatchesChange(reg, r.value.state, r.value.note)
    ensures r.Ok? ==> !r.value.note.Deleted?
    ensures Handles(reg, keyword, args, r)
  {
    if keyword == "list" then Ok(Turn(reg, Shown(Listing(Contents(reg)))))
    else if keyword in {"todo", "deadline", "event"} then ProcessAdd(reg, keyword, args)
    else if keyword in {"mark", "unmark"} then ProcessFlag(reg, keyword, args)
    else if keyword == "help" then Ok(Turn(reg, Usage))
    else Err(InvalidCommand)
  }

  /** process: split the line, dispatch on the keyword, and catch what each case of
      the switch catches. `find` and `delete` are not keywords here. */
  function Process(reg: Registry, line: string): (r: Result<ArrayTurn>)
    requires Valid(reg)
    ensures SplitCommand(line).0 !in KEYWORDS <==> r == Err(InvalidCommand)
    ensures r.Err? ==> r.failure in {InvalidCommand, NumberFormat, StringIndexOutOfBounds, ArrayIndexOutOfBounds}
    ensures r.Ok? ==> Valid(r.value.state) && NoteMatchesChange(reg, r.value.state, r.value.note)
    ensures r.Ok? ==> !r.value.note.Deleted?
    ensures Handles(reg, SplitCommand(line).0, SplitCommand(line).1, r)
  {
    var split := SplitCommand(line);
    Dispatch(reg, split.0, split.1)
  }

  /** A step that matches its note keeps every task well-formed: an addition brings
      a well-formed task, a flip touches only a done flag, and nothing else changes. */
  lemma {:induction false} StepKeepsWellFormed(reg: Registry, after: Registry, note: Note<string>)
    requires Valid(reg) && Valid(after)
    requires NoteMatchesChange(reg, after, note) && !note.Deleted?
    requires AllWellFormed(Contents(reg))
    ensures AllWellFormed(Contents(after))
  {
    var before, now := Contents(reg), Contents(after);
    if note.Added? {
      forall i | 0 <= i < |now| ensures WellFormed(now[i]) {
        if i < |before| {
          assert now[i] == now[..reg.taskCount][i];
        }
      }
    } else if note.Flipped? {
      var k :| 0 <= k < reg.taskCount && FlagSet(before, now, k, !before[k].isDone);
      forall i | 0 <= i < |now| ensures WellFormed(now[i]) {
        if i != k {
          assert now[i] == before[i];
        }
      }
    }
  }

  /** Every task `process` ever stores has non-blank fields. */
  lemma ProcessKeepsWellFormed(reg: Registry, line: string)
    requires Valid(reg) && AllWellFormed(Contents(reg))
    ensures Process(reg, line).Ok? ==> AllWellFormed(Contents(Process(reg, line).value.state))
  {
    var r := Process(reg, line);
    if r.Ok? {
      StepKeepsWellFormed(reg, r.value.state, r.value.note);
    }
  }

  // ---------------------------------------------------------------- whole lines

  /** A text with no blank at either end, as `trim` leaves it. */
  predicate Unpadded(s: string) {
    s != [] && !IsTrimSpace(s[0]) && !IsTrimSpace(s[|s| - 1])
  }

  predicate NoSlash(s: string) {
    forall i | 0 <= i < |s| :: s[i] != '/'
  }

  /** The due text of a deadline keeps the blank that follows `/by`: the argument is
      trimmed before the marker is dropped and not after. */
  lemma DeadlineKeepsBlank(reg: Registry, d: string, w: string)
    requires Valid(reg)
    requires Unpadded(d) && NoSlash(d) && Unpadded(w) && NoSlash(w)
    ensures AddDeadline(reg, d + " /by " + w) == AddTask(reg, NewTask(d, Deadline(" " + w)))
  {
    DeadlineSplit(d, w);
    TrimPaddedRight(d, " ");
    assert !IsBlank(d + " ") by { assert !IsTrimSpace((d + " ")[0]); }
    assert !IsBlank(" " + w) by { assert !IsTrimSpace((" " + w)[1]); }
  }

  /** Where addDeadline cuts `d /by w`, and the due text it computes. */
  lemma DeadlineSplit(d: string, w: string)
    requires Unpadded(d) && NoSlash(d) && Unpadded(w) && NoSlash(w)
    ensures var args := d + " /by " + w;
      var i := IndexOf(args, BY_MARKER);
      && i == |d| + 1
      && args[..i] == d + " "
      && RemoveAll(Trim(args[i..]), BY_MARKER) == " " + w
  {
    var args := d + " /by " + w;
    var head, tail := d + " ", " " + w;
    assert args == head + BY_MARKER + tail;
    assert forall k | 0 <= k < |head| :: head[k] != BY_MARKER[0];
    IndexOfAfter(head, BY_MARKER, tail);
    var i := |head|;
    assert args[..i] == head;
    assert args[i..] == BY_MARKER + tail;
    TrimThenRemove(BY_MARKER, w);
  }

  /** A line made of a keyword and an argument goes to the case of that keyword. */
  lemma ProcessLine(reg: Registry, keyword: string, args: string)
    requires Valid(reg)
    requires keyword != [] && forall i | 0 <= i < |keyword| :: !IsTrimSpace(keyword[i])
    requires Unpadded(args)
    ensures Process(reg, keyword + " " + args) == Dispatch(reg, keyword, args)
  {
    SplitKeywordAndArgs(keyword, args);
  }

  /** The keywords that add a task go to the adding cases. */
  lemma AddCase(reg: Registry, keyword: string, args: string)
    requires Valid(reg) && keyword in {"todo", "deadline", "event"}
    ensures Dispatch(reg, keyword, args) == ProcessAdd(reg, keyword, args)
  {
  }

  /** The keywords that set a flag go to the flag cases. */
  lemma FlagCase(reg: Registry, keyword: string, args: string)
    requires Valid(reg) && keyword in {"mark", "unmark"}
    ensures Dispatch(reg, keyword, args) == ProcessFlag(reg, keyword, args)
  {
  }

  /** `find` and `delete` belong to the list-backed executor only; here they are
      unknown keywords and the line is rejected whatever follows. */
  lemma FindAndDeleteUnknown(reg: Registry, keyword: string, args: string)
    requires Valid(reg)
    requires keyword == "find" || keyword == "delete"
    requires Unpadded(args)
    ensures Process(reg, keyword + " " + args) == Err(InvalidCommand)
  {
    assert keyword !in KEYWORDS;
    ProcessLine(reg, keyword, args);
  }

  /** `todo d` stores `d` as a new todo in the next slot while there is room, and
      the store past the last slot escapes as ArrayIndexOutOfBoundsException. */
  lemma TodoLine(reg: Registry, d: string)
    requires Valid(reg) && Unpadded(d)
    ensures reg.taskCount < MAX_TASKS ==>
      Process(reg, "todo " + d) == Ok(Turn(AddTask(reg, NewTask(d, Todo)).value, Added))
    ensures reg.taskCount == MAX_TASKS ==> Process(reg, "todo " + d) == Err(ArrayIndexOutOfBounds)
  {
    assert "todo " + d == "todo" + " " + d;
    ProcessLine(reg, "todo", d);
    TodoCase(reg, d);
  }

  lemma TodoCase(reg: Registry, d: string)
    requires Valid(reg) && Unpadded(d)
    ensures Dispatch(reg, "todo", d) == Catch(reg, AddTask(reg, NewTask(d, Todo)), {NoDescription}, Added)
  {
    assert !IsBlank(d) by { assert !IsTrimSpace(d[0]); }
    AddCase(reg, "todo", d);
  }

  /** `deadline d /by w` stores the due text with the blank after the marker. */
  lemma DeadlineLine(reg: Registry, d: string, w: string)
    requires Valid(reg) && reg.taskCount < MAX_TASKS
    requires Unpadded(d) && NoSlash(d) && Unpadded(w) && NoSlash(w)
    ensures Process(reg, "deadline " + (d + " /by " + w)) == Ok(Turn(AddTask(reg, NewTask(d, Deadline(" " + w))).value, Added))
  {
    var args := d + " /by " + w;
    assert Unpadded(args) by { assert args[0] == d[0] && args[|args| - 1] == w[|w| - 1]; }
    assert "deadline " + args == "deadline" + " " + args;
    ProcessLine(reg, "deadline", args);
    DeadlineCase(reg, d, w);
  }

  lemma DeadlineCase(reg: Registry, d: string, w: string)
    requires Valid(reg)
    requires Unpadded(d) && NoSlash(d) && Unpadded(w) && NoSlash(w)
    ensures Dispatch(reg, "deadline", d + " /by " + w)
      == Catch(reg, AddTask(reg, NewTask(d, Deadline(" " + w))), {NoDescription, Format}, Added)
  {
    DeadlineKeepsBlank(reg, d, w);
    AddCase(reg, "deadline", d + " /by " + w);
  }

  /** `r` marks task `k` as done, and reports it as already done exactly when it was. */
  predicate MarksTask(reg: Registry, k: int, r: Result<ArrayTurn>)
    requires Valid(reg) && 1 <= k <= reg.taskCount
  {
    && r.Ok?
    && (r.value.note == AlreadyInState <==> Contents(reg)[k - 1].isDone)
    && FlagOutcome(reg, Ok(r.value.state), k, true)
  }

  /** `mark k`, with k written in decimal and naming an existing task, marks that
      task: it reports the task as already done exactly when it was. */
  lemma MarkLine(reg: Registry, k: nat)
    requires Valid(reg) && 1 <= k <= reg.taskCount
    ensures MarksTask(reg, k, Process(reg, "mark " + Decimal(k)))
  {
    var s := Decimal(k);
    assert "mark " + s == "mark" + " " + s by {
      assert "mark " == "mark" + " ";
    }
    NumeralLine("mark", k);
    MarkCase(reg, k);
  }

  /** A keyword followed by a decimal numeral is split at the blank. */
  lemma NumeralLine(keyword: string, k: nat)
    requires keyword != [] && forall i | 0 <= i < |keyword| :: !IsTrimSpace(keyword[i])
    ensures SplitCommand(keyword + " " + Decimal(k)) == (keyword, Decimal(k))
  {
    var s := Decimal(k);
    DecimalValue(k);
    assert Unpadded(s) by { assert IsDigit(s[0]) && IsDigit(s[|s| - 1]); }
    SplitKeywordAndArgs(keyword, s);
  }

  lemma MarkCase(reg: Registry, k: nat)
    requires Valid(reg) && 1 <= k <= reg.taskCount
    ensures MarksTask(reg, k, Dispatch(reg, "mark", Decimal(k)))
  {
    var s := Decimal(k);
    DecimalValue(k);
    ParseIntDecimal(k);
    assert !IsBlank(s) by { assert IsDigit(s[0]); }
    var m := MarkTask(reg, s);
    var note := if m == Ok(reg) then AlreadyInState else Flipped;
    FlagCase(reg, "mark", s);
    assert ProcessFlag(reg, "mark", s) == Catch(reg, m, INDEX_CAUGHT, note);
    assert FlagOutcome(reg, m, k, true);
    if !Contents(reg)[k - 1].isDone {
      assert Contents(m.value)[k - 1].isDone;
    }
  }
}

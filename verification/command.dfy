/** The list-backed command executor of src/main/java/duke/Command.java: dispatch on
    the keyword, then add a todo, deadline or event, mark or unmark a task, or find
    tasks by keyword. Handlers return the new task list or the exception they throw;
    Execute turns caught exceptions into a Rejected note that leaves the list alone. */
module Command {
  import opened Outcomes
  import opened JavaText
  import opened JavaInt
  import opened TaskModel

  const BY_MARKER := "by:"
  const FROM_MARKER := "from:"
  const TO_MARKER := "to:"

  /** The keywords `execute` dispatches on; any other one throws InvalidCommandException. */
  const KEYWORDS: set<string> := {"list", "todo", "deadline", "event", "mark", "unmark", "delete", "help", "find"}

  /** The collaborators whose code is not part of this model: the parser's command
      split, date and index parsing (None stands for the ParseException or
      FormatException they throw), and TaskList.deleteTask. The command split is
      taken to always yield a keyword and an argument. */
  datatype Collaborators = Collaborators(
    parseCommand: string -> (string, string),
    parseDate: string -> Option<Date>,
    parseIndex: string -> Option<Int32>,
    deleteTask: (seq<Task<Date>>, string) -> Result<seq<Task<Date>>>)

  /** The list after a command, and what was reported. */
  type ListTurn = Turn<seq<Task<Date>>, Date>

  /** What every task this executor creates satisfies: a description that is not
      blank, and an event that does not end before it starts. */
  predicate WellFormed(t: Task<Date>) {
    !IsBlank(t.description) && (t.kind.Event? ==> !Before(t.kind.end, t.kind.start))
  }

  predicate AllWellFormed(tasks: seq<Task<Date>>) {
    forall i | 0 <= i < |tasks| :: WellFormed(tasks[i])
  }

  /** `after` is `tasks` with one well-formed task added at the end. */
  predicate Grown(tasks: seq<Task<Date>>, after: seq<Task<Date>>) {
    |after| == |tasks| + 1 && after[..|tasks|] == tasks && WellFormed(after[|tasks|])
  }

  // ---------------------------------------------------------------- todo

  /** addTodo: a blank argument is rejected; otherwise the argument, untrimmed,
      becomes the description of one new todo at the end of the list. */
  function AddTodo(tasks: seq<Task<Date>>, args: string): (r: Result<seq<Task<Date>>>)
    ensures r.Err? <==> IsBlank(args)
    ensures r.Err? ==> r.failure == NoDescription
    ensures r.Ok? ==> Appended(tasks, r.value, NewTask(args, Todo)) && Grown(tasks, r.value)
  {
    if |Trim(args)| == 0 then Err(NoDescription) else Ok(tasks + [NewTask(args, Todo)])
  }

  // ---------------------------------------------------------------- deadline

  /** The text checks of addDeadline, made before any date is parsed: split at the
      first `by:`, trim the description, drop every `by:` from the rest and trim it. */
  function DeadlineFields(args: string): (r: Result<(string, string)>)
    ensures r == Err(Format) <==> !Contains(args, BY_MARKER)
    ensures Contains(args, BY_MARKER) ==>
      var i := IndexOf(args, BY_MARKER);
      var due := RemoveAll(args[i + |BY_MARKER|..], BY_MARKER);
      && (r == Err(NoDescription) <==> IsBlank(args[..i]) || IsBlank(due))
      && (r.Ok? ==> r.value == (Trim(args[..i]), Trim(due)))
    ensures r.Err? ==> r.failure in {Format, NoDescription}
    ensures r.Ok? ==> !IsBlank(r.value.0) && !IsBlank(r.value.1)
  {
    var i := IndexOf(args, BY_MARKER);
    if i == -1 then Err(Format)
    else
      var description := Trim(args[..i]);
      var due := Trim(RemoveAll(args[i..], BY_MARKER));
      assert RemoveAll(args[i..], BY_MARKER) == RemoveAll(args[i + |BY_MARKER|..], BY_MARKER) by {
        assert args[i..] == BY_MARKER + args[i + |BY_MARKER|..];
        RemoveLeading(BY_MARKER, args[i + |BY_MARKER|..]);
      }
      BlankTrim(args[..i]);
      BlankTrim(description);
      BlankTrim(RemoveAll(args[i..], BY_MARKER));
      if |Trim(description)| == 0 then Err(NoDescription)
      else if |Trim(due)| == 0 then Err(NoDescription)
      else Ok((description, due))
  }

  /** The second half of addDeadline, once the text checks have passed: the due
      text is parsed and one deadline is appended. */
  function AddDatedDeadline(tasks: seq<Task<Date>>, description: string, due: string, parseDate: string -> Option<Date>): (r: Result<seq<Task<Date>>>)
    ensures r.Err? <==> parseDate(due).None?
    ensures r.Err? ==> r.failure == DateParse
    ensures r.Ok? ==> Appended(tasks, r.value, NewTask(description, Deadline(parseDate(due).value)))
  {
    match parseDate(due)
    case None => Err(DateParse)
    case Some(at) => Ok(tasks + [NewTask(description, Deadline(at))])
  }

  /** addDeadline: a missing `by:` is a format error; the description before the
      first `by:` and the rest with every `by:` dropped must be non-blank; all of
      this is decided before the date parser is consulted. Then the due text is
      parsed and one deadline is appended. */
  function AddDeadline(tasks: seq<Task<Date>>, args: string, parseDate: string -> Option<Date>): (r: Result<seq<Task<Date>>>)
    ensures r == Err(Format) <==> !Contains(args, BY_MARKER)
    ensures Contains(args, BY_MARKER) ==>
      var i := IndexOf(args, BY_MARKER);
      var description, due := Trim(args[..i]), Trim(RemoveAll(args[i + |BY_MARKER|..], BY_MARKER));
      && (r == Err(NoDescription) <==> IsBlank(description) || IsBlank(due))
      && (!IsBlank(description) && !IsBlank(due) ==>
            && (r == Err(DateParse) <==> parseDate(due).None?)
            && (r.Ok? ==> parseDate(due).Some? && Appended(tasks, r.value, NewTask(description, Deadline(parseDate(due).value)))))
    ensures r.Err? ==> r.failure in {Format, NoDescription, DateParse}
    ensures r.Ok? ==> Grown(tasks, r.value)
  {
    var fields := DeadlineFields(args);
    if fields.Err? then Err(fields.failure)
    else AddDatedDeadline(tasks, fields.value.0, fields.value.1, parseDate)
  }

  // ---------------------------------------------------------------- event

  /** The text checks of addEvent, made before any date is parsed: both markers must
      occur, `from:` first (otherwise `substring` throws), and the description and
      both times must be non-blank once every marker occurrence is dropped. */
  function EventFields(args: string): (r: Result<(string, string, string)>)
    ensures r == Err(Format) <==> !Contains(args, FROM_MARKER) || !Contains(args, TO_MARKER)
    ensures r == Err(StringIndexOutOfBounds) <==>
      Contains(args, FROM_MARKER) && Contains(args, TO_MARKER) && IndexOf(args, TO_MARKER) < IndexOf(args, FROM_MARKER)
    ensures Contains(args, FROM_MARKER) && Contains(args, TO_MARKER) && IndexOf(args, FROM_MARKER) <= IndexOf(args, TO_MARKER) ==>
      var f := IndexOf(args, FROM_MARKER);
      var t := IndexOf(args, TO_MARKER);
      var from := RemoveAll(Trim(args[f..t]), FROM_MARKER);
      var to := RemoveAll(Trim(args[t..]), TO_MARKER);
      && (r == Err(NoDescription) <==> IsBlank(args[..f]) || IsBlank(from) || IsBlank(to))
      && (r.Ok? ==> r.value == (Trim(args[..f]), Trim(from), Trim(to)))
    ensures r.Err? ==> r.failure in {Format, StringIndexOutOfBounds, NoDescription}
    ensures r.Ok? ==> !IsBlank(r.value.0) && !IsBlank(r.value.1) && !IsBlank(r.value.2)
  {
    var f := IndexOf(args, FROM_MARKER);
    var t := IndexOf(args, TO_MARKER);
    if t == -1 || f == -1 then Err(Format)
    else if t < f then Err(StringIndexOutOfBounds)
    else
      var description := Trim(args[..f]);
      var from := Trim(RemoveAll(Trim(args[f..t]), FROM_MARKER));
      var to := Trim(RemoveAll(Trim(args[t..]), TO_MARKER));
      BlankTrim(args[..f]);
      BlankTrim(RemoveAll(Trim(args[f..t]), FROM_MARKER));
      BlankTrim(RemoveAll(Trim(args[t..]), TO_MARKER));
      if |Trim(description)| == 0 || |from| == 0 || |to| == 0 then Err(NoDescription)
      else Ok((description, from, to))
  }

  /** The second half of addEvent, once the text checks have passed: both times are
      parsed, an event ending strictly before it starts is a format error (ending at
      the same instant is accepted), and one event is appended. */
  function AddTimedEvent(tasks: seq<Task<Date>>, description: string, from: string, to: string, parseDate: string -> Option<Date>): (r: Result<seq<Task<Date>>>)
    ensures r == Err(DateParse) <==> parseDate(from).None? || parseDate(to).None?
    ensures parseDate(from).Some? && parseDate(to).Some? ==>
      var start, end := parseDate(from).value, parseDate(to).value;
      && (r == Err(Format) <==> Before(end, start))
      && (start == end ==> r.Ok?)
      && (r.Ok? ==> Appended(tasks, r.value, NewTask(description, Event(start, end))))
    ensures r.Err? ==> r.failure in {Format, DateParse}
  {
    var start := parseDate(from);
    var end := parseDate(to);
    if start.None? || end.None? then Err(DateParse)
    else if Before(end.value, start.value) then Err(Format)
    else Ok(tasks + [NewTask(description, Event(start.value, end.value))])
  }

  /** addEvent: a missing `from:` or `to:` is a format error, a `to:` ahead of
      `from:` makes `substring` throw, and the description and both times must be
      non-blank; all of this is decided before the date parser is consulted. Then
      both times are parsed, an end strictly before the start is a format error,
      and one event is appended. */
  function AddEvent(tasks: seq<Task<Date>>, args: string, parseDate: string -> Option<Date>): (r: Result<seq<Task<Date>>>)
    ensures !Contains(args, FROM_MARKER) || !Contains(args, TO_MARKER) ==> r == Err(Format)
    ensures r == Err(StringIndexOutOfBounds) <==>
      Contains(args, FROM_MARKER) && Contains(args, TO_MARKER) && IndexOf(args, TO_MARKER) < IndexOf(args, FROM_MARKER)
    ensures Contains(args, FROM_MARKER) && Contains(args, TO_MARKER) && IndexOf(args, FROM_MARKER) <= IndexOf(args, TO_MARKER) ==>
      var f, t := IndexOf(args, FROM_MARKER), IndexOf(args, TO_MARKER);
      var description := Trim(args[..f]);
      var from, to := Trim(RemoveAll(Trim(args[f..t]), FROM_MARKER)), Trim(RemoveAll(Trim(args[t..]), TO_MARKER));
      && (r == Err(NoDescription) <==> IsBlank(description) || IsBlank(from) || IsBlank(to))
      && (!IsBlank(description) && !IsBlank(from) && !IsBlank(to) ==>
            && (r == Err(DateParse) <==> parseDate(from).None? || parseDate(to).None?)
            && (parseDate(from).Some? && parseDate(to).Some? ==>
                  var start, end := parseDate(from).value, parseDate(to).value;
                  && (r == Err(Format) <==> Before(end, start))
                  && (start == end ==> r.Ok?)
                  && (r.Ok? ==> Appended(tasks, r.value, NewTask(description, Event(start, end))))))
    ensures r.Err? ==> r.failure in {Format, StringIndexOutOfBounds, NoDescription, DateParse}
    ensures r.Ok? ==> Grown(tasks, r.value)
  {
    var fields := EventFields(args);
    if fields.Err? then Err(fields.failure)
    else AddTimedEvent(tasks, fields.value.0, fields.value.1, fields.value.2, parseDate)
  }

  // ---------------------------------------------------------------- mark / unmark

  /** The shared body of markTask (done = true) and unmarkTask (done = false). */
  function SetFlag(tasks: seq<Task<Date>>, args: string, parseIndex: string -> Option<Int32>, done: bool): (r: Result<seq<Task<Date>>>)
    requires |tasks| <= INT_MAX
  {
    if |Trim(args)| == 0 then Err(NoDescription)
    else
      match parseIndex(args)
      case None => Err(Format)
      case Some(n) =>
        var id := Pred(n);
        if id < 0 || id >= |tasks| then Err(IndexOutOfBounds)
        else if tasks[id].isDone == done then Ok(tasks)
        else Ok(tasks[id := tasks[id].(isDone := done)])
  }

  /** markTask: a blank argument, an argument the index parser rejects, and an index
      outside [1, size] are errors that change nothing; a task already done stays as
      it is; otherwise only that task becomes done. */
  function MarkTask(tasks: seq<Task<Date>>, args: string, parseIndex: string -> Option<Int32>): (r: Result<seq<Task<Date>>>)
    requires |tasks| <= INT_MAX
    ensures IsBlank(args) ==> r == Err(NoDescription)
    ensures !IsBlank(args) && parseIndex(args).None? ==> r == Err(Format)
    ensures !IsBlank(args) && parseIndex(args).Some? ==>
      var n := parseIndex(args).value;
      && (n < 1 || n > |tasks| <==> r == Err(IndexOutOfBounds))
      && (1 <= n <= |tasks| && tasks[n - 1].isDone ==> r == Ok(tasks))
      && (1 <= n <= |tasks| && !tasks[n - 1].isDone ==> r.Ok? && FlagSet(tasks, r.value, n - 1, true))
  {
    SetFlag(tasks, args, parseIndex, true)
  }

  /** unmarkTask: the same checks as markTask; a task not done stays as it is;
      otherwise only that task becomes not done. */
  function UnmarkTask(tasks: seq<Task<Date>>, args: string, parseIndex: string -> Option<Int32>): (r: Result<seq<Task<Date>>>)
    requires |tasks| <= INT_MAX
    ensures IsBlank(args) ==> r == Err(NoDescription)
    ensures !IsBlank(args) && parseIndex(args).None? ==> r == Err(Format)
    ensures !IsBlank(args) && parseIndex(args).Some? ==>
      var n := parseIndex(args).value;
      && (n < 1 || n > |tasks| <==> r == Err(IndexOutOfBounds))
      && (1 <= n <= |tasks| && !tasks[n - 1].isDone ==> r == Ok(tasks))
      && (1 <= n <= |tasks| && tasks[n - 1].isDone ==> r.Ok? && FlagSet(tasks, r.value, n - 1, false))
  {
    SetFlag(tasks, args, parseIndex, false)
  }

  /** Marking the same index again changes nothing. */
  lemma MarkIdempotent(tasks: seq<Task<Date>>, args: string, parseIndex: string -> Option<Int32>)
    requires |tasks| <= INT_MAX
    requires MarkTask(tasks, args, parseIndex).Ok?
    ensures var marked := MarkTask(tasks, args, parseIndex).value;
      MarkTask(marked, args, parseIndex) == Ok(marked)
  {
    var marked := MarkTask(tasks, args, parseIndex).value;
    var n := parseIndex(args).value;
    assert marked[n - 1].isDone;
  }

  /** Unmarking a task that marking just changed restores the list. */
  lemma UnmarkUndoesMark(tasks: seq<Task<Date>>, args: string, parseIndex: string -> Option<Int32>)
    requires |tasks| <= INT_MAX
    requires MarkTask(tasks, args, parseIndex).Ok?
    requires MarkTask(tasks, args, parseIndex).value != tasks
    ensures UnmarkTask(MarkTask(tasks, args, parseIndex).value, args, parseIndex) == Ok(tasks)
  {
    var marked := MarkTask(tasks, args, parseIndex).value;
    var n := parseIndex(args).value;
    assert !tasks[n - 1].isDone;
    var back := UnmarkTask(marked, args, parseIndex).value;
    assert back == tasks by {
      assert FlagSet(marked, back, n - 1, false);
      assert back[n - 1] == tasks[n - 1];
    }
  }

  // ---------------------------------------------------------------- find

  /** Every hit names a task of the list by its 1-based number, and its description
      contains the keyword. */
  predicate HitsSound<W(==)>(tasks: seq<Task<W>>, keyword: string, hits: seq<Hit<W>>) {
    forall k | 0 <= k < |hits| ::
      && 1 <= hits[k].number <= |tasks|
      && hits[k].task == tasks[hits[k].number - 1]
      && Contains(hits[k].task.description, keyword)
  }

  /** Every task whose description contains the keyword is among the hits. */
  predicate HitsComplete<W(==)>(tasks: seq<Task<W>>, keyword: string, hits: seq<Hit<W>>) {
    forall i | 0 <= i < |tasks| && Contains(tasks[i].description, keyword) :: Hit(i + 1, tasks[i]) in hits
  }

  /** Hits appear in list order, each task at most once. */
  predicate HitsOrdered<W>(hits: seq<Hit<W>>) {
    forall k, l | 0 <= k < l < |hits| :: hits[k].number < hits[l].number
  }

  /** find: walk the list in order and keep, with its 1-based number, every task
      whose description contains the keyword. It reports exactly those tasks, in
      list order, each once with its original number. */
  function Find<W(==)>(tasks: seq<Task<W>>, keyword: string): (r: seq<Hit<W>>)
    ensures HitsSound(tasks, keyword, r) && HitsComplete(tasks, keyword, r) && HitsOrdered(r)
    decreases |tasks|
  {
    if tasks == [] then []
    else
      var earlier := Find(tasks[..|tasks| - 1], keyword);
      var last := tasks[|tasks| - 1];
      var hits := earlier + (if Contains(last.description, keyword) then [Hit(|tasks|, last)] else []);
      FindStep(tasks, keyword, earlier, hits);
      hits
  }

  /** Extending the hits for all but the last task by the last task's hit, if any,
      gives the hits for the whole list. */
  lemma FindStep<W>(tasks: seq<Task<W>>, keyword: string, earlier: seq<Hit<W>>, r: seq<Hit<W>>)
    requires tasks != []
    requires HitsSound(tasks[..|tasks| - 1], keyword, earlier)
    requires HitsComplete(tasks[..|tasks| - 1], keyword, earlier)
    requires HitsOrdered(earlier)
    requires r == earlier + (if Contains(tasks[|tasks| - 1].description, keyword) then [Hit(|tasks|, tasks[|tasks| - 1])] else [])
    ensures HitsSound(tasks, keyword, r) && HitsComplete(tasks, keyword, r) && HitsOrdered(r)
  {
    var init := tasks[..|tasks| - 1];
    assert HitsSound(tasks, keyword, r) by {
      forall k | 0 <= k < |earlier| ensures r[k] == earlier[k] && earlier[k].task == tasks[earlier[k].number - 1] {
        assert init[earlier[k].number - 1] == tasks[earlier[k].number - 1];
      }
    }
    assert HitsOrdered(r) by {
      forall k | 0 <= k < |earlier| ensures r[k].number < |tasks| {
        assert r[k] == earlier[k];
      }
    }
    assert HitsComplete(tasks, keyword, r) by {
      forall i | 0 <= i < |tasks| && Contains(tasks[i].description, keyword)
        ensures Hit(i + 1, tasks[i]) in r
      {
        if i < |init| {
          assert init[i] == tasks[i];
          assert Hit(i + 1, init[i]) in earlier;
        }
      }
    }
  }

  /** The empty keyword occurs in every description, so find "" lists everything. */
  lemma {:induction false} FindEmptyKeyword<W>(tasks: seq<Task<W>>)
    ensures Find(tasks, "") == Listing(tasks)
    decreases |tasks|
  {
    if tasks != [] {
      var init := tasks[..|tasks| - 1];
      var last := tasks[|tasks| - 1];
      ContainsEmpty(last.description);
      FindEmptyKeyword(init);
      ListingSnoc(tasks);
    }
  }

  /** The listing of a list is that of all but its last task, then the last one. */
  lemma ListingSnoc<W>(tasks: seq<Task<W>>)
    requires tasks != []
    ensures Listing(tasks) == Listing(tasks[..|tasks| - 1]) + [Hit(|tasks|, tasks[|tasks| - 1])]
  {
    var init := tasks[..|tasks| - 1];
    assert forall i | 0 <= i < |init| :: Listing(tasks)[i] == Listing(init)[i];
  }

  /** find reports nothing exactly when no description contains the keyword. */
  lemma FindNothing<W>(tasks: seq<Task<W>>, keyword: string)
    ensures Find(tasks, keyword) == [] <==> forall i | 0 <= i < |tasks| :: !Contains(tasks[i].description, keyword)
  {
    var r := Find(tasks, keyword);
    if r != [] {
      assert Contains(tasks[r[0].number - 1].description, keyword);
    }
  }

  // ---------------------------------------------------------------- execute

  /** The note for a mark or unmark that succeeded: did the flag change? */
  function FlagNote(tasks: seq<Task<Date>>, outcome: Result<seq<Task<Date>>>): Note<Date> {
    if outcome == Ok(tasks) then AlreadyInState else Flipped
  }

  /** The note reported agrees with what happened to the list: nothing changes on a
      rejection, a listing, help or a flag already set; an addition appends one
      well-formed task;
      a flip changes one task's flag and nothing else. */
  predicate NoteMatchesChange(tasks: seq<Task<Date>>, after: seq<Task<Date>>, note: Note<Date>) {
    && (note.Rejected? || note.Shown? || note.Usage? || note.AlreadyInState? ==> after == tasks)
    && (note.Added? ==> Grown(tasks, after))
    && (note.Flipped? ==> exists i | 0 <= i < |tasks| :: FlagSet(tasks, after, i, !tasks[i].isDone))
  }

  /** What `execute` catches around each handler. */
  const ADD_CAUGHT: set<Failure> := {NoDescription, Format, DateParse}
  const INDEX_CAUGHT: set<Failure> := {NoDescription, Format} + INDEX_OUT_OF_BOUNDS

  /** `r` is what an adding keyword reports: the result of its own handler, with
      only NoDescription caught for a todo and also Format and DateParse for a
      deadline or an event, and a success reported as an addition. */
  ghost predicate AddReported(tasks: seq<Task<Date>>, keyword: string, args: string, parseDate: string -> Option<Date>, r: Result<ListTurn>) {
    && (keyword == "todo" ==> Reports(tasks, AddTodo(tasks, args), {NoDescription}, r))
    && (keyword == "deadline" ==> Reports(tasks, AddDeadline(tasks, args, parseDate), ADD_CAUGHT, r))
    && (keyword == "event" ==> Reports(tasks, AddEvent(tasks, args, parseDate), ADD_CAUGHT, r))
    && (r.Ok? ==> r.value.note == Added || r.value.note.Rejected?)
  }

  /** `r` is what mark or unmark reports: the result of its own handler, with a
      missing, malformed or out-of-range index caught, and a success reported as
      a flip or as a flag already set. */
  ghost predicate FlagReported(tasks: seq<Task<Date>>, keyword: string, args: string, parseIndex: string -> Option<Int32>, r: Result<ListTurn>)
    requires |tasks| <= INT_MAX
  {
    && (keyword == "mark" ==> Reports(tasks, MarkTask(tasks, args, parseIndex), INDEX_CAUGHT, r))
    && (keyword == "unmark" ==> Reports(tasks, UnmarkTask(tasks, args, parseIndex), INDEX_CAUGHT, r))
    && (r.Ok? ==> r.value.note == Flipped || r.value.note == AlreadyInState || r.value.note.Rejected?)
  }

  /** `r` is what `execute` does for `keyword`: list, help and find show something
      and leave the list alone, each other keyword reports its own handler, and
      an unknown keyword throws InvalidCommandException. */
  ghost predicate Handles(tasks: seq<Task<Date>>, keyword: string, args: string, env: Collaborators, r: Result<ListTurn>)
    requires |tasks| <= INT_MAX
  {
    && (keyword == "list" ==> r == Ok(Turn(tasks, Shown(Listing(tasks)))))
    && (keyword == "help" ==> r == Ok(Turn(tasks, Usage)))
    && (keyword == "find" ==> r == Ok(Turn(tasks, Shown(Find(tasks, args)))))
    && (keyword in {"todo", "deadline", "event"} ==> AddReported(tasks, keyword, args, env.parseDate, r))
    && (keyword in {"mark", "unmark"} ==> FlagReported(tasks, keyword, args, env.parseIndex, r))
    && (keyword == "delete" ==>
          Reports(tasks, env.deleteTask(tasks, args), INDEX_CAUGHT, r) && (r.Ok? ==> r.value.note == Deleted || r.value.note.Rejected?))
    && (keyword !in KEYWORDS ==> r == Err(InvalidCommand))
  }

  /** The todo, deadline and event cases of the switch. */
  function ExecuteAdd(tasks: seq<Task<Date>>, keyword: string, args: string, parseDate: string -> Option<Date>): (r: Result<ListTurn>)
    requires keyword in {"todo", "deadline", "event"}
    ensures r.Err? ==> keyword == "event" && r.failure == StringIndexOutOfBounds
    ensures r.Ok? ==> NoteMatchesChange(tasks, r.value.state, r.value.note)
    ensures AddReported(tasks, keyword, args, parseDate, r)
  {
    var outcome :=
      if keyword == "todo" then AddTodo(tasks, args)
      else if keyword == "deadline" then AddDeadline(tasks, args, parseDate)
      else AddEvent(tasks, args, parseDate);
    var caught: set<Failure> := if keyword == "todo" then {NoDescription} else ADD_CAUGHT;
    assert outcome.Err? ==> outcome.failure in caught || (keyword == "event" && outcome.failure == StringIndexOutOfBounds);
    Catch(tasks, outcome, caught, Added)
  }

  /** The mark and unmark cases of the switch. */
  function ExecuteFlag(tasks: seq<Task<Date>>, keyword: string, args: string, parseIndex: string -> Option<Int32>): (r: Result<ListTurn>)
    requires |tasks| <= INT_MAX
    requires keyword in {"mark", "unmark"}
    ensures r.Ok?
    ensures NoteMatchesChange(tasks, r.value.state, r.value.note)
    ensures FlagReported(tasks, keyword, args, parseIndex, r)
  {
    var outcome := if keyword == "mark" then MarkTask(tasks, args, parseIndex) else UnmarkTask(tasks, args, parseIndex);
    Catch(tasks, outcome, INDEX_CAUGHT, FlagNote(tasks, outcome))
  }

  /** The switch of `execute` on an already split input. */
  function Dispatch(tasks: seq<Task<Date>>, keyword: string, args: string, env: Collaborators): (r: Result<ListTurn>)
    requires |tasks| <= INT_MAX
    ensures keyword !in KEYWORDS ==> r == Err(InvalidCommand)
    ensures r.Err? && keyword in KEYWORDS ==>
      (keyword == "event" && r.failure == StringIndexOutOfBounds) || keyword == "delete"
    ensures r.Ok? ==> NoteMatchesChange(tasks, r.value.state, r.value.note)
    ensures r.Ok? && r.value.note.Deleted? ==> keyword == "delete"
    ensures Handles(tasks, keyword, args, env, r)
  {
    if keyword == "list" then Ok(Turn(tasks, Shown(Listing(tasks))))
    else if keyword in {"todo", "deadline", "event"} then ExecuteAdd(tasks, keyword, args, env.parseDate)
    else if keyword in {"mark", "unmark"} then ExecuteFlag(tasks, keyword, args, env.parseIndex)
    else if keyword == "delete" then
      Catch(tasks, env.deleteTask(tasks, args), INDEX_CAUGHT, Deleted)
    else if keyword == "help" then Ok(Turn(tasks, Usage))
    else if keyword == "find" then Ok(Turn(tasks, Shown(Find(tasks, args))))
    else Err(InvalidCommand)
  }

  /** execute: split the input, dispatch on the keyword, and catch what each case
      of the switch catches. Only an unknown keyword, a `to:` ahead of `from:` in
      an event, and whatever deleteTask throws beyond its catch clause escape. */
  function Execute(tasks: seq<Task<Date>>, userInput: string, env: Collaborators): (r: Result<ListTurn>)
    requires |tasks| <= INT_MAX
    ensures env.parseCommand(userInput).0 !in KEYWORDS ==> r == Err(InvalidCommand)
    ensures r.Err? && env.parseCommand(userInput).0 in KEYWORDS ==>
      (env.parseCommand(userInput).0 == "event" && r.failure == StringIndexOutOfBounds) || env.parseCommand(userInput).0 == "delete"
    ensures r.Ok? ==> NoteMatchesChange(tasks, r.value.state, r.value.note)
    ensures r.Ok? && r.value.note.Deleted? ==> env.parseCommand(userInput).0 == "delete"
    ensures Handles(tasks, env.parseCommand(userInput).0, env.parseCommand(userInput).1, env, r)
  {
    var split := env.parseCommand(userInput);
    Dispatch(tasks, split.0, split.1, env)
  }

  /** A step that matches its note, other than a deletion, keeps every task
      well-formed: an addition brings a well-formed task, a flip touches only a
      done flag, and nothing else changes. */
  lemma {:induction false} StepKeepsWellFormed(tasks: seq<Task<Date>>, after: seq<Task<Date>>, note: Note<Date>)
    requires NoteMatchesChange(tasks, after, note) && !note.Deleted?
    requires AllWellFormed(tasks)
    ensures AllWellFormed(after)
  {
    if note.Added? {
      forall i | 0 <= i < |after| ensures WellFormed(after[i]) {
        if i < |tasks| {
          assert after[i] == after[..|tasks|][i];
        }
      }
    } else if note.Flipped? {
      var k :| 0 <= k < |tasks| && FlagSet(tasks, after, k, !tasks[k].isDone);
      forall i | 0 <= i < |after| ensures WellFormed(after[i]) {
        if i != k {
          assert after[i] == tasks[i];
        }
      }
    }
  }

  /** Every task `execute` stores, other than through deleteTask, is well-formed. */
  lemma ExecuteKeepsWellFormed(tasks: seq<Task<Date>>, userInput: string, env: Collaborators)
    requires |tasks| <= INT_MAX && AllWellFormed(tasks)
    requires env.parseCommand(userInput).0 != "delete"
    ensures Execute(tasks, userInput, env).Ok? ==> AllWellFormed(Execute(tasks, userInput, env).value.state)
  {
    var r := Execute(tasks, userInput, env);
    if r.Ok? {
      StepKeepsWellFormed(tasks, r.value.state, r.value.note);
    }
  }
}

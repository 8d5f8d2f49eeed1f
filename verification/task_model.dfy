/** Tasks and the vocabulary both command executors share. */
module TaskModel {
  import opened Outcomes

  /** A java.util.Date is an instant in milliseconds; `a.before(b)` compares instants. */
  datatype Date = Date(millis: int)

  predicate Before(a: Date, b: Date) {
    a.millis < b.millis
  }

  /** The three kinds of task. `W` is how a point in time is stored: a parsed
      Date by the list-backed executor, the raw text by the array-backed one. */
  datatype Kind<W> = Todo | Deadline(due: W) | Event(start: W, end: W)

  datatype Task<W> = Task(description: string, isDone: bool, kind: Kind<W>)

  /** A freshly created task is not done. */
  function NewTask<W>(description: string, kind: Kind<W>): Task<W> {
    Task(description, false, kind)
  }

  /** One line of a listing: the 1-based number the user refers to, and the task. */
  datatype Hit<W> = Hit(number: int, task: Task<W>)

  /** Every task, in order, numbered from 1. */
  function Listing<W>(tasks: seq<Task<W>>): seq<Hit<W>> {
    seq(|tasks|, i requires 0 <= i < |tasks| => Hit(i + 1, tasks[i]))
  }

  /** `after` is `before` with exactly the task `t` added at the end. */
  predicate Appended<W(==)>(before: seq<Task<W>>, after: seq<Task<W>>, t: Task<W>) {
    |after| == |before| + 1 && after[..|before|] == before && after[|before|] == t
  }

  /** `after` differs from `before` only in the done flag of task `i`, which is now `done`. */
  predicate FlagSet<W(==)>(before: seq<Task<W>>, after: seq<Task<W>>, i: int, done: bool) {
    && 0 <= i < |before|
    && |after| == |before|
    && after[i] == before[i].(isDone := done)
    && forall j | 0 <= j < |before| && j != i :: after[j] == before[j]
  }

  /** What a successfully handled command reports to the user. */
  datatype Note<W> =
    | Shown(hits: seq<Hit<W>>)   // list and find
    | Usage                      // help
    | Added                      // todo, deadline, event
    | Flipped                    // mark / unmark changed the flag
    | AlreadyInState             // mark / unmark found the flag already set that way
    | Deleted                    // delete
    | Rejected(failure: Failure) // a caught exception: its message is printed, nothing changes

  /** The state after a command, and what was reported. */
  datatype Turn<S, W> = Turn(state: S, note: Note<W>)

  /** `r` reports the handler's result `outcome` under a catch clause for `caught`:
      a success carries the handler's new state and a note that is not a
      rejection; a failure in `caught` is a rejection that names it and keeps the
      state as it was; any other failure escapes unchanged. */
  ghost predicate Reports<S, W>(before: S, outcome: Result<S>, caught: set<Failure>, r: Result<Turn<S, W>>) {
    && (outcome.Ok? <==> r.Ok? && !r.value.note.Rejected?)
    && (outcome.Ok? && r.Ok? ==> r.value.state == outcome.value)
    && (outcome.Err? && outcome.failure in caught ==> r == Ok(Turn(before, Rejected(outcome.failure))))
    && (outcome.Err? && outcome.failure !in caught ==> r == Err(outcome.failure))
  }

  /** One try/catch around a handler. The state changes only through the
      handler's own success; a caught exception is reported with the state as it
      was, and only an exception outside `caught` escapes. */
  function Catch<S, W>(before: S, outcome: Result<S>, caught: set<Failure>, success: Note<W>): (r: Result<Turn<S, W>>)
    requires !success.Rejected?
    ensures r.Err? <==> outcome.Err? && outcome.failure !in caught
    ensures r.Err? ==> r.failure == outcome.failure
    ensures r.Ok? ==> r.value.state == before || outcome == Ok(r.value.state)
    ensures r.Ok? && r.value.note.Rejected? <==> outcome.Err? && outcome.failure in caught
    ensures r.Ok? && r.value.note.Rejected? ==> r.value.state == before && r.value.note.failure == outcome.failure
    ensures r.Ok? && !r.value.note.Rejected? ==> outcome == Ok(r.value.state) && r.value.note == success
    ensures Reports(before, outcome, caught, r)
  {
    match outcome
    case Ok(after) => Ok(Turn(after, success))
    case Err(f) => if f in caught then Ok(Turn(before, Rejected(f))) else Err(f)
  }
}

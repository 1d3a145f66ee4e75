/** Values of the task store: the task state, the task record, and the
    column assignments an UPDATE statement applies to one record. */
module TodoModel {

  datatype Option<+T> = None | Some(value: T)

  /** What a statement reports back: success (a nil error), or the
      "no rows in result set" error a row scan gives on a missing id. */
  datatype Outcome = Ok | ErrNoRows

  /** A task's lifecycle state; the table stores it as the integer code
      0 (Pending) or 1 (Done). */
  datatype Status = Pending | Done

  /** The integer code written to the `state` column. */
  function Code(s: Status): (c: int)
    ensures 0 <= c <= 1
    ensures c == 0 <==> s == Pending
  {
    match s
    case Pending => 0
    case Done => 1
  }

  /** Reads a `state` column value back; codes outside 0..1 name no state. */
  function StatusOfCode(c: int): (r: Option<Status>)
    ensures r.Some? <==> 0 <= c <= 1
  {
    if c == 0 then Some(Pending)
    else if c == 1 then Some(Done)
    else None
  }

  /** Storing a state and reading it back gives the same state, and every
      readable code is the code of the state it reads as. */
  lemma StatusCodeRoundTrip(s: Status, c: int)
    ensures StatusOfCode(Code(s)) == Some(s)
    ensures StatusOfCode(c).Some? ==> Code(StatusOfCode(c).value) == c
  {
  }

  /** The display name of a state. */
  function StatusName(s: Status): (r: string)
    ensures s == Pending ==> r == "todo"
    ensures s == Done ==> r == "done"
  {
    match s
    case Pending => "todo"
    case Done => "done"
  }

  /** Distinct states have distinct display names. */
  lemma StatusNameInjective(a: Status, b: Status)
    ensures StatusName(a) == StatusName(b) ==> a == b
  {
  }

  /** A timestamp as handed over by the clock. */
  type Instant = int

  /** One row of the `todos` table. */
  datatype Todo = Todo(
    id: int,
    text: string,
    state: Status,
    tag: string,
    created: Instant,
    completed: Option<Instant>)

  /** The record invariant: a completion time is present exactly when the
      task is Done. */
  predicate CompletionConsistent(t: Todo) {
    t.completed.Some? <==> t.state == Done
  }

  /** The SET part of the three UPDATE statements of the store. */
  datatype Assignment =
    | MarkDone(at: Instant)   // state = Done, date_completed = at
    | MarkPending             // state = Pending, date_completed = null
    | SetText(text: string)   // todo = text

  /** Applies an assignment to one record. No assignment touches the id,
      the tag or the creation time, and every assignment keeps the record
      invariant. */
  function Apply(t: Todo, a: Assignment): (r: Todo)
    ensures r.id == t.id && r.tag == t.tag && r.created == t.created
    ensures CompletionConsistent(t) ==> CompletionConsistent(r)
    ensures a.MarkDone? ==> r.state == Done && r.completed == Some(a.at) && r.text == t.text
    ensures a.MarkPending? ==> r.state == Pending && r.completed == None && r.text == t.text
    ensures a.SetText? ==> r.text == a.text && r.state == t.state && r.completed == t.completed
  {
    match a
    case MarkDone(at) => t.(state := Done, completed := Some(at))
    case MarkPending => t.(state := Pending, completed := None)
    case SetText(text) => t.(text := text)
  }
}

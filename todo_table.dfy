/** The meaning of the store's SQL statements over the `todos` table, which
    is held as the sequence of its rows in insertion order. */
module TodoTable {
  import opened TodoModel

  /** Rows are kept in insertion order, and AUTOINCREMENT hands out ever
      larger ids, so ids ascend strictly along the table. */
  predicate IdsAscending(rows: seq<Todo>) {
    forall i, j :: 0 <= i < j < |rows| ==> rows[i].id < rows[j].id
  }

  /** The table invariant: ids ascend, every id lies below the next id the
      AUTOINCREMENT counter will hand out (ids start at 1), and every row
      keeps the completion invariant. */
  predicate WellFormed(rows: seq<Todo>, nextId: int) {
    1 <= nextId &&
    IdsAscending(rows) &&
    forall i :: 0 <= i < |rows| ==> 1 <= rows[i].id < nextId && CompletionConsistent(rows[i])
  }

  /** The position of the first row with the given id (`WHERE id = ?`). */
  function IndexOf(rows: seq<Todo>, id: int): (r: Option<nat>)
    ensures r.Some? ==> r.value < |rows| && rows[r.value].id == id
    ensures r.Some? ==> forall i :: 0 <= i < r.value ==> rows[i].id != id
    ensures r.None? <==> forall i :: 0 <= i < |rows| ==> rows[i].id != id
  {
    if rows == [] then None
    else if rows[0].id == id then Some(0)
    else
      match IndexOf(rows[1..], id)
      case None => None
      case Some(k) => Some(k + 1)
  }

  /** `UPDATE todos SET <a> WHERE id = ?` */
  function UpdateWhere(rows: seq<Todo>, id: int, a: Assignment): (r: seq<Todo>)
    ensures |r| == |rows|
  {
    if rows == [] then []
    else [if rows[0].id == id then Apply(rows[0], a) else rows[0]] + UpdateWhere(rows[1..], id, a)
  }

  /** `DELETE FROM todos WHERE id = ?` */
  function DeleteWhere(rows: seq<Todo>, id: int): (r: seq<Todo>)
    ensures |r| <= |rows|
  {
    if rows == [] then []
    else (if rows[0].id == id then [] else [rows[0]]) + DeleteWhere(rows[1..], id)
  }

  /** The WHERE clause of a SELECT: an optional state, an optional creation
      day (given by any instant on that day) and an optional tag. */
  datatype Where = Where(state: Option<Status>, createdOn: Option<Instant>, tag: Option<string>)

  /** Whether a row satisfies a WHERE clause; `dayOf` is the calendar day
      of an instant, as SQLite's `date(...)` computes it. */
  function Matches(w: Where, dayOf: Instant -> int, t: Todo): (b: bool)
    ensures w.state.None? && w.createdOn.None? && w.tag.None? ==> b
    ensures b && w.state.Some? ==> t.state == w.state.value
    ensures b && w.createdOn.Some? ==> dayOf(t.created) == dayOf(w.createdOn.value)
    ensures b && w.tag.Some? ==> t.tag == w.tag.value
  {
    (w.state.None? || t.state == w.state.value) &&
    (w.createdOn.None? || dayOf(t.created) == dayOf(w.createdOn.value)) &&
    (w.tag.None? || t.tag == w.tag.value)
  }

  /** `SELECT * FROM todos WHERE <w>`, matches listed in stored order. */
  function Select(rows: seq<Todo>, w: Where, dayOf: Instant -> int): (r: seq<Todo>)
    ensures |r| <= |rows|
  {
    if rows == [] then []
    else (if Matches(w, dayOf, rows[0]) then [rows[0]] else []) + Select(rows[1..], w, dayOf)
  }

  /** The WHERE clause the Go code builds from a tag argument: an empty tag
      leaves the tag condition out. */
  function TagCondition(tag: string): (r: Option<string>)
    ensures r.None? <==> tag == ""
    ensures r.Some? ==> r.value == tag
  {
    if tag != "" then Some(tag) else None
  }

  /** CompleteTodo: look up the state of the row (a missing row is an error),
      leave a Done task alone, otherwise mark it Done at `now`. */
  function Complete(rows: seq<Todo>, id: int, now: Instant): (r: (Outcome, seq<Todo>))
    ensures r.0 == ErrNoRows <==> forall i :: 0 <= i < |rows| ==> rows[i].id != id
    ensures r.0 == ErrNoRows ==> r.1 == rows
    ensures |r.1| == |rows|
  {
    match IndexOf(rows, id)
    case None => (ErrNoRows, rows)
    case Some(k) =>
      if rows[k].state == Done then (Ok, rows)
      else (Ok, UpdateWhere(rows, id, MarkDone(now)))
  }

  // ---------------------------------------------------------------------
  // UPDATE

  /** Pointwise meaning of an UPDATE: exactly the rows with the id get the
      assignment. */
  lemma {:induction false} UpdateWhereAt(rows: seq<Todo>, id: int, a: Assignment, i: int)
    requires 0 <= i < |rows|
    ensures UpdateWhere(rows, id, a)[i] == if rows[i].id == id then Apply(rows[i], a) else rows[i]
  {
    if i > 0 {
      UpdateWhereAt(rows[1..], id, a, i - 1);
    }
  }

  /** An UPDATE of an id that is not in the table changes nothing. */
  lemma UpdateAbsent(rows: seq<Todo>, id: int, a: Assignment)
    requires IndexOf(rows, id).None?
    ensures UpdateWhere(rows, id, a) == rows
  {
    var r := UpdateWhere(rows, id, a);
    forall i | 0 <= i < |rows| ensures r[i] == rows[i] {
      UpdateWhereAt(rows, id, a, i);
    }
  }

  /** With unique ids, an UPDATE of a present id changes that one row and
      leaves every other row as it was. */
  lemma UpdateOnlyTarget(rows: seq<Todo>, id: int, a: Assignment, k: nat)
    requires IdsAscending(rows)
    requires IndexOf(rows, id) == Some(k)
    ensures UpdateWhere(rows, id, a) == rows[k := Apply(rows[k], a)]
  {
    var r := UpdateWhere(rows, id, a);
    forall i | 0 <= i < |rows| ensures r[i] == rows[k := Apply(rows[k], a)][i] {
      UpdateWhereAt(rows, id, a, i);
    }
  }

  /** Every UPDATE of the store keeps the table invariant. */
  lemma UpdatePreservesWellFormed(rows: seq<Todo>, nextId: int, id: int, a: Assignment)
    requires WellFormed(rows, nextId)
    ensures WellFormed(UpdateWhere(rows, id, a), nextId)
  {
    var r := UpdateWhere(rows, id, a);
    forall i | 0 <= i < |rows| ensures r[i].id == rows[i].id && CompletionConsistent(r[i]) {
      UpdateWhereAt(rows, id, a, i);
    }
  }

  /** UncompleteTodo is idempotent. */
  lemma UncompleteIdempotent(rows: seq<Todo>, id: int)
    ensures UpdateWhere(UpdateWhere(rows, id, MarkPending), id, MarkPending)
         == UpdateWhere(rows, id, MarkPending)
  {
    var once := UpdateWhere(rows, id, MarkPending);
    var twice := UpdateWhere(once, id, MarkPending);
    forall i | 0 <= i < |rows| ensures twice[i] == once[i] {
      UpdateWhereAt(rows, id, MarkPending, i);
      UpdateWhereAt(once, id, MarkPending, i);
    }
  }

  /** ChangeTodoName changes the text of the row with the id and nothing
      else: every row keeps its id, state, tag and both timestamps, and a
      row whose text changed is the targeted one. */
  lemma RenameOnlyText(rows: seq<Todo>, id: int, name: string)
    ensures var r := UpdateWhere(rows, id, SetText(name));
      |r| == |rows| &&
      forall i :: 0 <= i < |rows| ==>
        r[i].(text := rows[i].text) == rows[i] &&
        (r[i].text == if rows[i].id == id then name else rows[i].text)
  {
    var r := UpdateWhere(rows, id, SetText(name));
    forall i | 0 <= i < |rows|
      ensures r[i].(text := rows[i].text) == rows[i]
      ensures r[i].text == if rows[i].id == id then name else rows[i].text
    {
      UpdateWhereAt(rows, id, SetText(name), i);
    }
  }

  // ---------------------------------------------------------------------
  // CompleteTodo

  /** CompleteTodo on a missing id reports the scan error and changes
      nothing. */
  lemma CompleteMissing(rows: seq<Todo>, id: int, now: Instant)
    requires forall i :: 0 <= i < |rows| ==> rows[i].id != id
    ensures Complete(rows, id, now) == (ErrNoRows, rows)
  {
  }

  /** CompleteTodo on a Pending task marks it Done at `now` and leaves its
      text, tag, creation time and every other row untouched. */
  lemma CompletePending(rows: seq<Todo>, nextId: int, id: int, now: Instant, k: nat)
    requires WellFormed(rows, nextId)
    requires k < |rows| && rows[k].id == id && rows[k].state == Pending
    ensures Complete(rows, id, now) == (Ok, rows[k := rows[k].(state := Done, completed := Some(now))])
  {
    assert IndexOf(rows, id) == Some(k) by {
      var j := IndexOf(rows, id).value;
      assert rows[j].id == rows[k].id;
    }
    UpdateOnlyTarget(rows, id, MarkDone(now), k);
  }

  /** CompleteTodo on a Done task succeeds and changes nothing; in
      particular the completion time is not refreshed. */
  lemma CompleteDone(rows: seq<Todo>, id: int, now: Instant, k: nat)
    requires k < |rows| && rows[k].id == id && rows[k].state == Done
    requires IdsAscending(rows)
    ensures Complete(rows, id, now) == (Ok, rows)
  {
    var j := IndexOf(rows, id).value;
    assert j == k by {
      assert rows[j].id == rows[k].id;
    }
  }

  /** Calling CompleteTodo twice, at any two instants, has the outcome and
      the effect of calling it once. */
  lemma CompleteIdempotent(rows: seq<Todo>, id: int, now1: Instant, now2: Instant)
    ensures Complete(Complete(rows, id, now1).1, id, now2) == Complete(rows, id, now1)
  {
    match IndexOf(rows, id)
    case None =>
    case Some(k) =>
      if rows[k].state != Done {
        var once := UpdateWhere(rows, id, MarkDone(now1));
        forall i | 0 <= i < |rows| ensures once[i].id == rows[i].id {
          UpdateWhereAt(rows, id, MarkDone(now1), i);
        }
        assert IndexOf(once, id) == Some(k) by {
          assert IndexOf(once, id).Some?;
          var j := IndexOf(once, id).value;
          assert !(j < k) && !(k < j);
        }
        UpdateWhereAt(rows, id, MarkDone(now1), k);
      }
  }

  /** CompleteTodo keeps the table invariant. */
  lemma CompletePreservesWellFormed(rows: seq<Todo>, nextId: int, id: int, now: Instant)
    requires WellFormed(rows, nextId)
    ensures WellFormed(Complete(rows, id, now).1, nextId)
  {
    UpdatePreservesWellFormed(rows, nextId, id, MarkDone(now));
  }

  /** Completing a Pending task and then reopening it restores the table
      exactly: the task is Pending again with no completion time. */
  lemma CompleteThenUncomplete(rows: seq<Todo>, nextId: int, id: int, now: Instant, k: nat)
    requires WellFormed(rows, nextId)
    requires k < |rows| && rows[k].id == id && rows[k].state == Pending
    ensures UpdateWhere(Complete(rows, id, now).1, id, MarkPending) == rows
  {
    CompletePending(rows, nextId, id, now, k);
    var done := rows[k := rows[k].(state := Done, completed := Some(now))];
    assert IdsAscending(done);
    assert IndexOf(done, id) == Some(k) by {
      assert done[k].id == id;
      var j := IndexOf(done, id).value;
      assert done[j].id == done[k].id;
    }
    UpdateOnlyTarget(done, id, MarkPending, k);
  }

  // ---------------------------------------------------------------------
  // DELETE

  /** DELETE removes every row with the id and keeps every other row. */
  lemma {:induction false} DeleteWhereMembers(rows: seq<Todo>, id: int)
    ensures forall t :: t in DeleteWhere(rows, id) <==> t in rows && t.id != id
  {
    if rows != [] {
      DeleteWhereMembers(rows[1..], id);
      assert rows == [rows[0]] + rows[1..];
    }
  }

  /** A DELETE of an id that is not in the table changes nothing. */
  lemma {:induction false} DeleteAbsent(rows: seq<Todo>, id: int)
    requires forall i :: 0 <= i < |rows| ==> rows[i].id != id
    ensures DeleteWhere(rows, id) == rows
  {
    if rows != [] {
      DeleteAbsent(rows[1..], id);
      assert rows == [rows[0]] + rows[1..];
    }
  }

  /** With ascending ids, a DELETE of a present id removes exactly that
      row and keeps the others in order. */
  lemma {:induction false} DeleteExactlyOne(rows: seq<Todo>, id: int, k: nat)
    requires IdsAscending(rows)
    requires k < |rows| && rows[k].id == id
    ensures DeleteWhere(rows, id) == rows[..k] + rows[k + 1..]
  {
    if k == 0 {
      DeleteAbsent(rows[1..], id);
    } else {
      DeleteExactlyOne(rows[1..], id, k - 1);
      assert rows[1..][..k - 1] + rows[1..][k..] == rows[1..k] + rows[k + 1..];
      assert [rows[0]] + rows[1..k] == rows[..k];
    }
  }

  /** After a DELETE the id is gone from the table. */
  lemma DeleteFinal(rows: seq<Todo>, id: int)
    ensures IndexOf(DeleteWhere(rows, id), id).None?
  {
    DeleteWhereMembers(rows, id);
    var r := DeleteWhere(rows, id);
    forall i | 0 <= i < |r| ensures r[i].id != id {
      assert r[i] in r;
    }
  }

  /** DELETE keeps the table invariant. */
  lemma DeletePreservesWellFormed(rows: seq<Todo>, nextId: int, id: int)
    requires WellFormed(rows, nextId)
    ensures WellFormed(DeleteWhere(rows, id), nextId)
  {
    match IndexOf(rows, id)
    case None =>
      DeleteAbsent(rows, id);
    case Some(k) =>
      DeleteExactlyOne(rows, id, k);
      var r := rows[..k] + rows[k + 1..];
      forall i | 0 <= i < |r| ensures r[i] == rows[if i < k then i else i + 1] {
      }
  }

  // ---------------------------------------------------------------------
  // INSERT

  /** The row CreateTodo inserts gets an id above every id in the table,
      and appending it keeps the table invariant with the counter advanced. */
  lemma InsertFresh(rows: seq<Todo>, nextId: int, text: string, tag: string, now: Instant)
    requires WellFormed(rows, nextId)
    ensures forall i :: 0 <= i < |rows| ==> rows[i].id < nextId
    ensures WellFormed(rows + [Todo(nextId, text, Pending, tag, now, None)], nextId + 1)
  {
  }

  // ---------------------------------------------------------------------
  // SELECT

  /** Selecting from a concatenation selects from each part in turn, so a
      SELECT keeps the stored order. */
  lemma {:induction false} SelectAppend(a: seq<Todo>, b: seq<Todo>, w: Where, dayOf: Instant -> int)
    ensures Select(a + b, w, dayOf) == Select(a, w, dayOf) + Select(b, w, dayOf)
  {
    if a == [] {
      assert a + b == b;
    } else {
      var head := if Matches(w, dayOf, a[0]) then [a[0]] else [];
      assert (a + b)[0] == a[0];
      assert (a + b)[1..] == a[1..] + b;
      assert Select(a + b, w, dayOf) == head + Select(a[1..] + b, w, dayOf);
      SelectAppend(a[1..], b, w, dayOf);
      assert Select(a, w, dayOf) == head + Select(a[1..], w, dayOf);
    }
  }

  /** A SELECT returns exactly the rows that satisfy its WHERE clause. */
  lemma {:induction false} SelectMembers(rows: seq<Todo>, w: Where, dayOf: Instant -> int)
    ensures forall t :: t in Select(rows, w, dayOf) <==> t in rows && Matches(w, dayOf, t)
  {
    if rows != [] {
      SelectMembers(rows[1..], w, dayOf);
      assert rows == [rows[0]] + rows[1..];
    }
  }

  /** A SELECT with no conditions returns the whole table. */
  lemma {:induction false} SelectUnfiltered(rows: seq<Todo>, dayOf: Instant -> int)
    ensures Select(rows, Where(None, None, None), dayOf) == rows
  {
    if rows != [] {
      SelectUnfiltered(rows[1..], dayOf);
      assert rows == [rows[0]] + rows[1..];
    }
  }

  /** The tag condition is one more filter on top of the others: selecting
      with a tag equals selecting without it and then keeping that tag. */
  lemma {:induction false} SelectTagRefines(rows: seq<Todo>, state: Option<Status>, createdOn: Option<Instant>,
                                            tag: string, dayOf: Instant -> int)
    ensures Select(rows, Where(state, createdOn, Some(tag)), dayOf)
         == Select(Select(rows, Where(state, createdOn, None), dayOf), Where(None, None, Some(tag)), dayOf)
  {
    if rows != [] {
      SelectTagRefines(rows[1..], state, createdOn, tag, dayOf);
      var untagged := Where(state, createdOn, None);
      var byTag := Where(None, None, Some(tag));
      var rest := Select(rows[1..], untagged, dayOf);
      if Matches(untagged, dayOf, rows[0]) {
        assert Select(rows, untagged, dayOf) == [rows[0]] + rest;
        assert ([rows[0]] + rest)[0] == rows[0];
        assert ([rows[0]] + rest)[1..] == rest;
        assert Select([rows[0]] + rest, byTag, dayOf)
            == (if Matches(byTag, dayOf, rows[0]) then [rows[0]] else []) + Select(rest, byTag, dayOf);
      } else {
        assert Select(rows, untagged, dayOf) == rest;
      }
    }
  }

  /** Creation-date filtering looks at the calendar day only: two instants
      on the same day select the same rows, whatever their time of day. */
  lemma {:induction false} SelectSameDay(rows: seq<Todo>, state: Option<Status>, tag: Option<string>,
                                         t1: Instant, t2: Instant, dayOf: Instant -> int)
    requires dayOf(t1) == dayOf(t2)
    ensures Select(rows, Where(state, Some(t1), tag), dayOf) == Select(rows, Where(state, Some(t2), tag), dayOf)
  {
    if rows != [] {
      SelectSameDay(rows[1..], state, tag, t1, t2, dayOf);
    }
  }
}

/** The task store: the `todos` table and its AUTOINCREMENT counter, with
    the insert, the four updates and the four queries the store offers. */
module TodoStore {
  import opened TodoModel
  import opened TodoTable

  class TodoDB {
    /** The rows of the `todos` table, in insertion order. */
    var todos: seq<Todo>
    /** The id the next INSERT receives: one more than the largest id ever
        handed out, deleted rows included. */
    var nextId: int
    /** The calendar day of an instant, as the database's `date(...)`
        computes it. */
    const dayOf: Instant -> int

    ghost predicate Valid()
      reads this
    {
      WellFormed(todos, nextId)
    }

    /** A freshly created, empty table. */
    constructor (dayOf: Instant -> int)
      ensures Valid()
      ensures todos == [] && nextId == 1 && this.dayOf == dayOf
    {
      todos := [];
      nextId := 1;
      this.dayOf := dayOf;
    }

    /** Inserts a Pending task created at `now`, with no completion time, under
        a fresh id larger than every id in the table. */
    method CreateTodo(title: string, tag: string, now: Instant)
      requires Valid()
      modifies this
      ensures Valid()
      ensures forall i :: 0 <= i < |old(todos)| ==> old(todos)[i].id < old(nextId)
      ensures todos == old(todos) + [Todo(old(nextId), title, Pending, tag, now, None)]
      ensures nextId == old(nextId) + 1
    {
      InsertFresh(todos, nextId, title, tag, now);
      todos := todos + [Todo(nextId, title, Pending, tag, now, None)];
      nextId := nextId + 1;
    }

    /** Marks the task Done at `now`. A missing id is an error; a task that is
        already Done is left as it is. */
    method CompleteTodo(todoId: int, now: Instant) returns (err: Outcome)
      requires Valid()
      modifies this
      ensures Valid()
      ensures (err, todos) == Complete(old(todos), todoId, now)
      ensures nextId == old(nextId)
    {
      CompletePreservesWellFormed(todos, nextId, todoId, now);
      // The same look-up-then-update as TodoTable.Complete, step by step.
      match IndexOf(todos, todoId)
      case None =>
        err := ErrNoRows;
      case Some(k) =>
        if todos[k].state == Done {
          err := Ok;
        } else {
          todos := UpdateWhere(todos, todoId, MarkDone(now));
          err := Ok;
        }
    }

    /** Reopens the task: Pending, completion time cleared, whatever its
        state was. A missing id changes nothing and is not an error. */
    method UncompleteTodo(todoId: int)
      requires Valid()
      modifies this
      ensures Valid()
      ensures todos == UpdateWhere(old(todos), todoId, MarkPending)
      ensures IndexOf(old(todos), todoId).None? ==> todos == old(todos)
      ensures nextId == old(nextId)
    {
      UpdatePreservesWellFormed(todos, nextId, todoId, MarkPending);
      if IndexOf(todos, todoId).None? {
        UpdateAbsent(todos, todoId, MarkPending);
      }
      todos := UpdateWhere(todos, todoId, MarkPending);
    }

    /** Replaces the text of the task; a missing id changes nothing and is
        not an error. */
    method ChangeTodoName(todoId: int, newName: string)
      requires Valid()
      modifies this
      ensures Valid()
      ensures todos == UpdateWhere(old(todos), todoId, SetText(newName))
      ensures forall k :: 0 <= k < |old(todos)| && old(todos)[k].id == todoId ==>
                todos == old(todos)[k := old(todos)[k].(text := newName)]
      ensures IndexOf(old(todos), todoId).None? ==> todos == old(todos)
      ensures nextId == old(nextId)
    {
      UpdatePreservesWellFormed(todos, nextId, todoId, SetText(newName));
      match IndexOf(todos, todoId)
      case None =>
        UpdateAbsent(todos, todoId, SetText(newName));
      case Some(k) =>
        UpdateOnlyTarget(todos, todoId, SetText(newName), k);
        forall j | 0 <= j < |todos| && todos[j].id == todoId ensures j == k {
          assert todos[j].id == todos[k].id;
        }
      todos := UpdateWhere(todos, todoId, SetText(newName));
    }

    /** Removes the task with the id, if there is one, and nothing else. */
    method DeleteTodo(todoId: int)
      requires Valid()
      modifies this
      ensures Valid()
      ensures todos == DeleteWhere(old(todos), todoId)
      ensures forall k :: 0 <= k < |old(todos)| && old(todos)[k].id == todoId ==>
                todos == old(todos)[..k] + old(todos)[k + 1..]
      ensures IndexOf(old(todos), todoId).None? ==> todos == old(todos)
      ensures IndexOf(todos, todoId).None?
      ensures nextId == old(nextId)
    {
      DeletePreservesWellFormed(todos, nextId, todoId);
      DeleteFinal(todos, todoId);
      if IndexOf(todos, todoId).None? {
        DeleteAbsent(todos, todoId);
      }
      forall k | 0 <= k < |todos| && todos[k].id == todoId
        ensures DeleteWhere(todos, todoId) == todos[..k] + todos[k + 1..]
      {
        DeleteExactlyOne(todos, todoId, k);
      }
      todos := DeleteWhere(todos, todoId);
    }

    /** Runs a SELECT: walks the rows and collects those that satisfy the
        WHERE clause, in stored order. */
    method CollectTodos(w: Where) returns (r: seq<Todo>)
      ensures r == Select(todos, w, dayOf)
    {
      r := [];
      var i := 0;
      while i < |todos|
        invariant 0 <= i <= |todos|
        invariant r == Select(todos[..i], w, dayOf)
      {
        assert todos[..i + 1] == todos[..i] + [todos[i]];
        SelectAppend(todos[..i], [todos[i]], w, dayOf);
        if Matches(w, dayOf, todos[i]) {
          r := r + [todos[i]];
        }
        i := i + 1;
      }
      assert todos[..i] == todos;
    }

    /** Every task, restricted to a tag when the tag is not empty. */
    method GetTasks(tag: string) returns (r: seq<Todo>)
      ensures r == Select(todos, Where(None, None, TagCondition(tag)), dayOf)
      ensures forall t :: t in r <==> t in todos && (tag == "" || t.tag == tag)
      ensures tag == "" ==> r == todos
    {
      if tag != "" {
        r := CollectTodos(Where(None, None, Some(tag)));
      } else {
        r := CollectTodos(Where(None, None, None));
        SelectUnfiltered(todos, dayOf);
      }
      SelectMembers(todos, Where(None, None, TagCondition(tag)), dayOf);
    }

    /** The tasks in the given state, restricted to a tag when the tag is
        not empty. */
    method GetFilteredTasksByState(state: Status, tag: string) returns (r: seq<Todo>)
      ensures r == Select(todos, Where(Some(state), None, TagCondition(tag)), dayOf)
      ensures forall t :: t in r <==> t in todos && t.state == state && (tag == "" || t.tag == tag)
    {
      if tag != "" {
        r := CollectTodos(Where(Some(state), None, Some(tag)));
      } else {
        r := CollectTodos(Where(Some(state), None, None));
      }
      SelectMembers(todos, Where(Some(state), None, TagCondition(tag)), dayOf);
    }

    /** The tasks created on the calendar day of `time`, restricted to a tag
        when the tag is not empty. */
    method GetFilteredTasksByCreationDate(time: Instant, tag: string) returns (r: seq<Todo>)
      ensures r == Select(todos, Where(None, Some(time), TagCondition(tag)), dayOf)
      ensures forall t :: t in r <==>
                t in todos && dayOf(t.created) == dayOf(time) && (tag == "" || t.tag == tag)
    {
      if tag != "" {
        r := CollectTodos(Where(None, Some(time), Some(tag)));
      } else {
        r := CollectTodos(Where(None, Some(time), None));
      }
      SelectMembers(todos, Where(None, Some(time), TagCondition(tag)), dayOf);
    }

    /** The tasks in the given state created on the calendar day of `time`,
        restricted to a tag when the tag is not empty. */
    method GetFilteredTasksByStateAndDate(state: Status, time: Instant, tag: string) returns (r: seq<Todo>)
      ensures r == Select(todos, Where(Some(state), Some(time), TagCondition(tag)), dayOf)
      ensures forall t :: t in r <==>
                t in todos && t.state == state && dayOf(t.created) == dayOf(time) &&
                (tag == "" || t.tag == tag)
    {
      if tag != "" {
        r := CollectTodos(Where(Some(state), Some(time), Some(tag)));
      } else {
        r := CollectTodos(Where(Some(state), Some(time), None));
      }
      SelectMembers(todos, Where(Some(state), Some(time), TagCondition(tag)), dayOf);
    }
  }

  /** A client session: add a task, complete it, list by state, delete it. */
  method BuyMilkSession(dayOf: Instant -> int, createdAt: Instant, completedAt: Instant) {
    var store := new TodoDB(dayOf);
    store.CreateTodo("buy milk", "", createdAt);
    var milk := Todo(1, "buy milk", Pending, "", createdAt, None);
    assert store.todos == [milk];

    var pending := store.GetFilteredTasksByState(Pending, "");
    assert milk in pending;

    var err := store.CompleteTodo(1, completedAt);
    assert err == Ok;
    var milkDone := milk.(state := Done, completed := Some(completedAt));
    assert store.todos == [milkDone];

    var done := store.GetFilteredTasksByState(Done, "");
    assert milkDone in done;
    pending := store.GetFilteredTasksByState(Pending, "");
    assert pending == [];

    err := store.CompleteTodo(1, completedAt + 1);
    assert err == Ok && store.todos == [milkDone];

    store.DeleteTodo(1);
    var all := store.GetTasks("");
    assert all == [];

    err := store.CompleteTodo(1, completedAt);
    assert err == ErrNoRows;
  }
}

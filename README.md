# Task store of todo-cli, modelled in Dafny

The store of todo-cli keeps one SQLite table, `todos`. Each row has an
auto-incremented id, the task text, a state (Pending, stored as 0, or Done,
stored as 1), a tag, a creation time and an optional completion time. The
store offers these operations:

- one insert: `CreateTodo`;
- four updates: `CompleteTodo`, `UncompleteTodo`, `ChangeTodoName` and
  `DeleteTodo`;
- four queries: `GetTasks`, `GetFilteredTasksByState`,
  `GetFilteredTasksByCreationDate` and `GetFilteredTasksByStateAndDate`.
  All four go through one helper that runs a SELECT and collects the rows.

The model has three modules.

- `TodoModel` (`todo_model.dfy`) holds the values. It has the state and its
  integer code and display name, the `Todo` record, and the
  completion invariant "a completion time is present exactly when the task
  is Done". It also has the three column assignments that the UPDATE
  statements make.
- `TodoTable` (`todo_table.dfy`) gives each SQL statement its meaning as a
  function on the sequence of rows: `IndexOf` for `WHERE id = ?`,
  `UpdateWhere`, `DeleteWhere`, `Select` over a `Where` clause, and
  `Complete` for the look-up-then-update of `CompleteTodo`. The lemmas
  about these functions are the properties proved: frames, idempotence,
  round trips, filter correctness and preservation of the table invariant.
- `TodoStore` (`todo_store.dfy`) holds the class `TodoDB`. It has the rows
  as a `seq<Todo>` field and the AUTOINCREMENT counter `nextId`. Each method
  of the source is a method here. Mutating methods keep `Valid()` and state
  the new table in terms of the old one. The SELECT helper is a loop over
  the rows, proved equal to `Select`. `BuyMilkSession` is a client that
  adds a task, completes it, lists it and deletes it, using only these
  contracts.

Three things come from outside the store:

- The clock (`time.Now()`) is the `now` parameter of `CreateTodo` and
  `CompleteTodo`.
- SQLite's `date(...)` is the function `dayOf` given to the store's
  constructor. No property of it is assumed. Two instants are on the same
  day exactly when `dayOf` maps them to the same value.
- The table invariant is `TodoTable.WellFormed`:
  - ids ascend strictly along the table;
  - every id is at least 1 and below `nextId`;
  - every row keeps the completion invariant.

  `nextId` never decreases, so an id is never handed out twice, even after
  a delete.

The queries return their matches in stored order, which is insertion order.
This is a modelling choice. The SELECT statements have no `ORDER BY`, so the
source does not promise any order.

Where the source and its design description disagree, the model follows the
source:

- `UncompleteTodo`, `ChangeTodoName` and `DeleteTodo` on an id that does not
  exist change nothing and return no error (driver errors are left out). They
  do not report "not found".
- `CreateTodo` and `ChangeTodoName` accept empty text. The add command
  rejects empty text before it calls `CreateTodo` (cli.go:35-36,
  cli.go:56-57). No caller of `ChangeTodoName` checks the new name.
- Only `CompleteTodo` reports a missing id. It does so through the failed
  row scan, modelled as `ErrNoRows`.

## Model

| member | source | states |
|---|---|---|
| TodoModel.Code | db/db.go:17-22 | Pending is stored as 0 and Done as 1 |
| TodoModel.StatusOfCode | db/db.go:17-22 | exactly the codes 0 and 1 read back as a state |
| TodoModel.StatusCodeRoundTrip | db/db.go:17-22 | storing a state and reading it back gives the same state, and every readable code is the code of its state |
| TodoModel.StatusName | db/db.go:24-26 | Pending displays as "todo" and Done as "done" |
| TodoModel.StatusNameInjective | db/db.go:24-26 | distinct states have distinct display names |
| TodoModel.Apply | db/db.go:185-203 | each UPDATE assignment keeps id, tag and creation time and keeps the completion invariant; marking Done sets state Done and completion time; reopening sets Pending and clears the completion time; renaming changes only the text |
| TodoTable.IndexOf | db/db.go:174-175 | finds the first row with the id, or reports that no row has it |
| TodoTable.UpdateWhere | db/db.go:185-203 | an UPDATE keeps the number of rows |
| TodoTable.DeleteWhere | db/db.go:208-214 | a DELETE never adds rows |
| TodoTable.Select | db/db.go:98-130 | a SELECT returns at most as many rows as the table holds |
| TodoTable.Matches | db/db.go:134-157 | the WHERE clause of the four queries: state equality, `dayOf` equality of the creation time, and tag equality, each only when present; a clause with no condition matches every row |
| TodoTable.Complete | db/db.go:171-190 | the look-up-then-update of `CompleteTodo`: the scan error exactly when no row has the id, and then the table is unchanged; the row count never changes. `CompleteMissing`, `CompletePending` and `CompleteDone` fix the rest of its meaning |
| TodoTable.TagCondition | db/db.go:132-158 | an empty tag adds no tag condition; any other tag adds `tag = given` |
| TodoTable.UpdateWhereAt | db/db.go:185-203 | an UPDATE applies its assignment to exactly the rows with the id and leaves every other row unchanged |
| TodoTable.UpdateAbsent | db/db.go:192-206 | an UPDATE of a missing id leaves the table unchanged |
| TodoTable.UpdateOnlyTarget | db/db.go:185-206 | with unique ids, an UPDATE changes the one targeted row and no other |
| TodoTable.UpdatePreservesWellFormed | db/db.go:185-206 | every UPDATE keeps ascending ids, the id bound and the completion invariant |
| TodoTable.UncompleteIdempotent | db/db.go:192-198 | reopening twice equals reopening once |
| TodoTable.RenameOnlyText | db/db.go:200-206 | a rename changes only the text, and only of the row with the id |
| TodoTable.CompleteMissing | db/db.go:174-179 | completing a missing id gives the scan error and leaves the table unchanged |
| TodoTable.CompletePending | db/db.go:185-189 | completing a Pending task sets state Done and completion time `now` on that row only |
| TodoTable.CompleteDone | db/db.go:181-183 | completing a Done task succeeds and changes nothing, so the completion time is not refreshed |
| TodoTable.CompleteIdempotent | db/db.go:171-190 | completing twice, at any two instants, gives the outcome and table of completing once |
| TodoTable.CompletePreservesWellFormed | db/db.go:171-190 | completing keeps the table invariant |
| TodoTable.CompleteThenUncomplete | db/db.go:171-198 | completing a Pending task and then reopening it restores the table exactly |
| TodoTable.DeleteWhereMembers | db/db.go:208-214 | after a DELETE the table holds exactly the old rows whose id differs |
| TodoTable.DeleteAbsent | db/db.go:208-214 | deleting a missing id leaves the table unchanged |
| TodoTable.DeleteExactlyOne | db/db.go:208-214 | with ascending ids, deleting a present id removes that one row and keeps the rest in order |
| TodoTable.DeleteFinal | db/db.go:208-214 | after a DELETE no row has the deleted id |
| TodoTable.DeletePreservesWellFormed | db/db.go:208-214 | deleting keeps the table invariant |
| TodoTable.InsertFresh | db/db.go:78 | the id handed out exceeds every id in the table, and appending the new Pending row without a completion time keeps the invariant with the counter advanced |
| TodoTable.SelectAppend | db/db.go:98-130 | a SELECT distributes over concatenation, so it keeps stored order |
| TodoTable.SelectMembers | db/db.go:98-130 | a SELECT returns exactly the rows that satisfy its WHERE clause |
| TodoTable.SelectUnfiltered | db/db.go:136 | a SELECT with no condition returns the whole table |
| TodoTable.SelectTagRefines | db/db.go:132-158 | a tag condition filters the tagless result further and does nothing else |
| TodoTable.SelectSameDay | db/db.go:146-158 | creation-date filters depend only on the calendar day of the given instant |
| TodoStore.TodoDB.constructor | db/db.go:75-85 | a new store has an empty table whose first id will be 1 |
| TodoStore.TodoDB.CreateTodo | db/db.go:160-169 | appends one Pending row with no completion time, created at `now`, with the given text and tag and a fresh id above all existing ids; other rows are unchanged |
| TodoStore.TodoDB.CompleteTodo | db/db.go:171-190 | outcome and new table are those of `Complete`; the invariant is kept |
| TodoStore.TodoDB.UncompleteTodo | db/db.go:192-198 | every row with the id becomes Pending with no completion time; a missing id changes nothing; the invariant is kept |
| TodoStore.TodoDB.ChangeTodoName | db/db.go:200-206 | the row with the id gets the new text and no other row or field changes; a missing id changes nothing |
| TodoStore.TodoDB.DeleteTodo | db/db.go:208-214 | exactly the row with the id is removed, the rest keep their order, and the id is gone afterwards; a missing id changes nothing |
| TodoStore.TodoDB.CollectTodos | db/db.go:98-130 | the row-collecting loop returns exactly `Select` of the table |
| TodoStore.TodoDB.GetTasks | db/db.go:132-137 | returns exactly the rows with the given tag, or the whole table when the tag is empty |
| TodoStore.TodoDB.GetFilteredTasksByState | db/db.go:139-144 | returns exactly the rows in the given state, further restricted to the tag when it is not empty |
| TodoStore.TodoDB.GetFilteredTasksByCreationDate | db/db.go:146-151 | returns exactly the rows created on the given calendar day, further restricted to the tag when it is not empty |
| TodoStore.TodoDB.GetFilteredTasksByStateAndDate | db/db.go:153-158 | returns exactly the rows in the given state and created on the given calendar day, further restricted to the tag when it is not empty |

## Left out

- `NewTodoDB`, `setupTodoSchema` and `Close` (db/db.go:41-96) are left out. They do home-directory lookup, directory creation, opening the driver and closing it, which is file-system and driver I/O. The schema is used only as the shape of `Todo`, and the constructor of `TodoDB` stands for a freshly created empty table.
- Errors from the SQLite driver are not modelled: a failed open, a failed query, a failed `rows.Scan` and a failed `Exec`. The only error modelled is the missing-row scan error of `CompleteTodo`. The error-wrapping text of `getTodosHelper` is diagnostic only.
- The real clock and time zones are left out. `time.Now()` becomes a parameter, and SQLite's `date(...)` becomes the uninterpreted function `dayOf`.
- SQLite's 64-bit rowid limit is not modelled. Ids are unbounded integers, so the error AUTOINCREMENT gives once the largest id has been used never arises.
- `TodoModel.StatusName`: the Go `String` method indexes an array by the integer code and panics for codes other than 0 and 1. In the model a state is always Pending or Done, and the store writes only those two codes.
- Several processes can share the database file. The model does not cover this. The look-up and the update in `CompleteTodo` are modelled as one sequential step.
- cli.go, list-table/list-table.go and add/add.go are not part of this model. They hold command wiring, interactive pickers, date-flag parsing and terminal rendering. cli.go calls `GetTasks` and `GetFilteredTasksByState` without the tag argument, so the model follows the signatures in db/db.go.

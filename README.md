# Task list store — a Dafny model

This project models the in-memory task store of a single-user command-line task
manager (`tasklist.go`). The store is an ordered list of tasks plus a next-ID
counter. Each task has an ID, a text content, a state (Pending or Completed), a
creation time and an optional completion time. The store changes in four ways:
adding a task, removing a task by ID, moving a task between the two states, and
recovering the counter after the task file is loaded at startup. The menu code
that turns a typed state token into a state, and that skips the store when an ID
or token is invalid, is modelled too.

Layout:

- `tasks.dfy`, module `Tasks`: the `Task` record, the two-valued `State`, the
  record invariant "completion time present exactly when Completed", and
  `Transition`, the change `updateTaskState` makes to the matched task.
- `tasklist.dfy`, module `TaskList`: the task sequence as a value. It holds the
  invariants (IDs increasing, unique, below the counter; stamps consistent), the
  functions `IndexOf`, `Removed`, `Updated` and `RecoveredNextId` that say what
  each operation does to the sequence, the reference filter `WithoutId`, and the
  lemmas about all of these.
- `store.dfy`, module `Store`: class `TaskStore` with the fields `tasks`,
  `nextId` and `lastSaved`. Its methods mirror the Go functions and are proved
  against the `TaskList` functions, loops included. It also holds the listing
  (`List`, `RowOf`).
- `shell.dfy`, module `Shell`: state-token normalisation (`ParseState`,
  `StateName`) and menu choices 3 and 4 (`RemoveCommand`, `UpdateCommand`).

Modelling choices:

- Clock readings are an abstract `Time` (an `int`), passed in where the Go code
  calls `time.Now()`.
- The nullable `CompletedAt` pointer is an `Option<Time>`.
- The persist step (`saveTasks`) is the field `lastSaved`. It holds the sequence
  most recently handed to the persist step. Every caller ignores the save error,
  so whether the write succeeded has no effect on the in-memory state, and the
  model does not track it. The model shows that `updateTaskState` persists even
  when it changes nothing, and that `removeTask` persists only when it finds the
  task.
- The result of reading the file at startup is a parameter of `Load` (missing
  file, open error, decode error, or the decoded tasks).
- The result of parsing a typed ID is a parameter (`Option<int>`, None when the
  parse failed).

Where the written description of the system and the code disagree, the model
follows the code:

- The description calls state tokens case-insensitive. The code accepts exactly
  `P`, `p`, `Pending`, `C`, `c` and `Completed`. So `pending` and `COMPLETED`
  are rejected, and `ParseState` says so.
- The description says a removed ID never shows up again. Within one session
  that holds when the loaded file's IDs are increasing and every stamp agrees
  with its state (then `Load` gives `Valid()`): `nextId` only ever grows and stays above every stored ID. A file
  whose IDs are not increasing breaks this: IDs [5, 2] set the counter to 3, and
  the third add issues 5 again. Also, the counter is recovered from the last
  stored task only. So removing the most recent task and restarting gives a
  counter at most that task's ID, which a later add issues again
  (`ReloadReissuesRemovedLastId`).
  The description's own rule, "continue after the highest existing ID", allows
  this, so it is recorded here as behaviour, not as a defect.
- The description says reload continues after the highest ID. The code uses the
  last task's ID. With increasing IDs the two are the same
  (`RecoveredNextIdAboveAll`).

## Model

| member | source | states |
|---|---|---|
| Tasks.NewTask | tasklist.go:85-90 | the task `addTask` creates satisfies the stamp invariant (completion time present exactly when Completed) |
| Tasks.Transition | tasklist.go:114-121 | the matched task ends in the target state; moving to Completed stamps it with the supplied time, moving to Pending clears the stamp; a task already in the target is returned unchanged; ID, content and creation time never change; the stamp invariant is preserved |
| TaskList.IndexOf | tasklist.go:99-100 | the scan finds the first position holding the ID, and finds nothing exactly when no task has that ID |
| TaskList.Removed | tasklist.go:98-107 | with an absent ID the sequence is unchanged; with a present ID it is one shorter |
| TaskList.Updated | tasklist.go:111-127 | length, IDs, contents and creation times are kept; only the first task with the ID can differ, and it becomes its `Transition`; with an absent ID nothing changes |
| TaskList.IncreasingOrdered | tasklist.go:86-92 | strictly increasing adjacent IDs are increasing between any two positions |
| TaskList.IncreasingUnique | tasklist.go:86-92 | increasing IDs are unique |
| TaskList.AppendKeepsIds | tasklist.go:84-92 | appending under the counter keeps IDs increasing and below the incremented counter |
| TaskList.RecoveredNextId | tasklist.go:43-45 | with no stored tasks the counter keeps its initial value; otherwise the counter minus one is the ID of a stored task; with `RecoveredNextIdAboveAll` it is one past the highest ID when the IDs increase |
| TaskList.RecoveredNextIdAboveAll | tasklist.go:42-45 | with increasing stored IDs, the recovered counter is above every stored ID |
| TaskList.ReloadReissuesRemovedLastId | tasklist.go:42-45 | for any list of two or more tasks with increasing IDs, after removing the most recent task the counter recovered on reload is one past the previous task's ID and at most the removed task's ID, so the removed ID will be issued again |
| TaskList.RemovedIsFilter | tasklist.go:98-107 | with unique IDs, removal equals keeping, in their original order, exactly the tasks whose ID differs |
| TaskList.WithoutIdMembers | tasklist.go:101 | a task is in the filtered sequence exactly when it is in the original and does not carry the removed ID |
| TaskList.RemovedIds | tasklist.go:98-107 | with unique IDs, the removed ID is gone afterwards and every other ID is present afterwards exactly when it was before |
| TaskList.RemovedKeepsInvariants | tasklist.go:101 | the splice keeps IDs increasing, keeps them below the counter and keeps every stamp consistent |
| TaskList.SameIdsSameIndex | tasklist.go:112-113 | two sequences with the same IDs at each position find an ID at the same position |
| TaskList.UpdatedIdempotent | tasklist.go:114-121 | updating twice to the same target, at any two clock readings, equals updating once |
| TaskList.UpdatedToCurrentState | tasklist.go:114-121 | updating a task to the state it already has leaves the whole sequence unchanged |
| TaskList.UpdatedKeepsInvariants | tasklist.go:112-121 | a state update keeps IDs increasing, keeps them below the counter and keeps every stamp consistent |
| Store.RowOf | tasklist.go:74-79 | a listing row shows the task's fields; for a consistent task its completion cell is the N/A placeholder exactly when the task is Pending |
| Store.TaskStore.constructor | tasklist.go:20-21 | the store starts with no tasks, counter 0 and nothing persisted, and satisfies the store invariant |
| Store.TaskStore.Load | tasklist.go:25-46 | a missing file loads nothing and succeeds; open and decode errors fail and change nothing; decoded tasks replace the sequence and the counter becomes one past the last ID, or stays as it was when the decoded array is empty (`[]` or `null`; a zero-byte file is a decode error); increasing, consistent decoded tasks give a valid store |
| Store.TaskStore.AddTask | tasklist.go:84-95 | exactly one task is appended, under the old counter, Pending, created at the supplied time, with no stamp; earlier tasks are unchanged; the counter goes up by one; the new sequence is persisted; the store invariant is preserved |
| Store.TaskStore.RemoveTask | tasklist.go:98-108 | reports found exactly when the ID is present; the sequence becomes `Removed`; the counter is unchanged; the sequence is persisted only when found; the store invariant is preserved |
| Store.TaskStore.UpdateTaskState | tasklist.go:111-128 | reports found exactly when the ID is present; the sequence becomes `Updated`; the counter is unchanged; the sequence is persisted whenever found, even for a no-op; the store invariant is preserved |
| Store.TaskStore.List | tasklist.go:63-81 | an empty store gives the no-tasks message; otherwise one row per task, in order, each the task's `RowOf` |
| Shell.StateName | tasklist.go:192-199 | the name a state is stored under is a token that parses back to that state |
| Shell.ParseState | tasklist.go:192-199 | exactly `P`, `p`, `Pending` select Pending; exactly `C`, `c`, `Completed` select Completed; every other token is invalid; an accepted token longer than one letter is the full capitalised name |
| Shell.RemoveCommand | tasklist.go:167-177 | a failed ID parse reports invalid ID and leaves the store alone; otherwise the outcome is done exactly when the ID was present and the store's sequence becomes `Removed`; the counter never changes; on done the new sequence is persisted; the invariant is preserved |
| Shell.UpdateCommand | tasklist.go:178-199 | a failed ID parse reports invalid ID and an unrecognised token reports invalid state, both leaving the store alone; otherwise the outcome is done exactly when the ID was present and the sequence becomes `Updated` with the parsed target; the counter never changes; on done the new sequence is persisted; the invariant is preserved |

## Left out

- JSON encoding and decoding, and opening, creating and closing the file (`loadTasks`, `saveTasks`): library I/O. Reading is a `Load` parameter; saving is the `lastSaved` snapshot.
- Store.TaskStore.Load: on a decode error the model leaves the sequence untouched. Go's decoder may already have filled part of it, but the program stops right after, so nothing observes that.
- Whether a save succeeded: every caller ignores the error, and the in-memory state is the same either way.
- Table formatting in `listTasks` (column widths, `time.Format`) and the `showMenu` text: foreign formatting calls. Only the choice between the no-tasks message and one row per task is modelled, with timestamps kept as clock readings.
- The menu loop, stdin scanning, the printed messages and the exit choice in `main`, and the messages `addTask`, `removeTask` and `updateTaskState` print themselves: interactive I/O. The "Added task" line has no counterpart in the model; the remove and update messages are the `Outcome` values of `RemoveCommand` and `UpdateCommand`. Menu choice 2 calls `AddTask` directly; choices 3 and 4 are `RemoveCommand` and `UpdateCommand`.
- `strconv.Atoi`: a library routine. Only "parse failed means no store operation" is modelled.
- `time.Now`: replaced by a clock-reading parameter. The model claims nothing about the completion time being after the creation time; that depends on the clock alone.
- Go's fixed-width `int` (32 or 64 bits by platform): the model's IDs and counter are unbounded. The wrap-around of `nextID++` and of `ID + 1` at the largest `int` is not modelled.
- State strings in a loaded file other than "Pending" and "Completed": the model's state has exactly two values. The record invariant is not assumed for loaded data. `Load` gives a valid store only when the decoded tasks satisfy it.

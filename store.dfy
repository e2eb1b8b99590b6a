/**
 * The in-memory task store: the ordered task sequence, the next-ID counter and the
 * operations that change them in place, each followed by a persist step.
 */
module Store {
  import opened Tasks
  import opened TaskList

  /** What reading the task file at startup produced. */
  datatype LoadOutcome =
    | FileMissing              // the file does not exist: nothing to load
    | OpenError                // any other failure to open the file
    | DecodeError              // the content is not a well-formed task array (a zero-byte file included)
    | Decoded(ts: seq<Task>)   // the decoded task array

  /** A cell of the table's "Completed At" column: a timestamp, or the placeholder N/A. */
  datatype Cell = NotApplicable | Stamp(at: Time)

  /** One table row of the task listing. */
  datatype Row = Row(id: int, content: string, state: State, createdAt: Time, completedAt: Cell)

  /** What listing the tasks shows: the "No tasks to show." message, or a table of rows. */
  datatype Listing = NoTasks | Table(rows: seq<Row>)

  /** The row shown for a task; a missing completion stamp shows as the placeholder. */
  function RowOf(t: Task): (r: Row)
    ensures r.id == t.id && r.content == t.content && r.state == t.state && r.createdAt == t.createdAt
    ensures StampConsistent(t) ==> (r.completedAt == NotApplicable <==> t.state == Pending)
  {
    Row(t.id, t.content, t.state, t.createdAt,
        match t.completedAt case None => NotApplicable case Some(at) => Stamp(at))
  }

  class TaskStore {
    /** The tasks, in insertion order. */
    var tasks: seq<Task>
    /** The ID the next added task gets. */
    var nextId: int
    /**
     * The sequence most recently handed to the persist step, None before the first one.
     * Whether that write succeeded is not modelled: every caller ignores its error.
     */
    var lastSaved: Option<seq<Task>>

    /** The store invariant: increasing IDs, all below the counter, stamps in step with states. */
    predicate Valid()
      reads this
    {
      IdsIncreasing(tasks) && IdsBelow(tasks, nextId) && AllStampsConsistent(tasks)
    }

    /** The state before loading: no tasks, counter 0, nothing persisted. */
    constructor ()
      ensures tasks == [] && nextId == 0 && lastSaved == None
      ensures Valid()
    {
      tasks := [];
      nextId := 0;
      lastSaved := None;
    }

    /**
     * Startup load. A missing file loads nothing; an open or decode failure is reported
     * (and stops the program); otherwise the decoded tasks replace the sequence and the
     * counter is set one past the last task's ID, or left alone when the decoded array is empty.
     */
    method Load(outcome: LoadOutcome) returns (ok: bool)
      modifies this
      ensures ok <==> outcome.FileMissing? || outcome.Decoded?
      ensures outcome.Decoded? ==> tasks == outcome.ts && nextId == RecoveredNextId(outcome.ts, old(nextId))
      ensures !outcome.Decoded? ==> tasks == old(tasks) && nextId == old(nextId)
      ensures lastSaved == old(lastSaved)
      ensures outcome.Decoded? && IdsIncreasing(outcome.ts) && AllStampsConsistent(outcome.ts) ==> Valid()
      ensures outcome.FileMissing? && old(Valid()) ==> Valid()
    {
      match outcome
      case FileMissing =>
        ok := true;
      case OpenError =>
        ok := false;
      case DecodeError =>
        ok := false;
      case Decoded(ts) =>
        tasks := ts;
        if |tasks| > 0 {
          nextId := tasks[|tasks| - 1].id + 1;
        }
        if IdsIncreasing(ts) {
          RecoveredNextIdAboveAll(ts, old(nextId));
        }
        ok := true;
    }

    /** Appends a new Pending task under the next ID, increments the counter and persists. */
    method AddTask(content: string, now: Time)
      modifies this
      ensures tasks == old(tasks) + [Task(old(nextId), content, Pending, now, None)]
      ensures nextId == old(nextId) + 1
      ensures lastSaved == Some(tasks)
      ensures old(Valid()) ==> Valid()
    {
      var task := NewTask(nextId, content, now);
      if Valid() {
        AppendKeepsIds(tasks, nextId, task);
      }
      tasks := tasks + [task];
      nextId := nextId + 1;
      lastSaved := Some(tasks);
    }

    /**
     * Splices out the first task with ID `id` and persists; reports whether one was found.
     * When none is, nothing changes and nothing is persisted.
     */
    method RemoveTask(id: int) returns (found: bool)
      modifies this
      ensures found <==> HasId(old(tasks), id)
      ensures tasks == Removed(old(tasks), id)
      ensures nextId == old(nextId)
      ensures lastSaved == if found then Some(tasks) else old(lastSaved)
      ensures old(Valid()) ==> Valid()
    {
      RemovedKeepsInvariants(tasks, id, nextId);
      var i := 0;
      while i < |tasks|
        invariant 0 <= i <= |tasks|
        invariant forall k :: 0 <= k < i ==> tasks[k].id != id
      {
        if tasks[i].id == id {
          tasks := tasks[..i] + tasks[i + 1..];
          lastSaved := Some(tasks);
          found := true;
          return;
        }
        i := i + 1;
      }
      found := false;
    }

    /**
     * Moves the first task with ID `id` to `target` (stamping it with `now` when it becomes
     * Completed, clearing the stamp when it becomes Pending, leaving it alone when it is
     * already there) and persists; reports whether the task was found. The persist step
     * runs even when the task was already in `target`.
     */
    method UpdateTaskState(id: int, target: State, now: Time) returns (found: bool)
      modifies this
      ensures found <==> HasId(old(tasks), id)
      ensures tasks == Updated(old(tasks), id, target, now)
      ensures nextId == old(nextId)
      ensures lastSaved == if found then Some(tasks) else old(lastSaved)
      ensures old(Valid()) ==> Valid()
    {
      UpdatedKeepsInvariants(tasks, id, target, now, nextId);
      var i := 0;
      while i < |tasks|
        invariant 0 <= i <= |tasks|
        invariant forall k :: 0 <= k < i ==> tasks[k].id != id
      {
        if tasks[i].id == id {
          var task := tasks[i];
          if target == Completed && task.state != Completed {
            tasks := tasks[i := task.(state := Completed, completedAt := Some(now))];
          } else if target == Pending && task.state != Pending {
            tasks := tasks[i := task.(state := Pending, completedAt := None)];
          }
          lastSaved := Some(tasks);
          found := true;
          return;
        }
        i := i + 1;
      }
      found := false;
    }

    /** The listing: the no-tasks message for an empty store, otherwise one row per task, in order. */
    method List() returns (view: Listing)
      ensures view == NoTasks <==> tasks == []
      ensures view.Table? ==> |view.rows| == |tasks|
      ensures view.Table? ==> forall k :: 0 <= k < |tasks| ==> view.rows[k] == RowOf(tasks[k])
    {
      if |tasks| == 0 {
        return NoTasks;
      }
      var rows := [];
      for i := 0 to |tasks|
        invariant |rows| == i
        invariant forall k :: 0 <= k < i ==> rows[k] == RowOf(tasks[k])
      {
        var task := tasks[i];
        var completed := NotApplicable;
        if task.completedAt.Some? {
          completed := Stamp(task.completedAt.value);
        }
        rows := rows + [Row(task.id, task.content, task.state, task.createdAt, completed)];
      }
      view := Table(rows);
    }
  }
}

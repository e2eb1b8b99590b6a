/** The Task record of the command-line task list and its one state change. */
module Tasks {

  datatype Option<T> = None | Some(value: T)

  /** A reading of the wall clock; the model treats it as an abstract number. */
  type Time = int

  /** The two lifecycle states a task can be in. */
  datatype State = Pending | Completed

  /** One to-do item. `completedAt` stands for the nullable completion timestamp. */
  datatype Task = Task(id: int, content: string, state: State, createdAt: Time, completedAt: Option<Time>)

  /** The record invariant: the completion stamp is present exactly when the task is Completed. */
  predicate StampConsistent(t: Task) {
    t.completedAt.Some? <==> t.state == Completed
  }

  /** The entry that addTask appends: a Pending task created at `now` with no completion stamp. */
  function NewTask(id: int, content: string, now: Time): (t: Task)
    ensures StampConsistent(t)
  {
    Task(id, content, Pending, now, None)
  }

  /**
   * What updateTaskState does to the matched entry when asked to move it to `target`
   * at clock reading `now`: moving to Completed stamps it with `now`, moving to Pending
   * clears the stamp, and asking for the state it already has leaves it alone.
   */
  function Transition(t: Task, target: State, now: Time): (r: Task)
    ensures r.id == t.id && r.content == t.content && r.createdAt == t.createdAt
    ensures r.state == target
    ensures t.state == target ==> r == t
    ensures t.state != target && target == Completed ==> r.completedAt == Some(now)
    ensures t.state != target && target == Pending ==> r.completedAt == None
    ensures StampConsistent(t) ==> StampConsistent(r)
  {
    if target == Completed && t.state != Completed then
      t.(state := Completed, completedAt := Some(now))
    else if target == Pending && t.state != Pending then
      t.(state := Pending, completedAt := None)
    else
      assert t.state == target by { assert target.Pending? || target.Completed?; }
      t
  }
}

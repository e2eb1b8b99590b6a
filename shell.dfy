/**
 * The parts of the interactive menu loop that decide whether the store is touched:
 * the ID parse result and the normalisation of the state token.
 */
module Shell {
  import opened Tasks
  import opened TaskList
  import opened Store

  /** The name a state is stored and shown under. */
  function StateName(s: State): (name: string)
    ensures ParseState(name) == Some(s)
    ensures |name| > 1
  {
    match s
    case Pending => "Pending"
    case Completed => "Completed"
  }

  /**
   * The state a user-typed token selects: the single letter in either case or the
   * full, capitalised name. Nothing else is accepted, so the match is case-sensitive
   * for full names ("pending" and "COMPLETED" are rejected).
   */
  function ParseState(token: string): (r: Option<State>)
    ensures r == Some(Pending) <==> token in {"P", "p", "Pending"}
    ensures r == Some(Completed) <==> token in {"C", "c", "Completed"}
    ensures r.Some? && |token| > 1 ==> token == (if r.value == Pending then "Pending" else "Completed")
  {
    if token == "P" || token == "p" || token == "Pending" then Some(Pending)
    else if token == "C" || token == "c" || token == "Completed" then Some(Completed)
    else None
  }

  /** The store's tasks, counter and persisted snapshot are as they were on entry. */
  twostate predicate StoreUnchanged(store: TaskStore)
    reads store
  {
    store.tasks == old(store.tasks) && store.nextId == old(store.nextId) && store.lastSaved == old(store.lastSaved)
  }

  /** How a remove or update request from the menu ended, as the message printed for it. */
  datatype Outcome =
    | InvalidId      // "Invalid ID."
    | InvalidState   // "Invalid state. ..."
    | NotFound       // "Task not found."
    | Done           // "Removed task: ..." / "Task ... marked as ..."

  /**
   * Menu choice 3. `parsedId` is the result of parsing the typed ID (None when parsing
   * failed); a failed parse leaves the store alone.
   */
  method RemoveCommand(store: TaskStore, parsedId: Option<int>) returns (outcome: Outcome)
    modifies store
    ensures parsedId.None? ==> outcome == InvalidId && StoreUnchanged(store)
    ensures parsedId.Some? ==> (outcome == Done <==> HasId(old(store.tasks), parsedId.value))
    ensures parsedId.Some? ==> outcome != InvalidId && outcome != InvalidState
    ensures parsedId.Some? ==> store.tasks == Removed(old(store.tasks), parsedId.value)
    ensures store.nextId == old(store.nextId)
    ensures outcome == Done ==> store.lastSaved == Some(store.tasks)
    ensures outcome != Done ==> StoreUnchanged(store)
    ensures old(store.Valid()) ==> store.Valid()
  {
    if parsedId.None? {
      return InvalidId;
    }
    var found := store.RemoveTask(parsedId.value);
    outcome := if found then Done else NotFound;
  }

  /**
   * Menu choice 4. The ID is parsed first; after a failed parse the state token is not
   * even read. An unrecognised token leaves the store alone.
   */
  method UpdateCommand(store: TaskStore, parsedId: Option<int>, token: string, now: Time)
    returns (outcome: Outcome)
    modifies store
    ensures parsedId.None? ==> outcome == InvalidId && StoreUnchanged(store)
    ensures parsedId.Some? && ParseState(token).None? ==> outcome == InvalidState && StoreUnchanged(store)
    ensures parsedId.Some? && ParseState(token).Some? ==>
      (outcome == Done <==> HasId(old(store.tasks), parsedId.value)) &&
      outcome != InvalidId && outcome != InvalidState &&
      store.tasks == Updated(old(store.tasks), parsedId.value, ParseState(token).value, now)
    ensures store.nextId == old(store.nextId)
    ensures outcome == Done ==> store.lastSaved == Some(store.tasks)
    ensures outcome != Done ==> StoreUnchanged(store)
    ensures old(store.Valid()) ==> store.Valid()
  {
    if parsedId.None? {
      return InvalidId;
    }
    match ParseState(token)
    case None =>
      outcome := InvalidState;
    case Some(target) =>
      var found := store.UpdateTaskState(parsedId.value, target, now);
      outcome := if found then Done else NotFound;
  }
}

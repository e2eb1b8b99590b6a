/**
 * The ordered task sequence as a value: the invariants the store keeps, and what
 * each store operation does to the sequence, stated as functions. The store's
 * methods are proved against these functions.
 */
module TaskList {
  import opened Tasks

  /** Each task's ID is larger than the one before it. */
  predicate IdsIncreasing(ts: seq<Task>) {
    forall i :: 0 < i < |ts| ==> ts[i - 1].id < ts[i].id
  }

  /** No two entries share an ID. */
  predicate IdsUnique(ts: seq<Task>) {
    forall i, j :: 0 <= i < |ts| && 0 <= j < |ts| && ts[i].id == ts[j].id ==> i == j
  }

  /** Every ID is below `bound` (the store keeps this with `bound` being the next ID to issue). */
  predicate IdsBelow(ts: seq<Task>, bound: int) {
    forall i :: 0 <= i < |ts| ==> ts[i].id < bound
  }

  /** Every entry has a completion stamp exactly when it is Completed. */
  predicate AllStampsConsistent(ts: seq<Task>) {
    forall i :: 0 <= i < |ts| ==> StampConsistent(ts[i])
  }

  predicate HasId(ts: seq<Task>, id: int) {
    exists i :: 0 <= i < |ts| && ts[i].id == id
  }

  /** The position of the first entry with ID `id`, as the store's linear scans find it. */
  function IndexOf(ts: seq<Task>, id: int): (r: Option<nat>)
    ensures r.None? <==> !HasId(ts, id)
    ensures r.Some? ==> r.value < |ts| && ts[r.value].id == id
    ensures r.Some? ==> forall k :: 0 <= k < r.value ==> ts[k].id != id
  {
    if |ts| == 0 then None
    else if ts[0].id == id then Some(0)
    else
      assert forall k :: 1 <= k < |ts| ==> ts[k] == ts[1..][k - 1];
      match IndexOf(ts[1..], id)
      case None => None
      case Some(j) => Some(j + 1)
  }

  /** The sequence after removeTask(id): the first entry with that ID is spliced out. */
  function Removed(ts: seq<Task>, id: int): (r: seq<Task>)
    ensures !HasId(ts, id) ==> r == ts
    ensures HasId(ts, id) ==> |r| == |ts| - 1
  {
    match IndexOf(ts, id)
    case None => ts
    case Some(i) => ts[..i] + ts[i + 1..]
  }

  /** The sequence after updateTaskState(id, target) at clock reading `now`. */
  function Updated(ts: seq<Task>, id: int, target: State, now: Time): (r: seq<Task>)
    ensures |r| == |ts|
    ensures forall k :: 0 <= k < |ts| ==>
      r[k].id == ts[k].id && r[k].content == ts[k].content && r[k].createdAt == ts[k].createdAt
    ensures forall k :: 0 <= k < |ts| && r[k] != ts[k] ==> IndexOf(ts, id) == Some(k)
    ensures !HasId(ts, id) ==> r == ts
    ensures HasId(ts, id) ==> r[IndexOf(ts, id).value] == Transition(ts[IndexOf(ts, id).value], target, now)
  {
    match IndexOf(ts, id)
    case None => ts
    case Some(i) => ts[i := Transition(ts[i], target, now)]
  }

  /** The value loadTasks gives the next-ID counter: one past the last stored ID, or `initial` when nothing is stored. */
  function RecoveredNextId(ts: seq<Task>, initial: int): (r: int)
    ensures |ts| == 0 ==> r == initial
    ensures |ts| > 0 ==> HasId(ts, r - 1)
  {
    if |ts| > 0 then ts[|ts| - 1].id + 1 else initial
  }

  /** Reference definition of removal: keep, in order, exactly the entries whose ID is not `id`. */
  function WithoutId(ts: seq<Task>, id: int): seq<Task> {
    if |ts| == 0 then []
    else (if ts[0].id == id then [] else [ts[0]]) + WithoutId(ts[1..], id)
  }

  // ---------------------------------------------------------------------------
  // IDs

  /** Adjacent increase gives increase between any two positions. */
  lemma {:induction false} IncreasingOrdered(ts: seq<Task>, i: int, j: int)
    requires IdsIncreasing(ts)
    requires 0 <= i < j < |ts|
    ensures ts[i].id < ts[j].id
    decreases j - i
  {
    if i + 1 < j {
      IncreasingOrdered(ts, i + 1, j);
    }
  }

  /** Increasing IDs are unique IDs. */
  lemma IncreasingUnique(ts: seq<Task>)
    requires IdsIncreasing(ts)
    ensures IdsUnique(ts)
  {
    forall i, j | 0 <= i < |ts| && 0 <= j < |ts| && ts[i].id == ts[j].id
      ensures i == j
    {
      if i < j { IncreasingOrdered(ts, i, j); }
      if j < i { IncreasingOrdered(ts, j, i); }
    }
  }

  /** Appending a task under the next ID keeps the IDs increasing and below the incremented counter. */
  lemma AppendKeepsIds(ts: seq<Task>, next: int, t: Task)
    requires IdsIncreasing(ts) && IdsBelow(ts, next)
    requires t.id == next
    ensures IdsIncreasing(ts + [t]) && IdsBelow(ts + [t], next + 1)
  {
  }

  /** The recovered counter is above every stored ID when the stored IDs are increasing. */
  lemma RecoveredNextIdAboveAll(ts: seq<Task>, initial: int)
    requires IdsIncreasing(ts)
    ensures IdsBelow(ts, RecoveredNextId(ts, initial))
  {
    forall i | 0 <= i < |ts| ensures ts[i].id < RecoveredNextId(ts, initial) {
      if i < |ts| - 1 { IncreasingOrdered(ts, i, |ts| - 1); }
    }
  }

  /**
   * The counter is recovered from the stored tasks only, so after the most recently
   * added task is removed and the list is reloaded, the recovered counter is at most
   * that task's ID: the ID is issued again by a later add.
   */
  lemma ReloadReissuesRemovedLastId(ts: seq<Task>, initial: int)
    requires |ts| >= 2 && IdsIncreasing(ts)
    ensures RecoveredNextId(Removed(ts, ts[|ts| - 1].id), initial) == ts[|ts| - 2].id + 1 <= ts[|ts| - 1].id
  {
    IncreasingUnique(ts);
    assert IndexOf(ts, ts[|ts| - 1].id) == Some(|ts| - 1);
  }

  // ---------------------------------------------------------------------------
  // Removal

  lemma {:induction false} WithoutAbsentId(ts: seq<Task>, id: int)
    requires !HasId(ts, id)
    ensures WithoutId(ts, id) == ts
  {
    if |ts| > 0 {
      assert forall k :: 0 <= k < |ts| - 1 ==> ts[1..][k] == ts[k + 1];
      WithoutAbsentId(ts[1..], id);
    }
  }

  lemma RemovedCons(ts: seq<Task>, id: int)
    requires |ts| > 0 && ts[0].id != id
    ensures Removed(ts, id) == [ts[0]] + Removed(ts[1..], id)
  {
    assert forall k :: 1 <= k < |ts| ==> ts[k] == ts[1..][k - 1];
    match IndexOf(ts[1..], id)
    case None =>
    case Some(j) =>
      assert IndexOf(ts, id) == Some(j + 1);
      assert ts[..j + 1] == [ts[0]] + ts[1..][..j];
      assert ts[j + 2..] == ts[1..][j + 1..];
  }

  /**
   * With unique IDs, removal keeps every other task, in the original order, and drops
   * every task with the removed ID.
   */
  lemma {:induction false} RemovedIsFilter(ts: seq<Task>, id: int)
    requires IdsUnique(ts)
    ensures Removed(ts, id) == WithoutId(ts, id)
  {
    if |ts| == 0 {
    } else {
      var tail := ts[1..];
      assert forall k :: 0 <= k < |tail| ==> tail[k] == ts[k + 1];
      assert IdsUnique(tail) by {
        forall i, j | 0 <= i < |tail| && 0 <= j < |tail| && tail[i].id == tail[j].id
          ensures i == j
        {
          assert ts[i + 1].id == ts[j + 1].id;
        }
      }
      if ts[0].id == id {
        assert IndexOf(ts, id) == Some(0);
        assert !HasId(tail, id) by {
          forall k | 0 <= k < |tail| ensures tail[k].id != id {
            assert ts[k + 1].id != ts[0].id;
          }
        }
        WithoutAbsentId(tail, id);
      } else {
        RemovedCons(ts, id);
        RemovedIsFilter(tail, id);
      }
    }
  }

  /** Every entry of the filtered sequence comes from the original and does not carry the ID. */
  lemma {:induction false} WithoutIdMembers(ts: seq<Task>, id: int, t: Task)
    ensures t in WithoutId(ts, id) <==> t in ts && t.id != id
  {
    if |ts| > 0 {
      WithoutIdMembers(ts[1..], id, t);
      assert ts == [ts[0]] + ts[1..];
    }
  }

  /** After removal with unique IDs, the removed ID is gone and every other ID is still present. */
  lemma RemovedIds(ts: seq<Task>, id: int, other: int)
    requires IdsUnique(ts)
    ensures !HasId(Removed(ts, id), id)
    ensures other != id ==> (HasId(Removed(ts, id), other) <==> HasId(ts, other))
  {
    RemovedIsFilter(ts, id);
    var r := Removed(ts, id);
    if HasId(r, id) {
      var k :| 0 <= k < |r| && r[k].id == id;
      WithoutIdMembers(ts, id, r[k]);
      assert false;
    }
    if other != id {
      if HasId(r, other) {
        var k :| 0 <= k < |r| && r[k].id == other;
        WithoutIdMembers(ts, id, r[k]);
      }
      if HasId(ts, other) {
        var k :| 0 <= k < |ts| && ts[k].id == other;
        WithoutIdMembers(ts, id, ts[k]);
        var m :| 0 <= m < |r| && r[m] == ts[k];
      }
    }
  }

  /** Splicing out one entry keeps the store invariants. */
  lemma RemovedKeepsInvariants(ts: seq<Task>, id: int, next: int)
    ensures IdsIncreasing(ts) ==> IdsIncreasing(Removed(ts, id))
    ensures IdsBelow(ts, next) ==> IdsBelow(Removed(ts, id), next)
    ensures AllStampsConsistent(ts) ==> AllStampsConsistent(Removed(ts, id))
  {
    var found := IndexOf(ts, id);
    if found.Some? {
      var i := found.value;
      var r := ts[..i] + ts[i + 1..];
      assert Removed(ts, id) == r;
      if IdsIncreasing(ts) {
        SpliceIncreasing(ts, i);
      }
      forall k | 0 <= k < |r| ensures r[k] in ts {
        SpliceEntries(ts, i);
        if k >= i { assert r[k] == ts[k + 1]; }
      }
      if IdsBelow(ts, next) {
        forall k | 0 <= k < |r| ensures r[k].id < next {
          var m :| 0 <= m < |ts| && ts[m] == r[k];
        }
      }
      if AllStampsConsistent(ts) {
        forall k | 0 <= k < |r| ensures StampConsistent(r[k]) {
          var m :| 0 <= m < |ts| && ts[m] == r[k];
        }
      }
    }
  }

  lemma SpliceEntries(ts: seq<Task>, i: nat)
    requires i < |ts|
    ensures forall k :: 0 <= k < i ==> (ts[..i] + ts[i + 1..])[k] == ts[k]
    ensures forall k :: i < k < |ts| ==> (ts[..i] + ts[i + 1..])[k - 1] == ts[k]
  {
  }

  lemma SpliceIncreasing(ts: seq<Task>, i: nat)
    requires i < |ts| && IdsIncreasing(ts)
    ensures IdsIncreasing(ts[..i] + ts[i + 1..])
  {
    var r := ts[..i] + ts[i + 1..];
    SpliceEntries(ts, i);
    forall k | 0 < k < |r| ensures r[k - 1].id < r[k].id {
      if k == i {
        assert ts[i - 1].id < ts[i].id < ts[i + 1].id;
      }
    }
  }

  // ---------------------------------------------------------------------------
  // State updates

  /** Two sequences with the same IDs at the same positions find an ID at the same place. */
  lemma {:induction false} SameIdsSameIndex(ts: seq<Task>, us: seq<Task>, id: int)
    requires |ts| == |us|
    requires forall k :: 0 <= k < |ts| ==> ts[k].id == us[k].id
    ensures IndexOf(ts, id) == IndexOf(us, id)
  {
    if |ts| > 0 && ts[0].id != id {
      SameIdsSameIndex(ts[1..], us[1..], id);
    }
  }

  /** Updating twice to the same target is the same as updating once: the update is idempotent. */
  lemma UpdatedIdempotent(ts: seq<Task>, id: int, target: State, now1: Time, now2: Time)
    ensures Updated(Updated(ts, id, target, now1), id, target, now2) == Updated(ts, id, target, now1)
  {
    var once := Updated(ts, id, target, now1);
    SameIdsSameIndex(ts, once, id);
  }

  /** Asking for the state the task already has changes nothing, whatever the clock reads. */
  lemma UpdatedToCurrentState(ts: seq<Task>, id: int, i: nat, now: Time)
    requires i < |ts| && IndexOf(ts, id) == Some(i)
    ensures Updated(ts, id, ts[i].state, now) == ts
  {
  }

  /** A state update keeps the store invariants. */
  lemma UpdatedKeepsInvariants(ts: seq<Task>, id: int, target: State, now: Time, next: int)
    ensures IdsIncreasing(ts) ==> IdsIncreasing(Updated(ts, id, target, now))
    ensures IdsBelow(ts, next) ==> IdsBelow(Updated(ts, id, target, now), next)
    ensures AllStampsConsistent(ts) ==> AllStampsConsistent(Updated(ts, id, target, now))
  {
  }
}

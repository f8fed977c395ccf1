/**
 * The records the planner keeps: tasks and timeline entries, and the pure
 * list operations on tasks (`find` by id, flipping completion, `filter` by id).
 * Timestamps are integers (milliseconds since the epoch); the source keeps
 * them as ISO strings and compares them through `new Date(...)`.
 */
module Tasks {
  import opened Wrappers

  datatype Priority = Low | Medium | High

  /** One study task. `completedAt` is `null` in the source while the task is open. */
  datatype Task = Task(
    id: string,
    title: string,
    description: string,
    priority: Priority,
    subject: string,
    dueDate: int,
    reminderTime: int,
    completed: bool,
    createdAt: int,
    completedAt: Option<int>)

  /** The `type` of a timeline entry. */
  datatype EntryKind = Create | Complete | Delete

  datatype TimelineEntry = TimelineEntry(id: string, message: string, kind: EntryKind, timestamp: int)

  /** The record invariant: a completion time is present exactly when the task is completed. */
  predicate CompletionConsistent(t: Task) {
    t.completedAt.Some? <==> t.completed
  }

  predicate AllConsistent(ts: seq<Task>) {
    forall k | 0 <= k < |ts| :: CompletionConsistent(ts[k])
  }

  predicate HasId(ts: seq<Task>, id: string) {
    exists k | 0 <= k < |ts| :: ts[k].id == id
  }

  /** `tasks.find(t => t.id === id)`, as an index: the first task carrying `id`. */
  function FindIndex(ts: seq<Task>, id: string): (r: Option<nat>)
    ensures r.None? <==> !HasId(ts, id)
    ensures r.Some? ==> r.value < |ts| && ts[r.value].id == id
    ensures r.Some? ==> forall k | 0 <= k < r.value :: ts[k].id != id
  {
    if ts == [] then None
    else if ts[0].id == id then Some(0)
    else
      match FindIndex(ts[1..], id)
      case None =>
        assert forall k | 1 <= k < |ts| :: ts[k] == ts[1..][k - 1];
        None
      case Some(i) =>
        assert ts[i + 1] == ts[1..][i];
        assert forall k | 1 <= k < i + 1 :: ts[k] == ts[1..][k - 1];
        Some(i + 1)
  }

  /** The task after `toggleTask` flipped it at time `now`; nothing but the two completion fields changes. */
  function Toggled(t: Task, now: int): (r: Task)
    ensures r.completed != t.completed
    ensures CompletionConsistent(r)
    ensures r.completed ==> r.completedAt == Some(now)
    ensures r.(completed := t.completed, completedAt := t.completedAt) == t
  {
    var done := !t.completed;
    t.(completed := done, completedAt := if done then Some(now) else None)
  }

  /** Toggling twice gives back the original completion state, and reopening clears the completion time. */
  lemma ToggleTwice(t: Task, now1: int, now2: int)
    ensures Toggled(Toggled(t, now1), now2).completed == t.completed
    ensures !t.completed ==> Toggled(Toggled(t, now1), now2) == t.(completedAt := None)
    ensures CompletionConsistent(t) ==> Toggled(Toggled(t, now1), now2).completedAt.Some? == t.completedAt.Some?
  {
  }

  /** `tasks.filter(t => t.id !== id)`: no task carrying `id` survives. */
  function RemoveId(ts: seq<Task>, id: string): (r: seq<Task>)
    ensures forall k | 0 <= k < |r| :: r[k].id != id
    ensures |r| <= |ts|
  {
    if ts == [] then []
    else if ts[0].id == id then RemoveId(ts[1..], id)
    else
      var rest := RemoveId(ts[1..], id);
      assert forall k | 1 <= k < |rest| + 1 :: ([ts[0]] + rest)[k] == rest[k - 1];
      [ts[0]] + rest
  }

  /** When no task carries `id`, removal changes nothing. */
  lemma {:induction false} RemoveIdAbsent(ts: seq<Task>, id: string)
    requires !HasId(ts, id)
    ensures RemoveId(ts, id) == ts
  {
    if ts != [] {
      assert !HasId(ts[1..], id) by {
        forall k | 0 <= k < |ts| - 1 ensures ts[1..][k].id != id { assert ts[1..][k] == ts[k + 1]; }
      }
      RemoveIdAbsent(ts[1..], id);
      assert ts == [ts[0]] + ts[1..];
    }
  }

  /** When some task carries `id`, the list gets strictly shorter. */
  lemma {:induction false} RemoveIdPresent(ts: seq<Task>, id: string)
    requires HasId(ts, id)
    ensures |RemoveId(ts, id)| < |ts|
  {
    if ts[0].id != id {
      assert HasId(ts[1..], id) by {
        var k :| 0 <= k < |ts| && ts[k].id == id;
        assert ts[1..][k - 1] == ts[k];
      }
      RemoveIdPresent(ts[1..], id);
    }
  }

  /** Removal keeps the remaining tasks in their original order: it distributes over concatenation. */
  lemma {:induction false} RemoveIdConcat(a: seq<Task>, b: seq<Task>, id: string)
    ensures RemoveId(a + b, id) == RemoveId(a, id) + RemoveId(b, id)
  {
    if a == [] {
      assert a + b == b;
    } else {
      assert (a + b)[1..] == a[1..] + b;
      RemoveIdConcat(a[1..], b, id);
    }
  }

  /** Removal is exactly "keep every task whose id differs", counted with multiplicity. */
  lemma {:induction false} RemoveIdCount(ts: seq<Task>, id: string, t: Task)
    ensures multiset(RemoveId(ts, id))[t] == if t.id == id then 0 else multiset(ts)[t]
  {
    if ts != [] {
      RemoveIdCount(ts[1..], id, t);
      assert ts == [ts[0]] + ts[1..];
    }
  }

  /** Every element of a consistent list stays consistent after one of them is toggled. */
  lemma ToggleKeepsConsistent(ts: seq<Task>, i: nat, now: int)
    requires i < |ts| && AllConsistent(ts)
    ensures AllConsistent(ts[i := Toggled(ts[i], now)])
  {
  }

  /** The record invariant is about the tasks, not their order: any sub-multiset of a consistent list is consistent. */
  lemma ConsistentSubMultiset(a: seq<Task>, b: seq<Task>)
    requires AllConsistent(a) && multiset(b) <= multiset(a)
    ensures AllConsistent(b)
  {
    forall k | 0 <= k < |b| ensures CompletionConsistent(b[k]) {
      assert b[k] in multiset(b);
      var j :| 0 <= j < |a| && a[j] == b[k];
    }
  }

  /** Two lists with the same tasks, whatever their order, are consistent together or not at all. */
  lemma ConsistentByMultiset(a: seq<Task>, b: seq<Task>)
    requires multiset(a) == multiset(b)
    ensures AllConsistent(a) <==> AllConsistent(b)
  {
    if AllConsistent(a) { ConsistentSubMultiset(a, b); }
    if AllConsistent(b) { ConsistentSubMultiset(b, a); }
  }

  /** Appending a consistent task to a consistent list keeps the record invariant. */
  lemma AppendKeepsConsistent(ts: seq<Task>, t: Task)
    requires AllConsistent(ts) && CompletionConsistent(t)
    ensures AllConsistent(ts + [t])
  {
    var us := ts + [t];
    forall k | 0 <= k < |us| ensures CompletionConsistent(us[k]) {
      if k < |ts| { assert us[k] == ts[k]; }
    }
  }

  /** Removing the tasks with an id keeps the record invariant. */
  lemma RemoveIdKeepsConsistent(ts: seq<Task>, id: string)
    requires AllConsistent(ts)
    ensures AllConsistent(RemoveId(ts, id))
  {
    forall t ensures multiset(RemoveId(ts, id))[t] <= multiset(ts)[t] {
      RemoveIdCount(ts, id, t);
    }
    ConsistentSubMultiset(ts, RemoveId(ts, id));
  }
}

/**
 * The derived views of the task list used by `renderTasks` and `updateStats`:
 * the four filters, the stable sorts by a numeric key, and the counters.
 */
module Views {
  import opened Wrappers
  import opened Tasks

  /** The values of the filter selector; `all` leaves the list as it is. */
  datatype Filter = All | Pending | Completed | Overdue

  /**
   * The orders of the sort selector (`dueDate` ascending, `priority`
   * descending, `created` descending), and the newest-completion-first order
   * the streak computation sorts by.
   */
  datatype SortKey = ByDueDate | ByPriority | ByCreated | ByCompletedAt

  /** The filter selector's value; the `switch` has no default, so anything unnamed shows everything. */
  function FilterOf(value: string): (f: Filter)
    ensures f == All <==> value !in {"pending", "completed", "overdue"}
  {
    if value == "pending" then Pending
    else if value == "completed" then Completed
    else if value == "overdue" then Overdue
    else All
  }

  /** The sort selector's value; anything but `priority` and `created` falls to the due-date default. */
  function SortKeyOf(value: string): (k: SortKey)
    ensures k != ByCompletedAt
    ensures k == ByDueDate <==> value != "priority" && value != "created"
  {
    if value == "priority" then ByPriority
    else if value == "created" then ByCreated
    else ByDueDate
  }

  /** `{ high: 3, medium: 2, low: 1 }`. */
  function Rank(p: Priority): int {
    match p
    case High => 3
    case Medium => 2
    case Low => 1
  }

  /** The number each comparator subtracts, oriented so that the sort is ascending in it. */
  function Key(k: SortKey, t: Task): int {
    match k
    case ByDueDate => t.dueDate
    case ByPriority => -Rank(t.priority)
    case ByCreated => -t.createdAt
    case ByCompletedAt => -t.completedAt.GetOr(0)
  }

  predicate Matches(f: Filter, t: Task, now: int) {
    match f
    case All => true
    case Pending => !t.completed
    case Completed => t.completed
    case Overdue => !t.completed && t.dueDate < now
  }

  /** `tasks.filter(...)` for one filter value: the matching tasks, in their order. */
  function Select(ts: seq<Task>, f: Filter, now: int): (r: seq<Task>)
    ensures forall k | 0 <= k < |r| :: Matches(f, r[k], now)
  {
    if ts == [] then []
    else
      var rest := Select(ts[1..], f, now);
      if Matches(f, ts[0], now) then
        assert forall k | 1 <= k < |rest| + 1 :: ([ts[0]] + rest)[k] == rest[k - 1];
        [ts[0]] + rest
      else rest
  }

  /** A task is selected exactly as often as it occurs, when it matches, and never otherwise. */
  lemma {:induction false} SelectCount(ts: seq<Task>, f: Filter, now: int, t: Task)
    ensures multiset(Select(ts, f, now))[t] == if Matches(f, t, now) then multiset(ts)[t] else 0
  {
    if ts != [] {
      SelectCount(ts[1..], f, now, t);
      assert ts == [ts[0]] + ts[1..];
    }
  }

  lemma {:induction false} SelectAll(ts: seq<Task>, now: int)
    ensures Select(ts, All, now) == ts
  {
    if ts != [] {
      SelectAll(ts[1..], now);
      assert ts == [ts[0]] + ts[1..];
    }
  }

  /** The pending and completed filters split the list: together they hold every task exactly once. */
  lemma PendingCompletedPartition(ts: seq<Task>, now: int)
    ensures multiset(Select(ts, Pending, now)) + multiset(Select(ts, Completed, now)) == multiset(ts)
    ensures |Select(ts, Pending, now)| + |Select(ts, Completed, now)| == |ts|
  {
    var p, c := Select(ts, Pending, now), Select(ts, Completed, now);
    forall t ensures (multiset(p) + multiset(c))[t] == multiset(ts)[t] {
      SelectCount(ts, Pending, now, t);
      SelectCount(ts, Completed, now, t);
    }
    assert multiset(p) + multiset(c) == multiset(ts);
    assert |multiset(p) + multiset(c)| == |multiset(ts)|;
  }

  /** Every overdue task is pending: the overdue view is the pending view narrowed by due date. */
  lemma OverdueWithinPending(ts: seq<Task>, now: int)
    ensures multiset(Select(ts, Overdue, now)) <= multiset(Select(ts, Pending, now))
    ensures forall t | t in Select(ts, Pending, now) && t.dueDate < now :: t in Select(ts, Overdue, now)
  {
    forall t ensures multiset(Select(ts, Overdue, now))[t] <= multiset(Select(ts, Pending, now))[t] {
      SelectCount(ts, Overdue, now, t);
      SelectCount(ts, Pending, now, t);
    }
    forall t | t in Select(ts, Pending, now) && t.dueDate < now ensures t in Select(ts, Overdue, now) {
      SelectCount(ts, Overdue, now, t);
      SelectCount(ts, Pending, now, t);
    }
  }

  predicate Sorted(s: seq<Task>, k: SortKey) {
    forall i, j | 0 <= i < j < |s| :: Key(k, s[i]) <= Key(k, s[j])
  }

  /** Places `x` before the first element whose key is not smaller, so it precedes its equals. */
  function Insert(x: Task, s: seq<Task>, k: SortKey): seq<Task> {
    if s == [] then [x]
    else if Key(k, x) <= Key(k, s[0]) then [x] + s
    else [s[0]] + Insert(x, s[1..], k)
  }

  lemma {:induction false} InsertPerm(x: Task, s: seq<Task>, k: SortKey)
    ensures multiset(Insert(x, s, k)) == multiset(s) + multiset{x}
  {
    if s != [] && Key(k, x) > Key(k, s[0]) {
      InsertPerm(x, s[1..], k);
      assert s == [s[0]] + s[1..];
    }
  }

  lemma SortedTail(s: seq<Task>, k: SortKey)
    requires s != [] && Sorted(s, k)
    ensures Sorted(s[1..], k)
  {
    forall i, j | 0 <= i < j < |s| - 1 ensures Key(k, s[1..][i]) <= Key(k, s[1..][j]) {
      assert s[1..][i] == s[i + 1] && s[1..][j] == s[j + 1];
    }
  }

  predicate AllAtLeast(s: seq<Task>, k: SortKey, b: int) {
    forall i | 0 <= i < |s| :: b <= Key(k, s[i])
  }

  lemma {:induction false} InsertAtLeast(x: Task, s: seq<Task>, k: SortKey, b: int)
    requires b <= Key(k, x) && AllAtLeast(s, k, b)
    ensures AllAtLeast(Insert(x, s, k), k, b)
  {
    if s != [] && Key(k, x) > Key(k, s[0]) {
      assert AllAtLeast(s[1..], k, b) by {
        forall i | 0 <= i < |s| - 1 ensures b <= Key(k, s[1..][i]) { assert s[1..][i] == s[i + 1]; }
      }
      InsertAtLeast(x, s[1..], k, b);
      var r := [s[0]] + Insert(x, s[1..], k);
      forall i | 1 <= i < |r| ensures b <= Key(k, r[i]) { assert r[i] == Insert(x, s[1..], k)[i - 1]; }
    }
  }

  lemma {:induction false} InsertSorted(x: Task, s: seq<Task>, k: SortKey)
    requires Sorted(s, k)
    ensures Sorted(Insert(x, s, k), k)
  {
    if s != [] {
      if Key(k, x) <= Key(k, s[0]) {
        var r := [x] + s;
        forall i, j | 0 <= i < j < |r| ensures Key(k, r[i]) <= Key(k, r[j]) {
          if i > 0 { assert r[i] == s[i - 1] && r[j] == s[j - 1]; } else { assert r[j] == s[j - 1]; }
        }
      } else {
        var rest := Insert(x, s[1..], k);
        SortedTail(s, k);
        InsertSorted(x, s[1..], k);
        assert AllAtLeast(s[1..], k, Key(k, s[0])) by {
          forall i | 0 <= i < |s| - 1 ensures Key(k, s[0]) <= Key(k, s[1..][i]) { assert s[1..][i] == s[i + 1]; }
        }
        InsertAtLeast(x, s[1..], k, Key(k, s[0]));
        var r := [s[0]] + rest;
        forall i, j | 0 <= i < j < |r| ensures Key(k, r[i]) <= Key(k, r[j]) {
          assert r[j] == rest[j - 1];
          if i > 0 { assert r[i] == rest[i - 1]; }
        }
      }
    }
  }

  /**
   * `Array.prototype.sort` with a key-difference comparator: a stable sort.
   * The result is ordered by the key and holds the same tasks.
   */
  function SortBy(s: seq<Task>, k: SortKey): (r: seq<Task>)
    ensures Sorted(r, k)
    ensures multiset(r) == multiset(s)
    ensures |r| == |s|
  {
    if s == [] then []
    else
      assert s == [s[0]] + s[1..];
      var r := Insert(s[0], SortBy(s[1..], k), k);
      InsertSorted(s[0], SortBy(s[1..], k), k);
      InsertPerm(s[0], SortBy(s[1..], k), k);
      assert |multiset(r)| == |multiset(s)|;
      r
  }

  /** The tasks of `s` whose key equals `v`, in their order. */
  function WithKey(s: seq<Task>, k: SortKey, v: int): seq<Task> {
    if s == [] then []
    else (if Key(k, s[0]) == v then [s[0]] else []) + WithKey(s[1..], k, v)
  }

  lemma {:induction false} InsertStable(x: Task, s: seq<Task>, k: SortKey, v: int)
    ensures WithKey(Insert(x, s, k), k, v) == (if Key(k, x) == v then [x] else []) + WithKey(s, k, v)
  {
    if s != [] {
      if Key(k, x) <= Key(k, s[0]) {
        assert ([x] + s)[1..] == s;
      } else {
        var here := if Key(k, x) == v then [x] else [];
        var first := if Key(k, s[0]) == v then [s[0]] else [];
        var rest := Insert(x, s[1..], k);
        assert ([s[0]] + rest)[1..] == rest;
        InsertStable(x, s[1..], k, v);
        calc {
          WithKey(Insert(x, s, k), k, v);
          WithKey([s[0]] + rest, k, v);
          first + WithKey(rest, k, v);
          first + (here + WithKey(s[1..], k, v));
          { assert first == [] || here == []; }
          here + (first + WithKey(s[1..], k, v));
          here + WithKey(s, k, v);
        }
      }
    }
  }

  /** The sort is stable: tasks with equal keys keep their relative order. */
  lemma {:induction false} SortStable(s: seq<Task>, k: SortKey, v: int)
    ensures WithKey(SortBy(s, k), k, v) == WithKey(s, k, v)
  {
    if s != [] {
      SortStable(s[1..], k, v);
      InsertStable(s[0], SortBy(s[1..], k), k, v);
    }
  }

  /**
   * What `renderTasks` shows: exactly the tasks the filter selects, each as
   * often as it occurs, sorted by the chosen key.
   */
  function View(ts: seq<Task>, f: Filter, k: SortKey, now: int): (r: seq<Task>)
    ensures Sorted(r, k)
    ensures forall i | 0 <= i < |r| :: Matches(f, r[i], now)
    ensures multiset(r) == multiset(Select(ts, f, now))
    ensures f == All ==> multiset(r) == multiset(ts)
    ensures forall v :: WithKey(r, k, v) == WithKey(Select(ts, f, now), k, v)
  {
    assert forall v :: WithKey(SortBy(Select(ts, f, now), k), k, v) == WithKey(Select(ts, f, now), k, v) by {
      forall v ensures WithKey(SortBy(Select(ts, f, now), k), k, v) == WithKey(Select(ts, f, now), k, v) {
        SortStable(Select(ts, f, now), k, v);
      }
    }
    if f == All then SelectAll(ts, now); SortBy(ts, k)
    else
      var r := SortBy(Select(ts, f, now), k);
      assert forall i | 0 <= i < |r| :: r[i] in multiset(Select(ts, f, now));
      r
  }

  /** The counters of `updateStats`; `percent` is `Math.round(completed / total * 100)`, 0 without tasks. */
  datatype Stats = Stats(total: nat, completed: nat, pending: int, percent: int)

  function CountCompleted(ts: seq<Task>): (r: nat)
    ensures r <= |ts|
  {
    if ts == [] then 0 else (if ts[0].completed then 1 else 0) + CountCompleted(ts[1..])
  }

  function ComputeStats(ts: seq<Task>): (r: Stats)
    ensures r.total == |ts| && r.completed <= r.total && r.pending == r.total - r.completed
    ensures 0 <= r.percent <= 100
    ensures ts == [] ==> r.percent == 0
    ensures ts != [] && r.completed == r.total ==> r.percent == 100
    ensures r.completed == 0 ==> r.percent == 0
    ensures r.total > 0 ==> 2 * r.total * r.percent <= 200 * r.completed + r.total < 2 * r.total * (r.percent + 1)
  {
    var total := |ts|;
    var done := CountCompleted(ts);
    Stats(total, done, total - done, if total > 0 then RoundedPercent(done, total) else 0)
  }

  lemma {:induction false} CountCompletedIsSelect(ts: seq<Task>, now: int)
    ensures CountCompleted(ts) == |Select(ts, Completed, now)|
  {
    if ts != [] { CountCompletedIsSelect(ts[1..], now); }
  }

  /**
   * The counters agree with the filters: `completed` counts the completed
   * view, `pending` the pending view, and the percentage is the nearest
   * integer to 100 * completed / total, rounding halves up.
   */
  lemma StatsAgreeWithViews(ts: seq<Task>, now: int)
    ensures ComputeStats(ts).completed == |Select(ts, Completed, now)|
    ensures ComputeStats(ts).pending == |Select(ts, Pending, now)|
    ensures ComputeStats(ts).completed + ComputeStats(ts).pending == ComputeStats(ts).total == |ts|
  {
    CountCompletedIsSelect(ts, now);
    PendingCompletedPartition(ts, now);
  }

  /**
   * `Math.round(completed / total * 100)` in integers, `(200 c + t) / (2 t)`:
   * the nearest integer to `100 c / t`, halves rounded up, within 0..100.
   */
  function RoundedPercent(c: nat, t: nat): (p: int)
    requires 0 < t && c <= t
    ensures 0 <= p <= 100
    ensures 2 * t * p <= 200 * c + t < 2 * t * (p + 1)
    ensures c == t ==> p == 100
    ensures c == 0 ==> p == 0
  {
    var a, b := 200 * c + t, 2 * t;
    var p := a / b;
    assert b * p + a % b == a;
    assert 0 <= a % b < b;
    assert b * (p + 1) == b * p + b;
    assert p <= 100 by {
      if p > 100 { MulLe(b, 101, p); }
    }
    assert c == t ==> p == 100 by {
      if c == t { DivUnique(a, b, 100, t); }
    }
    assert c == 0 ==> p == 0 by {
      if c == 0 { DivUnique(a, b, 0, t); }
    }
    p
  }

  /** Division is determined by any quotient and remainder that fit. */
  lemma DivUnique(a: int, b: int, q: int, rem: int)
    requires 0 <= rem < b && a == b * q + rem
    ensures a / b == q
  {
    var q' := a / b;
    assert a == b * q' + a % b;
    if q' < q { MulLe(b, q' + 1, q); }
    if q' > q { MulLe(b, q + 1, q'); }
  }

  lemma MulLe(m: nat, a: int, b: int)
    requires a <= b
    ensures m * a <= m * b
  {
    assert m * b - m * a == m * (b - a);
  }
}

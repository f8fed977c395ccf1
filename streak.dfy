/**
 * The study streak of `calculateStudyStreak`. Completion times are reduced
 * to day numbers (milliseconds divided by the length of a day); the scan runs
 * over the completed tasks sorted newest first.
 */
module Streak {
  import opened Wrappers
  import opened Tasks
  import opened Views
  import Format

  /** The day a timestamp falls on (midnight-truncated date). */
  function Day(ts: int): int {
    ts / Format.MsPerDay
  }

  lemma DayMonotone(a: int, b: int)
    requires a <= b
    ensures Day(a) <= Day(b)
  {
    var m := Format.MsPerDay;
    var qa, qb := a / m, b / m;
    assert m * qa + a % m == a;
    assert m * qb + b % m == b;
    if qa > qb {
      assert false;
    }
  }

  /** `tasks.filter(t => t.completed && t.completedAt)`. */
  function WithCompletion(ts: seq<Task>): (r: seq<Task>)
    ensures |r| <= |ts|
    ensures forall k | 0 <= k < |r| :: r[k].completed && r[k].completedAt.Some?
  {
    if ts == [] then []
    else
      var rest := WithCompletion(ts[1..]);
      if ts[0].completed && ts[0].completedAt.Some? then
        assert forall k | 1 <= k < |rest| + 1 :: ([ts[0]] + rest)[k] == rest[k - 1];
        [ts[0]] + rest
      else rest
  }

  /** The completed tasks, newest completion first, as the scan visits them. */
  function NewestFirst(ts: seq<Task>): seq<Task> {
    SortBy(WithCompletion(ts), ByCompletedAt)
  }

  /** The completion day of each task in turn. */
  function Days(s: seq<Task>): (r: seq<int>)
    ensures |r| == |s|
    ensures forall k | 0 <= k < |s| :: r[k] == Day(s[k].completedAt.GetOr(0))
  {
    if s == [] then [] else [Day(s[0].completedAt.GetOr(0))] + Days(s[1..])
  }

  predicate NonIncreasing(d: seq<int>) {
    forall i, j | 0 <= i < j < |d| :: d[j] <= d[i]
  }

  /** Sorting newest completion first puts the completion days in non-increasing order. */
  lemma NewestFirstDaysNonIncreasing(ts: seq<Task>)
    ensures NonIncreasing(Days(NewestFirst(ts)))
  {
    var s := NewestFirst(ts);
    var d := Days(s);
    forall i, j | 0 <= i < j < |d| ensures d[j] <= d[i] {
      assert Key(ByCompletedAt, s[i]) <= Key(ByCompletedAt, s[j]);
      DayMonotone(s[j].completedAt.GetOr(0), s[i].completedAt.GetOr(0));
    }
  }

  /**
   * The loop of `calculateStudyStreak` as written, from a state with day
   * cursor `cursor` and count `streak`. A completion `cursor - day` days back
   * increments the count when that difference equals the count and moves the
   * cursor one day back; a larger difference ends the scan; a smaller one is
   * skipped. Each completion visited adds at most one to the count.
   */
  function AsWritten(days: seq<int>, cursor: int, streak: nat): (r: nat)
    ensures streak <= r <= streak + |days|
    decreases |days|
  {
    if days == [] then streak
    else
      var diff := cursor - days[0];
      if diff == streak then AsWritten(days[1..], cursor - 1, streak + 1)
      else if diff > streak then streak
      else AsWritten(days[1..], cursor, streak)
  }

  /** The streak shown for the task list on day `today`: at most one per completed task. */
  function StudyStreak(ts: seq<Task>, today: int): (r: nat)
    ensures r <= |WithCompletion(ts)|
  {
    AsWritten(Days(NewestFirst(ts)), today, 0)
  }

  /** No completion, or a newest completion before today, gives a streak of 0. */
  lemma StreakZero(days: seq<int>, today: int)
    requires days == [] || days[0] < today
    ensures AsWritten(days, today, 0) == 0
  {
  }

  /** The day the j-th counted completion must fall on, for a scan in state (`cursor`, `streak`). */
  function MatchDay(cursor: int, streak: int, j: int): int {
    cursor + streak - 2 * j
  }

  /**
   * Because the cursor has already moved back one day per match, the j-th
   * counted completion (from 0) lies on day `cursor + streak - 2 j` of the
   * starting state: on `today`, `today - 2`, `today - 4`, ... for the whole scan.
   */
  lemma {:induction false} AsWrittenEveryOtherDay(days: seq<int>, cursor: int, streak: nat)
    ensures forall j | streak <= j < AsWritten(days, cursor, streak) :: MatchDay(cursor, streak, j) in days
    decreases |days|
  {
    if days != [] {
      var diff := cursor - days[0];
      var r := AsWritten(days, cursor, streak);
      if diff == streak {
        AsWrittenEveryOtherDay(days[1..], cursor - 1, streak + 1);
        forall j | streak <= j < r ensures MatchDay(cursor, streak, j) in days {
          if j == streak {
            assert MatchDay(cursor, streak, j) == days[0];
          } else {
            assert MatchDay(cursor, streak, j) == MatchDay(cursor - 1, streak + 1, j);
            assert MatchDay(cursor - 1, streak + 1, j) in days[1..];
          }
        }
      } else if diff < streak {
        AsWrittenEveryOtherDay(days[1..], cursor, streak);
        forall j | streak <= j < r ensures MatchDay(cursor, streak, j) in days {
          assert MatchDay(cursor, streak, j) in days[1..];
        }
      }
    }
  }

  lemma StudyStreakEveryOtherDay(ts: seq<Task>, today: int)
    ensures StudyStreak(ts, today) <= |WithCompletion(ts)|
    ensures forall j | 0 <= j < StudyStreak(ts, today) :: MatchDay(today, 0, j) in Days(NewestFirst(ts))
  {
    var s := NewestFirst(ts);
    var d := Days(s);
    assert |d| == |WithCompletion(ts)|;
    AsWrittenEveryOtherDay(d, today, 0);
  }

  /** Dropping the first day keeps a non-increasing sequence non-increasing. */
  lemma NonIncreasingTail(days: seq<int>)
    requires NonIncreasing(days) && days != []
    ensures NonIncreasing(days[1..])
  {
    forall i, j | 0 <= i < j < |days| - 1 ensures days[1..][j] <= days[1..][i] {
      assert days[1..][i] == days[i + 1] && days[1..][j] == days[j + 1];
    }
  }

  /**
   * The scan as written stops at the first day of the every-other-day series
   * with no completion: over non-increasing days, no completion lies on the
   * day the next match would have needed.
   */
  lemma {:induction false} AsWrittenStops(days: seq<int>, cursor: int, streak: nat)
    requires NonIncreasing(days)
    ensures forall i | 0 <= i < |days| :: days[i] != MatchDay(cursor, streak, AsWritten(days, cursor, streak))
    decreases |days|
  {
    if days != [] {
      var diff := cursor - days[0];
      var r := AsWritten(days, cursor, streak);
      NonIncreasingTail(days);
      if diff == streak {
        AsWrittenStops(days[1..], cursor - 1, streak + 1);
        assert MatchDay(cursor - 1, streak + 1, r) == MatchDay(cursor, streak, r);
        forall i | 0 <= i < |days| ensures days[i] != MatchDay(cursor, streak, r) {
          if i > 0 { assert days[i] == days[1..][i - 1]; }
        }
      } else if diff > streak {
        forall i | 0 <= i < |days| ensures days[i] != MatchDay(cursor, streak, r) {
          assert days[i] <= days[0];
        }
      } else {
        AsWrittenStops(days[1..], cursor, streak);
        forall i | 0 <= i < |days| ensures days[i] != MatchDay(cursor, streak, r) {
          if i > 0 { assert days[i] == days[1..][i - 1]; }
        }
      }
    }
  }

  /**
   * The streak shown is `k` exactly when today, today - 2, ..., today - 2 (k - 1)
   * each have a completion and today - 2 k has none.
   */
  lemma StudyStreakStops(ts: seq<Task>, today: int)
    ensures forall i | 0 <= i < |WithCompletion(ts)| ::
      Days(NewestFirst(ts))[i] != today - 2 * StudyStreak(ts, today)
  {
    var d := Days(NewestFirst(ts));
    NewestFirstDaysNonIncreasing(ts);
    AsWrittenStops(d, today, 0);
    assert MatchDay(today, 0, StudyStreak(ts, today)) == today - 2 * StudyStreak(ts, today);
  }

  /** Completions on today and yesterday: the scan as written counts 1, the consecutive-day count is 2. */
  lemma TwoConsecutiveDays(today: int)
    ensures AsWritten([today, today - 1], today, 0) == 1
    ensures Consecutive([today, today - 1], today, 0) == 2
  {
    var two := [today, today - 1];
    assert two[1..] == [today - 1] && [today - 1][1..] == [];
    calc {
      AsWritten(two, today, 0);
      AsWritten([today - 1], today - 1, 1);
      AsWritten([], today - 1, 1);
      1;
    }
    calc {
      Consecutive(two, today, 0);
      Consecutive([today - 1], today, 1);
      Consecutive([], today, 2);
      2;
    }
  }

  /**
   * The scan with the comparison the streak is meant to make: the difference
   * is measured from `today`, which stays fixed.
   */
  function Consecutive(days: seq<int>, today: int, streak: nat): nat
    decreases |days|
  {
    if days == [] then streak
    else
      var diff := today - days[0];
      if diff == streak then Consecutive(days[1..], today, streak + 1)
      else if diff > streak then streak
      else Consecutive(days[1..], today, streak)
  }

  /**
   * Over non-increasing completion days, the corrected scan returns the number
   * of consecutive days ending at `today - streak` that each have a completion:
   * every day before the result has one and the day at the result has none.
   */
  lemma {:induction false} ConsecutiveCounts(days: seq<int>, today: int, streak: nat)
    requires NonIncreasing(days)
    ensures streak <= Consecutive(days, today, streak)
    ensures forall d | today - Consecutive(days, today, streak) < d <= today - streak :: d in days
    ensures forall i | 0 <= i < |days| :: days[i] != today - Consecutive(days, today, streak)
    decreases |days|
  {
    if days != [] {
      var diff := today - days[0];
      var r := Consecutive(days, today, streak);
      NonIncreasingTail(days);
      assert days == [days[0]] + days[1..];
      if diff == streak {
        ConsecutiveCounts(days[1..], today, streak + 1);
      } else if diff > streak {
        forall i | 0 <= i < |days| ensures days[i] != today - r { assert days[i] <= days[0]; }
      } else {
        ConsecutiveCounts(days[1..], today, streak);
      }
    }
  }

  /** The corrected streak over a task list, using the same newest-first order. */
  function CorrectedStreak(ts: seq<Task>, today: int): nat {
    Consecutive(Days(NewestFirst(ts)), today, 0)
  }

  /** The corrected streak is the length of the run of days, ending today, each with a completion. */
  lemma CorrectedStreakIsRun(ts: seq<Task>, today: int)
    ensures forall d | today - CorrectedStreak(ts, today) < d <= today :: d in Days(NewestFirst(ts))
    ensures forall i | 0 <= i < |WithCompletion(ts)| :: Days(NewestFirst(ts))[i] != today - CorrectedStreak(ts, today)
  {
    var days := Days(NewestFirst(ts));
    var r := Consecutive(days, today, 0);
    NewestFirstDaysNonIncreasing(ts);
    ConsecutiveCounts(days, today, 0);
    assert CorrectedStreak(ts, today) == r;
  }
}

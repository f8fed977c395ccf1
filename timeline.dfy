/**
 * The activity log: `addToTimeline` puts the newest entry first and keeps
 * at most twenty entries (`unshift` followed by `slice(0, 20)`).
 */
module Timeline {
  import opened Tasks

  const MaxEntries: nat := 20

  function Min(a: nat, b: nat): nat { if a <= b then a else b }

  /** The log after `addToTimeline(e)`: `e` in front, then the old entries in order, cut to twenty. */
  function Prepend(log: seq<TimelineEntry>, e: TimelineEntry): (r: seq<TimelineEntry>)
    ensures |r| == Min(|log| + 1, MaxEntries) && |r| <= MaxEntries
    ensures r[0] == e
    ensures forall k | 1 <= k < |r| :: r[k] == log[k - 1]
  {
    ([e] + log)[..Min(|log| + 1, MaxEntries)]
  }

  /** The log after a series of appends, oldest append first. */
  function PrependAll(log: seq<TimelineEntry>, es: seq<TimelineEntry>): seq<TimelineEntry>
    decreases |es|
  {
    if es == [] then log else PrependAll(Prepend(log, es[0]), es[1..])
  }

  function Reverse<T>(s: seq<T>): (r: seq<T>)
    ensures |r| == |s|
    ensures forall k | 0 <= k < |s| :: r[k] == s[|s| - 1 - k]
  {
    if s == [] then [] else Reverse(s[1..]) + [s[0]]
  }

  /**
   * After any number of appends the log holds the newest entries, most recent
   * first, followed by what it held before, cut to twenty.
   */
  lemma {:induction false} PrependAllKeepsNewest(log: seq<TimelineEntry>, es: seq<TimelineEntry>)
    requires |log| <= MaxEntries
    ensures PrependAll(log, es) == (Reverse(es) + log)[..Min(|es| + |log|, MaxEntries)]
    decreases |es|
  {
    if es == [] {
      assert log[..|log|] == log;
    } else {
      var next := Prepend(log, es[0]);
      PrependAllKeepsNewest(next, es[1..]);
      var lhs := (Reverse(es[1..]) + next)[..Min(|es| - 1 + |next|, MaxEntries)];
      var rhs := (Reverse(es) + log)[..Min(|es| + |log|, MaxEntries)];
      assert |lhs| == |rhs|;
      forall k | 0 <= k < |lhs| ensures lhs[k] == rhs[k] {
        if k < |es| - 1 {
          assert lhs[k] == es[1..][|es| - 2 - k];
        } else if k == |es| - 1 {
          assert lhs[k] == next[0];
        } else {
          assert lhs[k] == next[k - |es| + 1];
        }
      }
      assert lhs == rhs;
    }
  }

  /** From an empty log, twenty-five appends leave exactly the last twenty, newest first. */
  lemma TwentyFiveAppends(es: seq<TimelineEntry>)
    requires |es| == 25
    ensures PrependAll([], es) == Reverse(es[5..])
  {
    PrependAllKeepsNewest([], es);
    var r := PrependAll([], es);
    assert |r| == 20;
    forall k | 0 <= k < 20 ensures r[k] == Reverse(es[5..])[k] {
      assert r[k] == Reverse(es)[k];
    }
  }
}

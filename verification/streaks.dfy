/**
 * Streaks of a habit, over its completion records.
 *
 * The current streak is the number of consecutive days, ending today, whose
 * record exists and is completed; a missing record and a record that is not
 * completed both end it. The longest streak is the longest run of
 * calendar-consecutive days among the habit's completed days; it is computed
 * by a scan over those days in ascending order.
 */
module Streaks {
  import opened HabitModels
  import opened Outcomes

  /** Habit `h` has a record for day `d` and that record is completed. */
  predicate IsDone(c: Completions, h: HabitId, d: Day)
  {
    (h, d) in c && c[(h, d)]
  }

  /** The days on which habit `h` has a completed record. */
  function DoneDays(c: Completions, h: HabitId): (s: set<Day>)
    ensures forall d :: d in s <==> IsDone(c, h, d)
  {
    var s := set k | k in c && k.0 == h && c[k] :: k.1;
    assert forall d :: IsDone(c, h, d) ==> (h, d) in c && (h, d).1 == d;
    s
  }

  /** The completed days of habit `h` that are on or before `d`. */
  function DoneUpTo(c: Completions, h: HabitId, d: Day): (s: set<Day>)
    ensures s <= DoneDays(c, h)
    ensures forall x :: x in s <==> IsDone(c, h, x) && x <= d
  {
    set x | x in DoneDays(c, h) && x <= d
  }

  /** Stepping back over a completed day leaves one completed day fewer behind. */
  lemma DoneUpToShrinks(c: Completions, h: HabitId, d: Day)
    requires IsDone(c, h, d)
    ensures |DoneUpTo(c, h, d - 1)| == |DoneUpTo(c, h, d)| - 1
  {
    assert DoneUpTo(c, h, d - 1) == DoneUpTo(c, h, d) - {d};
  }

  /**
   * The current streak of habit `h` on day `today`: the backward scan from
   * `today` that counts completed days and stops at the first day whose
   * record is missing or not completed. It never exceeds the number of
   * completed days up to `today`, which is what makes the scan terminate.
   */
  function Streak(c: Completions, h: HabitId, today: Day): (n: nat)
    ensures n == 0 <==> !IsDone(c, h, today)
    ensures n <= |DoneUpTo(c, h, today)|
    decreases |DoneUpTo(c, h, today)|
  {
    if IsDone(c, h, today) then
      DoneUpToShrinks(c, h, today);
      1 + Streak(c, h, today - 1)
    else
      0
  }

  /** The `n` days ending on `today` are all completed for habit `h`. */
  ghost predicate TrailingRun(c: Completions, h: HabitId, today: Day, n: nat)
  {
    forall d :: today - n < d <= today ==> IsDone(c, h, d)
  }

  /**
   * The streak is N exactly when the N days ending today are completed and
   * the day before them is not.
   */
  lemma {:induction false} StreakIsMaximalTrailingRun(c: Completions, h: HabitId, today: Day, n: nat)
    ensures Streak(c, h, today) == n <==> TrailingRun(c, h, today, n) && !IsDone(c, h, today - n)
    decreases n
  {
    if n > 0 {
      if IsDone(c, h, today) {
        StreakIsMaximalTrailingRun(c, h, today - 1, n - 1);
        assert TrailingRun(c, h, today, n) <==> TrailingRun(c, h, today - 1, n - 1);
      } else {
        assert !TrailingRun(c, h, today, n);
      }
    }
  }

  /** The streak is bounded by the number of completed records of the habit. */
  lemma StreakAtMostDoneDays(c: Completions, h: HabitId, today: Day)
    ensures Streak(c, h, today) <= |DoneDays(c, h)|
  {
    SubsetCardinality(DoneUpTo(c, h, today), DoneDays(c, h));
  }

  /** A subset is no larger than its superset. */
  lemma SubsetCardinality<T>(a: set<T>, b: set<T>)
    requires a <= b
    ensures |a| <= |b|
  {
    assert b == a + (b - a);
    assert a * (b - a) == {};
  }

  /**
   * The streak reads only the habit's own records on or before the day the
   * scan starts: two stores that agree there give the same streak.
   */
  lemma {:induction false} StreakFrame(c1: Completions, c2: Completions, h: HabitId, today: Day)
    requires forall d :: d <= today ==> (IsDone(c1, h, d) <==> IsDone(c2, h, d))
    ensures Streak(c1, h, today) == Streak(c2, h, today)
    decreases |DoneUpTo(c1, h, today)|
  {
    if IsDone(c1, h, today) {
      DoneUpToShrinks(c1, h, today);
      StreakFrame(c1, c2, h, today - 1);
    }
  }

  /**
   * Marking habit `h` completed on `today` makes its streak one more than
   * the streak that ended yesterday; in particular it is at least 1.
   */
  lemma StreakAfterMarking(c: Completions, h: HabitId, today: Day)
    ensures Streak(c[(h, today) := true], h, today) == 1 + Streak(c, h, today - 1)
  {
    StreakFrame(c[(h, today) := true], c, h, today - 1);
  }

  // ---------------------------------------------------------------------
  // Longest streak

  /** Every day from `start` up to but excluding `start + len` is in `s`. */
  ghost predicate DayRun(s: set<Day>, start: Day, len: nat)
  {
    forall d :: start <= d < start + len ==> d in s
  }

  /**
   * `n` is the longest streak of the day set `s`: the length of its longest
   * run of calendar-consecutive days, 0 exactly when `s` is empty.
   */
  ghost predicate IsLongestRun(s: set<Day>, n: nat)
  {
    && n <= |s|
    && (n == 0 <==> s == {})
    && (exists start :: DayRun(s, start, n))
    && (forall start, len: nat :: DayRun(s, start, len) ==> len <= n)
  }

  /** The current streak is a run of completed days ending today. */
  lemma StreakIsDayRun(c: Completions, h: HabitId, today: Day)
    ensures DayRun(DoneDays(c, h), today - Streak(c, h, today) + 1, Streak(c, h, today))
  {
    StreakIsMaximalTrailingRun(c, h, today, Streak(c, h, today));
  }

  /** The longest streak is never shorter than the current streak. */
  lemma LongestAtLeastCurrent(c: Completions, h: HabitId, today: Day, longest: nat)
    requires IsLongestRun(DoneDays(c, h), longest)
    ensures Streak(c, h, today) <= longest
  {
    StreakIsDayRun(c, h, today);
  }

  /** Completed days [D, D+1, D+2, D+5] have longest streak 3. */
  lemma LongestRunExample(d: Day)
    ensures IsLongestRun({d, d + 1, d + 2, d + 5}, 3)
  {
    var s := {d, d + 1, d + 2, d + 5};
    assert DayRun(s, d, 3);
    forall start, len: nat | DayRun(s, start, len) ensures len <= 3 {
      assert len > 3 ==> start in s && start + 1 in s && start + 3 in s;
    }
  }

  /** The days are listed in strictly ascending order. */
  ghost predicate StrictlyIncreasing(ds: seq<Day>)
  {
    forall a, b :: 0 <= a < b < |ds| ==> ds[a] < ds[b]
  }

  /** The day at index `k` is exactly one day after the day before it. */
  predicate OneDayAfterPrevious(ds: seq<Day>, k: int)
    requires 0 < k < |ds|
  {
    ds[k] - ds[k - 1] == 1
  }

  /** The `len` entries of `ds` from index `i` on are consecutive days. */
  ghost predicate IndexRun(ds: seq<Day>, i: int, len: nat)
  {
    && 0 <= i
    && i + len <= |ds|
    && forall k :: i < k < i + len ==> OneDayAfterPrevious(ds, k)
  }

  /**
   * The longest-streak scan: walks the completed days in ascending order,
   * extending the current run when a day is exactly one day after the
   * previous one and restarting it at 1 otherwise, and keeps the longest
   * run seen. The result is the length of the longest stretch of
   * consecutive days among the entries of `ds`.
   */
  method LongestRun(ds: seq<Day>) returns (longest: nat)
    ensures longest <= |ds|
    ensures longest == 0 <==> ds == []
    ensures exists i :: IndexRun(ds, i, longest)
    ensures forall i, len: nat :: IndexRun(ds, i, len) ==> len <= longest
  {
    longest := 0;
    var current: nat := 0;
    var prev: Option<Day> := None;
    ghost var best := 0;
    for n := 0 to |ds|
      invariant prev == if n == 0 then None else Some(ds[n - 1])
      invariant current <= longest <= n
      invariant n == 0 ==> longest == 0
      invariant n > 0 ==> 1 <= current && longest >= 1
      invariant n > 0 ==> IndexRun(ds, n - current, current)
      invariant n > current > 0 ==> !OneDayAfterPrevious(ds, n - current)
      invariant IndexRun(ds, best, longest) && best + longest <= n
      invariant forall i, len: nat :: IndexRun(ds, i, len) && i + len <= n ==> len <= longest
    {
      if prev.None? || ds[n] - prev.value == 1 {
        current := current + 1;
      } else {
        current := 1;
      }
      if longest < current {
        best := n + 1 - current;
      }
      longest := if longest < current then current else longest;
      prev := Some(ds[n]);
      forall i, len: nat | IndexRun(ds, i, len) && i + len == n + 1 && len > 0
        ensures len <= current
      {
        assert len > current ==> OneDayAfterPrevious(ds, n + 1 - current);
      }
    }
  }

  /** Along a run of consecutive entries, the day grows by one per index. */
  lemma {:induction false} IndexRunValues(ds: seq<Day>, i: int, len: nat, k: int)
    requires IndexRun(ds, i, len) && i <= k < i + len
    ensures ds[k] == ds[i] + (k - i)
    decreases k - i
  {
    if k > i {
      IndexRunValues(ds, i, len, k - 1);
      assert OneDayAfterPrevious(ds, k);
    }
  }

  /** A run of consecutive entries covers a run of consecutive days. */
  lemma IndexRunSpansDays(ds: seq<Day>, s: set<Day>, i: int, len: nat)
    requires forall d :: d in ds <==> d in s
    requires IndexRun(ds, i, len) && len >= 1
    ensures DayRun(s, ds[i], len)
  {
    forall d | ds[i] <= d < ds[i] + len ensures d in s {
      IndexRunValues(ds, i, len, i + (d - ds[i]));
    }
  }

  /** In a strictly ascending list, the entry holding the next day sits at the next index. */
  lemma NextDayIsNextIndex(ds: seq<Day>, k: int, j: int)
    requires StrictlyIncreasing(ds)
    requires 0 <= k < |ds| && 0 <= j < |ds| && ds[j] == ds[k] + 1
    ensures j == k + 1
  {
    assert k < j;
    assert ds[k] < ds[k + 1];
    assert ds[k + 1] <= ds[j];
  }

  /** In a strictly ascending list, a run of consecutive days is a run of consecutive entries. */
  lemma {:induction false} DayRunIsIndexRun(ds: seq<Day>, s: set<Day>, start: Day, len: nat)
    requires StrictlyIncreasing(ds)
    requires forall d :: d in ds <==> d in s
    requires DayRun(s, start, len) && len >= 1
    ensures exists i :: IndexRun(ds, i, len) && ds[i] == start
    decreases len
  {
    if len == 1 {
      assert start in s;
      var j :| 0 <= j < |ds| && ds[j] == start;
      assert IndexRun(ds, j, 1);
    } else {
      assert DayRun(s, start, len - 1);
      DayRunIsIndexRun(ds, s, start, len - 1);
      var i :| IndexRun(ds, i, len - 1) && ds[i] == start;
      var last := i + len - 2;
      IndexRunValues(ds, i, len - 1, last);
      assert start + len - 1 in s;
      var j :| 0 <= j < |ds| && ds[j] == start + len - 1;
      NextDayIsNextIndex(ds, last, j);
      assert OneDayAfterPrevious(ds, j);
      assert IndexRun(ds, i, len);
    }
  }

  /**
   * What the scan finds over the ascending list of a habit's completed days
   * is the longest streak of those days.
   */
  lemma LongestRunOfSortedDays(ds: seq<Day>, s: set<Day>, n: nat)
    requires StrictlyIncreasing(ds)
    requires forall d :: d in ds <==> d in s
    requires |ds| == |s|
    requires n <= |ds| && (n == 0 <==> ds == [])
    requires exists i :: IndexRun(ds, i, n)
    requires forall i, len: nat :: IndexRun(ds, i, len) ==> len <= n
    ensures IsLongestRun(s, n)
  {
    if n == 0 {
      assert DayRun(s, 0, 0);
    } else {
      var i :| IndexRun(ds, i, n);
      IndexRunSpansDays(ds, s, i, n);
    }
    forall start, len: nat | DayRun(s, start, len) ensures len <= n {
      if len >= 1 {
        DayRunIsIndexRun(ds, s, start, len);
      }
    }
  }
}

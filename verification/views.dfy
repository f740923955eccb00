/**
 * The habit store and the operations the request handlers perform on it:
 * creating a habit, marking it completed today, deleting it with its
 * completion records, computing its current streak, and building the three
 * reports. The current day is always passed in as `today`.
 */
module HabitViews {
  import opened HabitModels
  import opened Outcomes
  import opened Streaks
  import opened Reports

  /** `body[key]` when the request carries `key`, and `default` otherwise. */
  function FieldOr(body: map<string, string>, key: string, default: string): string
  {
    if key in body then body[key] else default
  }

  /**
   * The habit a creation request describes: the name is required; the
   * description defaults to the empty string and the frequency to "daily",
   * which is not checked against the declared choices.
   */
  function HabitFromRequest(body: map<string, string>, today: Day): (r: Result<Habit>)
    ensures r.Err? <==> "name" !in body
    ensures r.Err? ==> r.error == MissingField("name")
    ensures r.Ok? ==> r.value.name == body["name"] && r.value.createdDay == today
    ensures r.Ok? && "description" !in body ==> r.value.description == ""
    ensures r.Ok? && "description" in body ==> r.value.description == body["description"]
    ensures r.Ok? && "frequency" !in body ==> r.value.frequency == DEFAULT_FREQUENCY
    ensures r.Ok? && "frequency" in body ==> r.value.frequency == body["frequency"]
  {
    if "name" !in body then Err(MissingField("name"))
    else Ok(Habit(body["name"], FieldOr(body, "description", ""), FieldOr(body, "frequency", DEFAULT_FREQUENCY), today))
  }

  class HabitStore {
    /** The stored habits, by identifier. */
    var habits: map<HabitId, Habit>
    /** The completed flag of each (habit, date) record. */
    var completions: Completions
    /** The identifier the next created habit receives. */
    var nextId: HabitId

    /**
     * Every completion record references a stored habit, and every stored
     * habit has an identifier below the next one to be assigned.
     */
    ghost predicate Valid()
      reads this
    {
      && (forall k :: k in completions ==> k.0 in habits)
      && (forall id :: id in habits ==> id < nextId)
    }

    constructor ()
      ensures Valid()
      ensures habits == map[] && completions == map[] && nextId == 1
    {
      habits := map[];
      completions := map[];
      nextId := 1;
    }

    /**
     * Creates the habit a request describes, created on `today`, under a
     * fresh identifier; a request without a name creates nothing.
     */
    method CreateHabit(body: map<string, string>, today: Day) returns (r: Result<HabitId>)
      requires Valid()
      modifies this
      ensures Valid()
      ensures completions == old(completions)
      ensures HabitFromRequest(body, today).Err? ==>
        r == Err(MissingField("name")) && habits == old(habits) && nextId == old(nextId)
      ensures HabitFromRequest(body, today).Ok? ==>
        && r.Ok?
        && r.value !in old(habits)
        && habits == old(habits)[r.value := HabitFromRequest(body, today).value]
    {
      var habit := HabitFromRequest(body, today);
      if habit.Err? {
        return Err(habit.error);
      }
      var id := nextId;
      habits := habits[id := habit.value];
      nextId := nextId + 1;
      return Ok(id);
    }

    /**
     * Fetches the record for (`id`, `day`), creating it, not completed, when
     * there is none.
     */
    method GetOrCreateCompletion(id: HabitId, day: Day) returns (completed: bool, created: bool)
      requires Valid() && id in habits
      modifies this
      ensures Valid()
      ensures habits == old(habits) && nextId == old(nextId)
      ensures created <==> (id, day) !in old(completions)
      ensures completions == if created then old(completions)[(id, day) := DEFAULT_COMPLETED] else old(completions)
      ensures (id, day) in completions && completed == completions[(id, day)]
      ensures created ==> !completed
    {
      created := (id, day) !in completions;
      if created {
        completions := completions[(id, day) := DEFAULT_COMPLETED];
      }
      completed := completions[(id, day)];
    }

    /**
     * Marks habit `id` completed on `today` and returns its new current
     * streak, which counts today. Only the (`id`, `today`) record changes, and
     * marking twice on one day leaves the store as marking once. An unknown
     * habit is an error and changes nothing.
     */
    method CompleteHabit(id: HabitId, today: Day) returns (r: Result<nat>)
      requires Valid()
      modifies this
      ensures Valid()
      ensures habits == old(habits) && nextId == old(nextId)
      ensures id !in habits ==> r == Err(HabitNotFound) && completions == old(completions)
      ensures id in habits ==>
        && completions == old(completions)[(id, today) := true]
        && r == Ok(Streak(completions, id, today))
        && r.value == 1 + Streak(old(completions), id, today - 1)
        && r.value >= 1
    {
      if id !in habits {
        return Err(HabitNotFound);
      }
      var _, _ := GetOrCreateCompletion(id, today);
      completions := completions[(id, today) := true];
      var streak := CalculateStreak(id, today);
      StreakAfterMarking(old(completions), id, today);
      return Ok(streak);
    }

    /**
     * Deletes habit `id` and, by the cascade, every completion record that
     * references it. An unknown habit is an error and changes nothing.
     */
    method DeleteHabit(id: HabitId) returns (r: Result<()>)
      requires Valid()
      modifies this
      ensures Valid()
      ensures nextId == old(nextId)
      ensures id !in old(habits) ==>
        r == Err(HabitNotFound) && habits == old(habits) && completions == old(completions)
      ensures id in old(habits) ==>
        && r == Ok(())
        && habits == old(habits) - {id}
        && completions == CascadeDelete(old(completions), id)
    {
      if id !in habits {
        return Err(HabitNotFound);
      }
      habits := habits - {id};
      completions := CascadeDelete(completions, id);
      return Ok(());
    }

    /**
     * The current streak of habit `h`: walks back from `today` one day at a
     * time while the day's record exists and is completed.
     */
    method CalculateStreak(h: HabitId, today: Day) returns (streak: nat)
      ensures streak == Streak(completions, h, today)
    {
      streak := 0;
      var current := today;
      while true
        invariant current == today - streak
        invariant streak + Streak(completions, h, current) == Streak(completions, h, today)
        decreases |DoneUpTo(completions, h, current)|
      {
        if (h, current) !in completions {
          break;
        }
        if !completions[(h, current)] {
          break;
        }
        DoneUpToShrinks(completions, h, current);
        streak := streak + 1;
        current := current - 1;
      }
    }

    /**
     * The completed days of habit `h` in ascending order, as the ordered
     * query returns them: each day once, every completed day present.
     */
    method CompletedDaysAscending(h: HabitId) returns (ds: seq<Day>)
      ensures StrictlyIncreasing(ds)
      ensures forall d :: d in ds <==> IsDone(completions, h, d)
      ensures |ds| == |DoneDays(completions, h)|
    {
      var all := DoneDays(completions, h);
      var rest := all;
      ds := [];
      while rest != {}
        invariant rest <= all
        invariant StrictlyIncreasing(ds)
        invariant forall d :: d in ds <==> d in all && d !in rest
        invariant forall a, b :: a in ds && b in rest ==> a < b
        invariant |ds| + |rest| == |all|
        decreases |rest|
      {
        MinimumExists(rest);
        var m :| m in rest && forall x :: x in rest ==> m <= x;
        ghost var before := ds;
        ds := ds + [m];
        rest := rest - {m};
        forall a, b | 0 <= a < b < |ds| ensures ds[a] < ds[b] {
          if b < |before| {
            assert ds[a] == before[a] && ds[b] == before[b];
          } else {
            assert ds[a] == before[a] && before[a] in before;
          }
        }
      }
    }

    /** Each row of a frequency report is its habit's name, 30-day count and rate. */
    ghost predicate FrequencyRowsHold(rows: map<HabitId, FrequencyRow>, today: Day)
      reads this
    {
      forall id :: id in rows ==>
        id in habits && rows[id] == FrequencyRowOf(habits[id], RecentCompletions(completions, id, today))
    }

    /**
     * Each row of a streaks report is its habit's name, current streak and
     * longest streak, and the longest is never shorter than the current one.
     */
    ghost predicate StreaksRowsHold(rows: map<HabitId, StreaksRow>, today: Day)
      reads this
    {
      forall id :: id in rows ==>
        && id in habits
        && rows[id].habitName == habits[id].name
        && rows[id].currentStreak == Streak(completions, id, today)
        && IsLongestRun(DoneDays(completions, id), rows[id].longestStreak)
        && rows[id].currentStreak <= rows[id].longestStreak
    }

    /** Each row of a completion-rate report is its habit's name, total days, completed days and rate. */
    ghost predicate CompletionRateRowsHold(rows: map<HabitId, CompletionRateRow>, today: Day)
      reads this
    {
      forall id :: id in rows ==>
        id in habits && rows[id] == CompletionRateRowOf(habits[id], |DoneDays(completions, id)|, today)
    }

    /** For every habit: its completions in the last 30 days and their rate. */
    method FrequencyReport(today: Day) returns (rows: map<HabitId, FrequencyRow>)
      ensures rows.Keys == habits.Keys
      ensures FrequencyRowsHold(rows, today)
    {
      rows := map[];
      var pending := habits.Keys;
      while pending != {}
        invariant pending <= habits.Keys
        invariant rows.Keys == habits.Keys - pending
        invariant FrequencyRowsHold(rows, today)
        decreases |pending|
      {
        var id :| id in pending;
        var count := RecentCompletions(completions, id, today);
        rows := rows[id := FrequencyRowOf(habits[id], count)];
        pending := pending - {id};
      }
    }

    /**
     * For every habit: its current streak and its longest streak, which is
     * the longest run of consecutive completed days and never shorter than
     * the current streak.
     */
    method StreaksReport(today: Day) returns (rows: map<HabitId, StreaksRow>)
      ensures rows.Keys == habits.Keys
      ensures StreaksRowsHold(rows, today)
    {
      rows := map[];
      var pending := habits.Keys;
      while pending != {}
        invariant pending <= habits.Keys
        invariant rows.Keys == habits.Keys - pending
        invariant StreaksRowsHold(rows, today)
        decreases |pending|
      {
        var id :| id in pending;
        var current := CalculateStreak(id, today);
        var days := CompletedDaysAscending(id);
        var longest := LongestRun(days);
        LongestRunOfSortedDays(days, DoneDays(completions, id), longest);
        LongestAtLeastCurrent(completions, id, today, longest);
        rows := rows[id := StreaksRow(habits[id].name, current, longest)];
        pending := pending - {id};
      }
    }

    /**
     * For every habit: the days since its creation, its completed days ever,
     * and the completion rate between them.
     */
    method CompletionRateReport(today: Day) returns (rows: map<HabitId, CompletionRateRow>)
      ensures rows.Keys == habits.Keys
      ensures CompletionRateRowsHold(rows, today)
    {
      rows := map[];
      var pending := habits.Keys;
      while pending != {}
        invariant pending <= habits.Keys
        invariant rows.Keys == habits.Keys - pending
        invariant CompletionRateRowsHold(rows, today)
        decreases |pending|
      {
        var id :| id in pending;
        var completed := |DoneDays(completions, id)|;
        rows := rows[id := CompletionRateRowOf(habits[id], completed, today)];
        pending := pending - {id};
      }
    }

    /**
     * The report the `type` parameter selects (the frequency report when it
     * is absent); an unknown type is an error.
     */
    method RunReport(param: Option<string>, today: Day) returns (r: Result<Report>)
      ensures ParseReportType(param).Err? ==> r == Err(InvalidReportType)
      ensures ParseReportType(param) == Ok(FrequencyKind) ==> r.Ok? && r.value.FrequencyReport?
      ensures ParseReportType(param) == Ok(StreaksKind) ==> r.Ok? && r.value.StreaksReport?
      ensures ParseReportType(param) == Ok(CompletionRateKind) ==> r.Ok? && r.value.CompletionRateReport?
      ensures r.Ok? && r.value.FrequencyReport? ==>
        r.value.frequencyRows.Keys == habits.Keys && FrequencyRowsHold(r.value.frequencyRows, today)
      ensures r.Ok? && r.value.StreaksReport? ==>
        r.value.streaksRows.Keys == habits.Keys && StreaksRowsHold(r.value.streaksRows, today)
      ensures r.Ok? && r.value.CompletionRateReport? ==>
        r.value.completionRateRows.Keys == habits.Keys && CompletionRateRowsHold(r.value.completionRateRows, today)
    {
      var kind := ParseReportType(param);
      if kind.Err? {
        return Err(kind.error);
      }
      match kind.value
      case FrequencyKind =>
        var rows := FrequencyReport(today);
        return Ok(Report.FrequencyReport(rows));
      case StreaksKind =>
        var rows := StreaksReport(today);
        return Ok(Report.StreaksReport(rows));
      case CompletionRateKind =>
        var rows := CompletionRateReport(today);
        return Ok(Report.CompletionRateReport(rows));
    }
  }

  /** Every non-empty finite set of days has a least day. */
  lemma {:induction false} MinimumExists(s: set<Day>)
    requires s != {}
    ensures exists m :: m in s && forall x :: x in s ==> m <= x
    decreases |s|
  {
    assert (forall x :: x !in s) ==> s == {};
    var y :| y in s;
    if s == {y} {
      assert forall x :: x in s ==> y <= x;
    } else {
      var rest := s - {y};
      MinimumExists(rest);
      var m :| m in rest && forall x :: x in rest ==> m <= x;
      var least := if y < m then y else m;
      forall x | x in s ensures least <= x {
        if x != y {
          assert x in rest;
        }
      }
      assert least in s;
    }
  }

  /**
   * Deleting a habit leaves it no completed days, and leaves every other
   * habit's completed days and streak as they were.
   */
  lemma DeleteClearsOnlyThatHabit(c: Completions, id: HabitId, h: HabitId, today: Day)
    ensures DoneDays(CascadeDelete(c, id), id) == {}
    ensures h != id ==> DoneDays(CascadeDelete(c, id), h) == DoneDays(c, h)
    ensures h != id ==> Streak(CascadeDelete(c, id), h, today) == Streak(c, h, today)
  {
    if h != id {
      StreakFrame(CascadeDelete(c, id), c, h, today);
    }
  }

  /**
   * Marking habit `id` on `today` leaves every other habit's completed days
   * and streak as they were, and marking it a second time on the same day
   * changes nothing more.
   */
  lemma CompleteTouchesOnlyThatRecord(c: Completions, id: HabitId, h: HabitId, today: Day, day: Day)
    ensures c[(id, today) := true][(id, today) := true] == c[(id, today) := true]
    ensures h != id ==> DoneDays(c[(id, today) := true], h) == DoneDays(c, h)
    ensures h != id ==> Streak(c[(id, today) := true], h, day) == Streak(c, h, day)
  {
    if h != id {
      StreakFrame(c[(id, today) := true], c, h, day);
    }
  }
}

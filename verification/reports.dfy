/**
 * The three reports over all habits and the choice between them: the
 * completions of the last 30 days, the current and longest streaks, and the
 * completion rate since the habit was created.
 */
module Reports {
  import opened HabitModels
  import opened Outcomes
  import opened Streaks

  datatype ReportKind = FrequencyKind | StreaksKind | CompletionRateKind

  /** The report type a request names when it names none. */
  const DEFAULT_REPORT_TYPE: string := "frequency"

  /** The name by which a request selects each report. */
  function ReportTypeName(k: ReportKind): string
  {
    match k
    case FrequencyKind => "frequency"
    case StreaksKind => "streaks"
    case CompletionRateKind => "completion-rate"
  }

  /**
   * The report selected by the `type` parameter of a request: the frequency
   * report when the parameter is absent, the report of that name when it
   * names one, and an invalid-report-type error otherwise.
   */
  function ParseReportType(param: Option<string>): (r: Result<ReportKind>)
    ensures param.None? ==> r == Ok(FrequencyKind)
    ensures r.Ok? ==> ReportTypeName(r.value) == (if param.Some? then param.value else DEFAULT_REPORT_TYPE)
    ensures r.Err? <==> param.Some? && forall k: ReportKind :: ReportTypeName(k) != param.value
    ensures r.Err? ==> r.error == InvalidReportType
  {
    var name := if param.Some? then param.value else DEFAULT_REPORT_TYPE;
    if name == "frequency" then Ok(FrequencyKind)
    else if name == "streaks" then Ok(StreaksKind)
    else if name == "completion-rate" then Ok(CompletionRateKind)
    else Err(InvalidReportType)
  }

  /** Naming a report selects that report. */
  lemma ParseReportTypeName(k: ReportKind)
    ensures ParseReportType(Some(ReportTypeName(k))) == Ok(k)
  {
  }

  // ---------------------------------------------------------------------
  // Frequency report

  /** The trailing window of the frequency report, in days before today. */
  const WINDOW_DAYS: nat := 30

  /** The completed days of habit `h` that fall in the window ending today. */
  function RecentDays(c: Completions, h: HabitId, today: Day): (s: set<Day>)
    ensures s <= DoneDays(c, h)
    ensures forall d :: d in s <==> IsDone(c, h, d) && d >= today - WINDOW_DAYS
  {
    set d | d in DoneDays(c, h) && d >= today - WINDOW_DAYS
  }

  /**
   * The number of completed records of habit `h` dated on or after
   * `today - 30`; records not completed, and records before the window, do
   * not count.
   */
  function RecentCompletions(c: Completions, h: HabitId, today: Day): (n: nat)
    ensures n <= |DoneDays(c, h)|
  {
    SubsetCardinality(RecentDays(c, h, today), DoneDays(c, h));
    |RecentDays(c, h, today)|
  }

  /** A record dated before the window does not change the count, whatever its flag. */
  lemma RecordBeforeWindowIgnored(c: Completions, h: HabitId, today: Day, d: Day, flag: bool)
    requires d < today - WINDOW_DAYS
    ensures RecentCompletions(c[(h, d) := flag], h, today) == RecentCompletions(c, h, today)
  {
    assert RecentDays(c[(h, d) := flag], h, today) == RecentDays(c, h, today);
  }

  /** Marking a day of the window completed for the first time adds exactly one. */
  lemma MarkingInWindowCounts(c: Completions, h: HabitId, today: Day, d: Day)
    requires today - WINDOW_DAYS <= d && !IsDone(c, h, d)
    ensures RecentCompletions(c[(h, d) := true], h, today) == RecentCompletions(c, h, today) + 1
  {
    assert RecentDays(c[(h, d) := true], h, today) == RecentDays(c, h, today) + {d};
  }

  /**
   * A window of 30 days before today plus today itself holds 31 days: with
   * no records dated after today, the count is at most 31.
   */
  lemma RecentCompletionsAtMostWindow(c: Completions, h: HabitId, today: Day)
    requires forall d :: IsDone(c, h, d) ==> d <= today
    ensures RecentCompletions(c, h, today) <= WINDOW_DAYS + 1
  {
    DaysInInterval(RecentDays(c, h, today), today - WINDOW_DAYS, today);
  }

  /** The frequency report's rate: the count as a percentage of 30 days, not clamped. */
  function FrequencyRate(count: nat): (rate: real)
    ensures rate * (WINDOW_DAYS as real) == count as real * 100.0
    ensures rate >= 0.0
  {
    (count as real / WINDOW_DAYS as real) * 100.0
  }

  datatype FrequencyRow = FrequencyRow(habitName: string, completionsLast30Days: nat, completionRate: real)

  function FrequencyRowOf(habit: Habit, count: nat): FrequencyRow
  {
    FrequencyRow(habit.name, count, FrequencyRate(count))
  }

  // ---------------------------------------------------------------------
  // Streaks report

  datatype StreaksRow = StreaksRow(habitName: string, currentStreak: nat, longestStreak: nat)

  // ---------------------------------------------------------------------
  // Completion-rate report

  /** The days from the creation day through today, both included. */
  function TotalDays(createdDay: Day, today: Day): (n: int)
    ensures n > 0 <==> createdDay <= today
    ensures n > 0 ==> createdDay + n - 1 == today
  {
    today - createdDay + 1
  }

  /**
   * The completion rate: `completed` as a percentage of `totalDays`, and 0
   * when there are no days to count.
   */
  function CompletionRate(completed: nat, totalDays: int): (rate: real)
    ensures totalDays <= 0 ==> rate == 0.0
    ensures totalDays > 0 ==> rate * totalDays as real == completed as real * 100.0
    ensures rate >= 0.0
  {
    if totalDays > 0 then completed as real / totalDays as real * 100.0 else 0.0
  }

  /** No more completed days than days make at most 100 percent. */
  lemma CompletionRateAtMostHundred(completed: nat, totalDays: int)
    requires 0 < totalDays && completed <= totalDays
    ensures CompletionRate(completed, totalDays) <= 100.0
  {
  }

  /** Any set of days inside [lo, hi] has at most hi - lo + 1 members. */
  lemma {:induction false} DaysInInterval(s: set<Day>, lo: Day, hi: Day)
    requires forall d :: d in s ==> lo <= d <= hi
    ensures |s| <= if lo <= hi then hi - lo + 1 else 0
    decreases hi - lo
  {
    if lo <= hi {
      DaysInInterval(s - {hi}, lo, hi - 1);
    } else {
      assert s == {} by {
        forall d | d in s ensures false { }
      }
    }
  }

  /**
   * When every completed day of a habit lies between its creation day and
   * today, it has no more completed days than days, and its completion rate
   * is between 0 and 100 percent.
   */
  lemma CompletionRateBounded(c: Completions, h: HabitId, createdDay: Day, today: Day)
    requires forall d :: IsDone(c, h, d) ==> createdDay <= d <= today
    ensures |DoneDays(c, h)| <= if TotalDays(createdDay, today) > 0 then TotalDays(createdDay, today) else 0
    ensures 0.0 <= CompletionRate(|DoneDays(c, h)|, TotalDays(createdDay, today)) <= 100.0
  {
    DaysInInterval(DoneDays(c, h), createdDay, today);
    if TotalDays(createdDay, today) > 0 {
      CompletionRateAtMostHundred(|DoneDays(c, h)|, TotalDays(createdDay, today));
    }
  }

  /** A habit created nine days before today, with 4 completed days: 10 days, 40 percent. */
  lemma CompletionRateExample(today: Day)
    ensures TotalDays(today - 9, today) == 10
    ensures CompletionRate(4, TotalDays(today - 9, today)) == 40.0
  {
  }

  datatype CompletionRateRow = CompletionRateRow(habitName: string, totalDays: int, completedDays: nat, completionRate: real)

  function CompletionRateRowOf(habit: Habit, completed: nat, today: Day): CompletionRateRow
  {
    var total := TotalDays(habit.createdDay, today);
    CompletionRateRow(habit.name, total, completed, CompletionRate(completed, total))
  }

  /** The report a request asks for, one row per habit. */
  datatype Report =
    | FrequencyReport(frequencyRows: map<HabitId, FrequencyRow>)
    | StreaksReport(streaksRows: map<HabitId, StreaksRow>)
    | CompletionRateReport(completionRateRows: map<HabitId, CompletionRateRow>)
}

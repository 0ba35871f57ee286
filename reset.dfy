/** `applyTimeframeReset`: a goal as shown, with the progress of its current period. */
module Reset {
  import opened Wrappers
  import opened Text
  import opened Calendar
  import opened Timeframe
  import opened Journals

  /**
   * A goal as the routes hand it to the reset: `journal` is `None` when the
   * field is not an array, `progress` is whatever the row carried.
   */
  datatype Goal = Goal(
    id: int,
    username: string,
    title: string,
    category: string,
    timeframe: Option<string>,
    slug: Option<string>,
    isPublic: bool,
    journal: Option<seq<JournalEntry>>,
    progress: Option<int>)

  /** The goal's tag, with an absent or empty one replaced by `weekly`. */
  function TimeframeOrWeekly(timeframe: Option<string>): Option<string> {
    if timeframe.None? || timeframe.value == "" then Some("weekly") else timeframe
  }

  /** The fallback tag yields the cadence the tag itself would. */
  lemma FallbackIsWeekly(timeframe: Option<string>)
    ensures ParseCadence(TimeframeOrWeekly(timeframe)) == ParseCadence(timeframe)
    ensures timeframe.None? ==> ParseCadence(TimeframeOrWeekly(timeframe)) == Weekly
  {
    LowerOfLowerCase("weekly");
    LowerOfLowerCase("");
  }

  /** The start of the goal's current period. */
  function GoalPeriodStart(goal: Goal, now: int): int {
    GetCurrentPeriodStart(TimeframeOrWeekly(goal.timeframe), now)
  }

  /** The progress the goal shows in its current period. */
  function ResetProgress(goal: Goal, now: int): (p: int)
    ensures 0 <= p <= 100
  {
    PeriodProgress(Entries(goal.journal), GoalPeriodStart(goal, now))
  }

  /**
   * `applyTimeframeReset`: no goal stays no goal; otherwise the same goal
   * with `progress` replaced by a value in 0..100.
   */
  function ApplyTimeframeReset(goal: Option<Goal>, now: int): (r: Option<Goal>)
    ensures r.None? <==> goal.None?
    ensures r.Some? ==> r.value.progress.Some? && 0 <= r.value.progress.value <= 100
    ensures r.Some? ==> r.value.(progress := goal.value.progress) == goal.value
  {
    if goal.None? then goal
    else Some(goal.value.(progress := Some(ResetProgress(goal.value, now))))
  }

  /**
   * The progress shown is that of the latest entry created since the start
   * of the goal's period, the last one among equal times, clamped, and 0
   * when the period has no entry.
   */
  lemma ResetIsLatestInPeriod(goal: Goal, now: int)
    ensures var r := ApplyTimeframeReset(Some(goal), now).value.progress.value;
      var u := InPeriod(Entries(goal.journal), GetCurrentPeriodStart(goal.timeframe, now));
      && (u == [] ==> r == 0)
      && (u != [] ==> r == Clamp(u[LatestIndex(u)].progress))
  {
    FallbackIsWeekly(goal.timeframe);
    PeriodProgressIsLatest(Entries(goal.journal), GoalPeriodStart(goal, now));
  }

  // ---------------------------------------------------------------------
  // The reset as written: the period start with the `Date.UTC` year rule
  // ---------------------------------------------------------------------

  /** The start of the goal's period as the source computes it, two-digit-year rule included. */
  function GoalPeriodStartAsWritten(goal: Goal, now: int): int {
    GetCurrentPeriodStartAsWritten(TimeframeOrWeekly(goal.timeframe), now)
  }

  /** The progress the source shows, filtered from the start as written. */
  function ResetProgressAsWritten(goal: Goal, now: int): (p: int)
    ensures 0 <= p <= 100
  {
    PeriodProgress(Entries(goal.journal), GoalPeriodStartAsWritten(goal, now))
  }

  /** `applyTimeframeReset` as written: the same record update over the start as written. */
  function ApplyTimeframeResetAsWritten(goal: Option<Goal>, now: int): (r: Option<Goal>)
    ensures r.None? <==> goal.None?
    ensures r.Some? ==> r.value.progress.Some? && 0 <= r.value.progress.value <= 100
    ensures r.Some? ==> r.value.(progress := goal.value.progress) == goal.value
  {
    if goal.None? then goal
    else Some(goal.value.(progress := Some(ResetProgressAsWritten(goal.value, now))))
  }

  /** Outside the years 0..99 the reset as written is the corrected one. */
  lemma ResetAsWrittenAgrees(goal: Option<Goal>, now: int)
    requires !(0 <= GetUTCFullYear(now) <= 99)
    ensures ApplyTimeframeResetAsWritten(goal, now) == ApplyTimeframeReset(goal, now)
  {
    if goal.Some? {
      AsWrittenAgreesOutsideTwoDigitYears(ParseCadence(TimeframeOrWeekly(goal.value.timeframe)), now);
    }
  }

  /**
   * In the years 0..99 the start as written lies after `now`, so a journal
   * whose entries were all made by `now` shows 0, whatever they hold.
   */
  lemma TwoDigitYearResetsToZero(goal: Goal, now: int)
    requires 0 <= GetUTCFullYear(now) <= 99
    requires forall e :: e in Entries(goal.journal) ==> e.createdAt <= now
    ensures ApplyTimeframeResetAsWritten(Some(goal), now).value.progress == Some(0)
  {
    TwoDigitYearStartsAfterNow(ParseCadence(TimeframeOrWeekly(goal.timeframe)), now);
    NothingInPeriodIsZero(Entries(goal.journal), GoalPeriodStartAsWritten(goal, now));
  }

  /**
   * One entry logged at `now` in a year 0..99: the reset as written shows
   * 0, the corrected reset shows the entry's progress.
   */
  lemma TwoDigitYearResetCounterexample(goal: Goal, now: int, e: JournalEntry)
    requires 0 <= GetUTCFullYear(now) <= 99
    requires goal.journal == Some([e]) && e.createdAt == now && 0 < e.progress <= 100
    ensures ApplyTimeframeResetAsWritten(Some(goal), now).value.progress == Some(0)
    ensures ApplyTimeframeReset(Some(goal), now).value.progress == Some(e.progress)
  {
    TwoDigitYearResetsToZero(goal, now);
    var start := GetCurrentPeriodStart(goal.timeframe, now);
    PeriodStartBounds(ParseCadence(goal.timeframe), now);
    assert InPeriod([e], start) == [e] by {
      assert [e][..0] == [];
    }
    ResetIsLatestInPeriod(goal, now);
  }

  /**
   * A daily goal with 40 logged one second before today's midnight UTC and
   * 70 an hour after it shows 70, whatever the order of the two entries.
   */
  lemma DailyResetScenario(goal: Goal, now: int, before: JournalEntry, after: JournalEntry)
    requires goal.timeframe == Some("daily")
    requires goal.journal == Some([before, after]) || goal.journal == Some([after, before])
    requires before.progress == 40 && before.createdAt == Day(now) * MsPerDay - 1000
    requires after.progress == 70 && after.createdAt == Day(now) * MsPerDay + 3600000
    ensures ApplyTimeframeReset(Some(goal), now).value.progress == Some(70)
  {
    LowerOfLowerCase("daily");
    assert ParseCadence(Some("daily")) == Daily;
    DailyStart(now);
    TwoEntriesScenario(before, after, GoalPeriodStart(goal, now));
  }
}

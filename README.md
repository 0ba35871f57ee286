# planvo-api: period progress and unique slugs, in Dafny

This project models two parts of the planvo-api goal-tracking service and
proves properties of both.

- **The timeframe-based progress reset** (`utils/timeframe.js`).
  - `getCurrentPeriodStart` computes the UTC midnight where a goal's
    current period begins (daily, weekly, monthly or yearly).
  - `sortJournals` puts a journal in chronological order.
  - `applyTimeframeReset` replaces a goal's `progress` with the progress of
    the latest journal entry of the current period, bounded to 0..100.
- **Slug assignment in the goal routes** (`routes/goals.js`).
  - Create, PATCH and the public toggle each try `base`, `base-1`,
    `base-2`, … until the existence query returns no row.
  - The model also covers the statements these handlers send and their 400
    answers.

Modules, one per file:

- `Wrappers` and `Text` (`text.dfy`): `Option`, ASCII lower-casing,
  decimal digits, joining, and counting a character.
- `Calendar` (`calendar.dfy`): the ECMAScript time model.
  - Time values are integer milliseconds since the epoch.
  - It defines `Day`, `DayFromYear`, `MakeDay`, `MakeDate`,
    `MakeFullYear` and `Date.UTC`.
  - It also models the `getUTC*` accessors (the weekday as `GetUTCDay`)
    and `setUTCDate`.
- `Timeframe` (`timeframe.dfy`): `getCurrentPeriodStart`.
  - `PeriodStartAsWritten` is the function as written.
  - `PeriodStart` is the corrected one (see Findings).
- `Journals` (`journals.dfy`): `sortJournals` and the journal part of
  `applyTimeframeReset`.
  - `SortJournals` is an insertion sort in place on an array.
  - It is proved equal to the functional `SortByCreated`.
- `Reset` (`reset.dfy`): `applyTimeframeReset` on a goal record.
  - `ApplyTimeframeResetAsWritten` uses the period start as written.
  - `ApplyTimeframeReset` uses the corrected one (see Findings).
  - The two are proved equal outside the years 0..99.
- `Goals` (`goals.dfy`):
  - the slug loop `UniqueSlug`, with its existence query modelled as a
    filter over the stored rows;
  - the handlers `CreateGoal`, `PatchGoal` and `TogglePublic`, each
    modelled as the statement and parameters it sends or the error it
    answers.

Notes on the code's behaviour:

- **Slug uniqueness scope.** PATCH and the toggle check uniqueness against
  every other goal (`id != ?`), not per owner.
- **The `goal` fallback.** Only create falls back to the base `goal`. On
  PATCH and the toggle an empty slugified text is used as the base itself.
- **Bad input.** The handlers answer 400 on a missing create field, an
  empty patch and a non-boolean `public`. A truthy non-string slug makes
  `slugify` throw, which gives 500.
- **Coercion.** Other values are coerced where the code says so:
  - `String(timeframe || '')` in `getCurrentPeriodStart` and the `weekly`
    fallback in `applyTimeframeReset`;
  - a non-array journal becomes `[]`;
  - the progress is rounded and clamped to 0..100;
  - an empty slugified title becomes `goal` on create;
  - an absent `description` or `motivation` becomes `""`;
  - a falsy toggle slug becomes `null`.
- **Write conflicts.** There is no retry on a write-time slug conflict.

## Model

| member | source | states |
|---|---|---|
| Text.LowerChar | utils/timeframe.js:9 | an ASCII capital becomes the letter 32 code points later, which is lower case; every other character is kept |
| Text.Lower | utils/timeframe.js:9 | the ASCII part of `.toLowerCase()`: the result has the same length, and each character is `LowerChar` of the one at the same position |
| Text.Join | routes/goals.js:144 | `.join(sep)`. It has no contract of its own. Its property is `Text.JoinSnoc`, which `Goals.SetClauseSnoc` uses |
| Text.DecimalString | routes/goals.js:54 | the number inside the candidate text: at least one decimal digit, only digits, one digit exactly below 10, and no leading zero for a positive number. `Text.DecimalStringInjective` shows distinct numbers give distinct texts |
| Timeframe.PeriodStartAsWritten | utils/timeframe.js:3-29 | AS WRITTEN: the start with every midnight built through `Date.UTC`, so its two-digit-year rule applies. It has no contract of its own. Its properties are `AsWrittenAgreesOutsideTwoDigitYears` and `TwoDigitYearStartsAfterNow` |
| Timeframe.GetCurrentPeriodStartAsWritten | utils/timeframe.js:3-29 | AS WRITTEN: `getCurrentPeriodStart` as the source computes it, the parsed cadence followed by `PeriodStartAsWritten`. It has no contract of its own |
| Timeframe.PeriodStart | utils/timeframe.js:3-29 | CORRECTED: the same branches, with every midnight built from `now`'s own year. It has no contract of its own. Its properties are `PeriodStartBounds` and `PeriodStartIdempotent` |
| Timeframe.GetCurrentPeriodStart | utils/timeframe.js:3-29 | CORRECTED: the parsed cadence followed by `PeriodStart`. This is the start `Reset.ApplyTimeframeReset` uses. It has no contract of its own |
| Timeframe.DaysSinceMonday | utils/timeframe.js:13 | `(now.getUTCDay() + 6) % 7`, the days since the last Monday, is in 0..6 |
| Timeframe.BackToMondayFrom | utils/timeframe.js:14-15 | `startOfDay` copied and moved back with `setUTCDate(getUTCDate() - day)`. It has no contract of its own. Its property is `Timeframe.BackToMondayShift` |
| Timeframe.ParseCadence | utils/timeframe.js:9-27 | the cadence is daily, monthly or yearly exactly when the lower-cased tag is that name; everything else (absent, empty, `weekly`, unknown) is weekly |
| Timeframe.UnknownTagIsWeekly | utils/timeframe.js:22-27 | an absent tag or any tag other than the three names gives the same start as `weekly` |
| Timeframe.TagCaseInsensitive | utils/timeframe.js:9 | a tag and its lower-cased form give the same start |
| Timeframe.UpperCaseDaily | utils/timeframe.js:9-11 | `DAILY` gives the same start as `daily` |
| Timeframe.ParseLiterals | utils/timeframe.js:10-21 | each of the four names selects its own cadence |
| Timeframe.DailyStart | utils/timeframe.js:7-11 | the daily start is the midnight of `now`'s UTC day, at most `now` and less than a day before it |
| Timeframe.WeeklyStartDay | utils/timeframe.js:12-16 | the weekly start is `now`'s midnight moved back by `(weekday + 6) % 7` days |
| Timeframe.WeeklyStart | utils/timeframe.js:12-16 | the weekly start is a midnight, falls on a Monday, is at most `now`, and is less than 7 days before it |
| Timeframe.WeeklyStartUnique | utils/timeframe.js:12-16 | every Monday midnight within the 7 days up to `now` is the weekly start, so the start is the only such Monday |
| Timeframe.BackToMonday | utils/timeframe.js:13-15 | moving back `(weekday + 6) % 7` days from any instant's day lands on a Monday midnight less than 7 days earlier |
| Timeframe.MonthlyStartDay | utils/timeframe.js:18-19 | the monthly start is the day of date 1 of `now`'s month, and that day's civil date is (year, month, 1) |
| Timeframe.MonthlyStart | utils/timeframe.js:18-19 | the monthly start is a midnight, its date is date 1 of `now`'s UTC month, and `now` lies in that month |
| Timeframe.YearlyStartDay | utils/timeframe.js:20-21 | the yearly start is the day of 1 January of `now`'s year, and `now`'s day lies in that year |
| Timeframe.YearlyStart | utils/timeframe.js:20-21 | the yearly start is a midnight, its date is 1 January of `now`'s UTC year, and `now` lies in that year |
| Timeframe.PeriodStartBounds | utils/timeframe.js:3-29 | for every cadence, the start is a UTC midnight, never after `now`, and less than one period (1, 7, month length or year length days) before it |
| Timeframe.PeriodStartIdempotent | utils/timeframe.js:3-29 | the period start of a period start is itself |
| Timeframe.WeeklyScenario | utils/timeframe.js:12-16 | on Wednesday 2024-03-06T10:00Z the weekly start is Monday 2024-03-04T00:00Z |
| Timeframe.MonthlyScenario | utils/timeframe.js:18-19 | on 2024-03-06, a month starts on 2024-03-01 |
| Timeframe.YearlyScenario | utils/timeframe.js:20-21 | on 2024-03-06, a year starts on 2024-01-01 |
| Timeframe.ScenarioDate | utils/timeframe.js:4-6 | 2024-03-06T10:00Z is day 19788, a Wednesday, whose civil date is (2024, 2, 6) |
| Timeframe.AsWrittenAgreesOutsideTwoDigitYears | utils/timeframe.js:7-21 | outside the years 0..99, the function as written equals the corrected one for every cadence |
| Timeframe.TwoDigitYearStartsAfterNow | utils/timeframe.js:7-21 | for an instant in the years 0..99, the start as written lies after `now`, for every cadence |
| Timeframe.TwoDigitNewYearCounterexample | utils/timeframe.js:7-11 | at midnight of 1 January of any year 0..99, the daily start as written lies after `now`, while the corrected start is `now` |
| Calendar.GetUTCFullYear | utils/timeframe.js:4 | the year of the civil date of `t`'s day. It has no contract of its own. `Timeframe.DayAndYearOf` places `now`'s day inside that year |
| Calendar.GetUTCMonth | utils/timeframe.js:5 | the month of `t`'s civil date, counted from 0, is in 0..11 |
| Calendar.GetUTCDate | utils/timeframe.js:6 | the date of `t`'s civil date is in 1..31 |
| Calendar.MakeFullYear | utils/timeframe.js:7 | its contract is the case split of its body. The two-digit-year rule is stated by `Timeframe.DateUTCAsIs`, outside the years 0..99, and `Timeframe.DateUTCTwoDigit`, inside them |
| Calendar.DateUTC | utils/timeframe.js:7 | `Date.UTC(y, m, dt)` at midnight, through `MakeFullYear`, `MakeDay` and `MakeDate`. It has no contract of its own |
| Calendar.SetUTCDate | utils/timeframe.js:15 | `setUTCDate`: the same year, month and time of day with date `dt`. Its property is `SetUTCDateShift` |
| Calendar.GetUTCDay | utils/timeframe.js:13 | the weekday is in 0..6, with Sunday as 0 |
| Calendar.CivilRoundTrip | utils/timeframe.js:4-7 | a valid civil date converted to a day number and back is unchanged |
| Calendar.DayFromYearClosedForm | utils/timeframe.js:7 | the year-by-year day count equals the closed form ECMA-262 gives for DayFromYear |
| Calendar.SetUTCDateShift | utils/timeframe.js:15 | setting the date to `dt` moves the time value by `dt - date` whole days |
| Journals.SortJournals | utils/timeframe.js:31-34 | the method copies the journal (an empty list when it is not an array) into an array, sorts it in place, and returns `SortByCreated` of the journal |
| Journals.InsertInPlace | utils/timeframe.js:33 | one insertion step leaves `Insert` of the sorted prefix and the element in `a[..i+1]`, and the rest of the array unchanged |
| Journals.SortSorted | utils/timeframe.js:33 | the result is in ascending `created_at` order |
| Journals.SortPermutes | utils/timeframe.js:32-33 | the result holds the same entries, each as often (a permutation) |
| Journals.SortStable | utils/timeframe.js:33 | for every time, the entries created at that time keep their relative order |
| Journals.Entries | utils/timeframe.js:32 | `Array.isArray(journal) ? journal : []`: a journal that is not an array becomes empty. It has no contract of its own. `SortJournals` states its result through it |
| Journals.SortByCreated | utils/timeframe.js:33 | the reference stable sort by `created_at`. It keeps the length; `SortSorted`, `SortPermutes` and `SortStable` state the rest |
| Journals.InPeriod | utils/timeframe.js:41 | the period filter keeps at most the journal's entries. `InPeriodMembers` states which ones |
| Journals.InPeriodMembers | utils/timeframe.js:41 | an entry is in the period filter exactly when it is in the journal and was created at or after the start |
| Journals.InPeriodOfSort | utils/timeframe.js:40-41 | filtering the sorted journal equals sorting the filtered journal |
| Journals.LatestIndex | utils/timeframe.js:43-44 | the chosen entry is no earlier than any other, and every entry after it is strictly earlier |
| Journals.LatestIndexUnique | utils/timeframe.js:43-44 | those two properties determine the index |
| Journals.SortLast | utils/timeframe.js:33-44 | the last entry after sorting is the latest entry, the last one among equal times |
| Journals.Clamp | utils/timeframe.js:47 | the result is in 0..100: values in range are kept, negatives become 0, values over 100 become 100 |
| Journals.PeriodProgress | utils/timeframe.js:40-47 | the progress is in 0..100 |
| Journals.PeriodProgressIsLatest | utils/timeframe.js:40-47 | the progress is 0 when no entry is in the period, and otherwise the clamped progress of the latest entry of the period |
| Journals.NothingInPeriodIsZero | utils/timeframe.js:42-46 | a journal without an entry at or after the start gives 0 |
| Journals.OnlyPeriodEntriesMatter | utils/timeframe.js:41-47 | two journals with the same in-period entries in the same order give the same progress |
| Journals.EarlierEntriesIrrelevant | utils/timeframe.js:41 | inserting entries created before the start at any position of the journal changes nothing |
| Journals.TwoEntriesScenario | utils/timeframe.js:41-47 | with one entry before the start and one inside the period, in either order, the one inside decides |
| Reset.TimeframeOrWeekly | utils/timeframe.js:38 | the `weekly` fallback: an absent or empty tag becomes `weekly`. Its property is `FallbackIsWeekly` |
| Reset.GoalPeriodStart | utils/timeframe.js:38-39 | the corrected start of the goal's period. It has no contract of its own |
| Reset.FallbackIsWeekly | utils/timeframe.js:9-38 | the `weekly` fallback selects the same cadence as the raw tag, and an absent tag selects weekly |
| Reset.ResetProgress | utils/timeframe.js:38-47 | over the corrected start: the progress shown is in 0..100 |
| Reset.ApplyTimeframeReset | utils/timeframe.js:36-49 | over the corrected start: a missing goal stays missing; otherwise the goal is unchanged except for `progress`, which is in 0..100 |
| Reset.ResetIsLatestInPeriod | utils/timeframe.js:36-49 | over the corrected start: the progress shown is 0 with no entry since the start of the goal's own period, and otherwise the clamped progress of the latest such entry |
| Reset.DailyResetScenario | utils/timeframe.js:36-49 | over the corrected start: a daily goal with 40 logged one second before today's midnight and 70 an hour after it shows 70, in either order |
| Reset.GoalPeriodStartAsWritten | utils/timeframe.js:38-39 | the start of the goal's period as written, with the `Date.UTC` year rule. It has no contract of its own |
| Reset.ResetProgressAsWritten | utils/timeframe.js:38-47 | the progress as written, filtered from the start as written, is in 0..100 |
| Reset.ApplyTimeframeResetAsWritten | utils/timeframe.js:36-49 | as written: a missing goal stays missing; otherwise the goal is unchanged except for `progress`, which is in 0..100 |
| Reset.ResetAsWrittenAgrees | utils/timeframe.js:36-49 | outside the years 0..99 the reset as written equals the corrected reset |
| Reset.TwoDigitYearResetsToZero | utils/timeframe.js:36-49 | in the years 0..99 the reset as written shows 0 for every journal whose entries were all made by `now` |
| Reset.TwoDigitYearResetCounterexample | utils/timeframe.js:36-49 | one entry logged at `now` in a year 0..99, with progress 1..100: the reset as written shows 0, the corrected reset shows the entry's progress |
| Goals.InScope | routes/goals.js:50 | the scope condition: `username = ?` on create (and at :126 and :176, `id != ?` on PATCH and the toggle). It has no contract of its own. `Goals.TakenMembers` and `Goals.MatchesIffTaken` state the query through it |
| Goals.Matches | routes/goals.js:49-58 | every row the existence query returns is a stored row, in scope, with that slug. `MatchesIffTaken` states when it is empty |
| Goals.Taken | routes/goals.js:49-52 | the slugs of the rows in scope; a row without a slug takes none. Its property is `TakenMembers` |
| Goals.Candidate | routes/goals.js:54 | `base`, then `base-n` after `n` taken candidates. Its property is `CandidateInjective` |
| Goals.Truthy | routes/goals.js:121 | JavaScript truthiness: `""`, `0`, `false` and `null` are falsy, everything else is truthy. It has no contract of its own. It is used by `PatchGoal` and `TogglePublic` |
| Goals.Present | routes/goals.js:38 | a body field is present when it is given and non-empty, the negation of `!field`. It has no contract of its own. `CreateGoal` states the 400 through it |
| Goals.OrEmpty | routes/goals.js:68-71 | the `""` fallback: an absent field becomes the empty text. It has no contract of its own. `CreateGoal` states the parameters through it |
| Goals.Keys | routes/goals.js:139 | `Object.keys`: the keys of the patch in order, one per entry |
| Goals.Values | routes/goals.js:140 | `Object.values`: the values of the patch in order, one per entry |
| Goals.Assignments | routes/goals.js:142-143 | one `f = ?` per field, in field order |
| Goals.SetClause | routes/goals.js:142-144 | the assignments joined by `", "`. It has no contract of its own. Its properties are `SetClauseSnoc` and `SetClausePlaceholders` |
| Goals.UpdateSql | routes/goals.js:142-144 | `UPDATE goals SET` with the SET clause and ` WHERE id = ?`. It has no contract of its own. Its property is `UpdatePlaceholders` |
| Goals.KeyMarks | routes/goals.js:142-144 | the number of `?` inside the field names is 0 exactly when no field name contains `?` |
| Goals.TakenMembers | routes/goals.js:49-52 | a slug is taken exactly when some row in scope carries it |
| Goals.MatchesIffTaken | routes/goals.js:49-58 | the existence query returns a row exactly when the slug is taken |
| Goals.CandidateInjective | routes/goals.js:54 | different suffixes give different candidates |
| Goals.TakenBound | routes/goals.js:53-59 | `n` taken candidates need at least `n` taken slugs, so the loop ends |
| Goals.UniqueSlug | routes/goals.js:45-59 | the returned slug is not taken, is `base` or `base-n`, and every candidate before it is taken |
| Goals.FirstFreeUnique | routes/goals.js:45-59 | only one candidate is free with all earlier ones taken, so that is the one the loop returns |
| Goals.FreeBaseKept | routes/goals.js:45-53 | a free base is returned unchanged |
| Goals.TakenBaseSuffixed | routes/goals.js:53-54 | a taken base gets a suffix `-n` with `n >= 1` |
| Goals.RunExample | routes/goals.js:45-59 | with `run` and `run-1` taken, the first free slug is `run-2` |
| Goals.CreateBase | routes/goals.js:44 | the base on create is the slugified title, or `goal` when that is empty; it is never empty |
| Goals.CreateGoal | routes/goals.js:36-74 | 400 "Missing fields" unless username, title, category and timeframe are all non-empty; otherwise the INSERT with the six fields (empty description and motivation becoming `""`) and the first free slug among the user's goals; the statement is `InsertGoalSql`, the template literal of :62-64 with its line breaks and indentation |
| Goals.IndexOf | routes/goals.js:121 | the index found holds the key, and `None` means no entry has it |
| Goals.SetClauseSnoc | routes/goals.js:142-144 | one more field appends `, f = ?` to the SET clause |
| Goals.SetClausePlaceholders | routes/goals.js:142-144 | the SET clause holds one placeholder per field plus every `?` inside the field names, so exactly one per field for field names without `?` |
| Goals.UpdatePlaceholders | routes/goals.js:142-145 | the UPDATE holds one placeholder per field, one for the id and every `?` inside the field names, so its placeholders match its parameters exactly when no field name contains `?` |
| Goals.PatchGoal | routes/goals.js:113-145 | 400 "No fields to update" for an empty patch; a non-string truthy slug fails (500); a truthy string slug is replaced, in place, by the first free candidate among the other goals; the statement has one `f = ?` per key, with the values followed by the id |
| Goals.TogglePublic | routes/goals.js:159-193 | 400 unless `public` is a boolean; the loop runs only when the goal is made public and the slug is truthy; otherwise the slug stored is that slug or null; the parameters are 1 or 0, the slug, and the id; the statement is `TogglePublicSql`, the text at :189 |

## Left out

- Date range and TimeClip: time values beyond ±8.64e15 ms and invalid
  (NaN) dates are not modelled. Instants are unbounded integers.
- Number coercion: `Number(progress) || 0` and `Math.round` are not
  modelled. Progress is an integer, so rounding is the identity and NaN
  cannot occur.
- Creation times: `new Date(created_at)` is modelled as the entry's time
  value in milliseconds. Unparsable dates are not modelled.
- Lower-casing: only ASCII letters are lower-cased.
  - Full Unicode `toLowerCase` also maps two non-ASCII characters to ASCII
    letters: the Kelvin sign to `k`, and U+0130 to `i` followed by U+0307.
  - The output of U+0130 keeps a non-ASCII character, so it never equals
    one of the four names.
  - `weekly` is the only name containing `k`, and it is also the default,
    so the selected cadence is the same.
- `slugify`: its internals (transliteration, `strict`, `lower`) are not
  modelled. It is a function parameter. Its throw on a non-string argument
  is modelled as `ServerError`.
- Journals.SortJournals: the model uses insertion sort, whereas the engine
  may use a different stable sort.
  - `Array.prototype.sort` is stable. Every stable sort by `created_at`
    gives the same list, which is `SortByCreated`.
  - The journal is an immutable value, so "the input is not changed" holds
    by construction.
- SQL execution: the database is not modelled.
  - The existence query is a filter over the stored rows.
  - MySQL collation, type conversion and the response bodies after each
    statement (201/200 JSON, 404 after the update) are not modelled.
- Goals.PatchGoal:
  - The patch is given as its keys in `Object.keys` order. It requires
    distinct keys, which a JavaScript object always has.
  - The integer-key ordering of `Object.keys` is not modelled.
  - The id is an integer, not the URL text.
- Goals.UpdatePlaceholders: the `?` count is stated for every key, but
  SQL text other than `?` in a client-chosen key is not modelled. The
  handler puts keys into the SET clause unchecked, and such text changes
  what the statement does.
- Goals.CreateGoal: the INSERT text keeps the template literal's line
  breaks and indentation. Body fields are modelled as optional texts. Non-text
  JSON values (numbers, booleans) for them are not modelled.
- Timeframe.ParseCadence: the tag is an optional text. `String(...)` of a
  truthy non-text tag (an array such as `["daily"]`, a number) is not
  modelled.
- Goals.Value: a PATCH or toggle body value is a string, an integer, a
  boolean or null. Objects, arrays and fractional numbers are not modelled.
  For example, `{"slug": []}` is truthy and makes `slugify` throw (500).
- The clock: the `now = new Date()` defaults of `getCurrentPeriodStart` and
  `applyTimeframeReset` are not modelled. `now` is a parameter supplied by
  the caller, and every property holds for every `now`.
- Races: two requests can observe the same free slug at the same time.
  Concurrency is not modelled.
- The read routes (`GET /`, `GET /public/:username/:slug`) and the
  remaining routes of the repository are not part of this model.

## Findings

| source | as written | input that shows it | evidently intended | confidence | as-written member | corrected member |
|---|---|---|---|---|---|---|
| utils/timeframe.js:7 | Every period start is built with `Date.UTC(y, …)`, which reads the years 0..99 as 1900..1999 (MakeFullYear), so for an instant in those years the start lies after `now` | `now` = midnight UTC of 1 January of the year 50: the daily start as written is 1 January 1950, 1900 years later | the start of the period containing `now`, in `now`'s own year | not executed; only instants in the years 0..99 are affected | Timeframe.TwoDigitNewYearCounterexample | Timeframe.PeriodStartBounds |
| utils/timeframe.js:36-49 | `applyTimeframeReset` filters the journal from the start `getCurrentPeriodStart` returns, and in the years 0..99 that start lies after `now` | a goal whose only entry was logged at `now` = midnight UTC of 1 January of the year 50, with progress 70: the goal shows 0 | the progress of the latest entry of the current period, here 70 | not executed; only instants in the years 0..99 are affected | Reset.TwoDigitYearResetCounterexample | Reset.ResetIsLatestInPeriod |

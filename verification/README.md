# HealthBeat: what the server and agent promise, proved

A Dafny model of the decision logic of HealthBeat, a server-monitoring system: when a host is in maintenance, which alerts
are active and who is told about them, how many requests a client may make, what a day's log shows, which schema migrations
run, what the server knows of an agent's services, and how agent packages are named.

`dafny verify dfyconfig.toml` checks everything. Code that computes values is modelled by functions, code that works step by
step by methods and classes whose contracts tie the new state to functions of the old one; what those functions amount to is
proved in lemmas over all inputs or all runs. The main results end in plain terms: numbers of nanoseconds, day numbers, fields
of a window, a query or a report, and rows of the outbox.

- **Maintenance** (`Calendar`, `Zone`, `Window`, `StartDays`, `WeeklySearch`, `DaySearch`, `Occurrences`, `Schedule`,
  `Upcoming`, `Outage`, `Cases`). Days and instants are integers (days from January 1 of year 1, nanoseconds); a zone is any
  function from instants to offsets with whole minutes, offsets within a day of each other and at most one change in 96 hours.
  From there to "in maintenance until …".
- **Alerts** (`AlertDb`, `Lifecycle`, `Dispatch`, `Conditions`, `Engine`, `Status`, `Numeric`, `Mounts`, `Signals`,
  `Deferred`, `Reports`, `History`). The tables are a value; the store is a class whose every access may fail; transactions
  and savepoints restore that value. The per-report cache must follow the database under all failures. Over runs: what
  recipients are told, and which alerts are active as a function of the reports received.
- **Limiter** (`RateLimit`): the swept bucket map against an ideal bucket that is never dropped, over exact reals.
- **Logs** (`LogReader`, `LogWriter`), **migrations** (`Migrate`), **services** (`Services`), **package names** (`AgentPkg`).

## Where the code does not do what is expected of it

Each has a lemma with a concrete case, and where the failing family has a boundary, a lemma that says exactly where it lies.

- `daysBetween` saturates at about 292 years (106751 days). What the search for start days does beyond that is modelled as it
  is; a loop of the code that never ends is a result, `NeverReturns` or `Endless`. Up to 291 years after the anchor none of
  this happens (`DaySearch.WithinSpan`, `Occurrences.ListingWithinSpan`).
  - A weekly search never comes back exactly when its repeat does not divide 15250 and no start day is left in the first
    15250 weeks: `WeeklySearch.JumpToItself`, `WeeklySearch.ComesBackExactly`.
  - `Next` walks that far for an ordinary series: weekly with one weekday, repeated every 3, 4, 6, 7, 8, 9, 11 or 12 weeks,
    with no last day, and ended. It then never answers: `Upcoming.EndedSeriesNeverAnswers`, `Cases.ThirdMondaysNeverAnswer`,
    with the exact conditions in `Upcoming.EndedSeriesExactly` and `Upcoming.Next`.
  - The other weekly repeats (1, 2, 5 and 10) take every week past that point for one of the series, and a daily search
    answers its last day in reach for ever: `DaySearch.AnswersExact`, `StartDays.DailyStartExact`,
    `StartDays.DailyStartPastTheSpan`. So `Next` answers one occurrence several times, exactly when a daily series without an
    earlier last day is walked to the last day in reach before enough was found or inspected: `Upcoming.RepeatsExactly`,
    `Cases.LastDayTwice`.
  - `Occurrences` never ends exactly when some search on its way gets no further, and `ActiveAt` exactly when that happens for
    one of its windows: `Occurrences.Occurrences`, `Outage.ActiveAt`, with accepted windows for which they never end in
    `Cases.ThirdMondaysNeverListed` and `Cases.NightlyNeverListed`.
- `Occurrences` stops at the local date of the end of the range; in a zone whose date turns back (clocks going back one
  minute after midnight, as in St. John's until 2011) it misses a running occurrence:
  `Occurrences.ListedCompleteWhen`, `Upcoming.MissedWhenTheDateTurnsBack`. `ActiveAt` is still right there exactly when its end
  is the horizon, or no missed occurrence covers the end given (or the instant asked about, if it is said to be free):
  `Outage.ActiveAt`, `Occurrences.CollectedOrMissed`.
- Two successive days start at the same instant exactly when the zone jumps over the whole first one at that time of day, as
  Samoa did in 2011: `Zone.EqualStartsExactly`, `Zone.EqualStartsAcrossASkippedDay`. There one override takes away both
  occurrences (`Occurrences.OneOverrideTwoDays`), and nowhere else (`Occurrences.OverrideTouchesOneDay`).
- A level change during maintenance also silences the later resolution of an alert everyone was told about
  (`Lifecycle.LevelChangeSilencesResolution`). An alert is reported resolved to people never told of it exactly when nobody
  was to be told at its opening, level change or reminder, outside maintenance, and somebody is at its end
  (`Lifecycle.ResolvedUnannouncedExactly`, `Lifecycle.ResolvedWithoutAnnouncement`).
- A log line that carries the text searched for but no time inherits the time of the last line that carries the text as well,
  not of the line before it, which is what the query's comment says: `LogReader.InheritedTimeExact`,
  `LogReader.OlderTimeInherited`.
- A database migrated by hand is promised never to be taken for an empty one; an adoption (`Baseline`) that is interrupted
  after it made the history table defeats that: the next run no longer refuses it, plans every migration and attempts the
  first (`Migrate.LegacyRefusedExactly`, `Migrate.InterruptedAdoption`). With the migrations of the repository that is
  harmless: the first one creates tables that exist, fails and is rolled back (`Migrate.RunAfterInterruption`), but the
  operator gets that error instead of the advice to adopt the database.
- The server never learns that a restart count is no longer known, not even from a full list: `Services.RestartsExact`,
  `Services.CountOutlivesFullList`.

## Model

| member | source | states |
|---|---|---|
| Calendar.MonthStep | server/internal/maintenance/maintenance.go:131-136 | the month starts are the running sums of the Gregorian month lengths, across year ends and leap years |
| Calendar.MonthOf | server/internal/maintenance/maintenance.go:131 | every day lies in the month found for it |
| Calendar.MonthOfUnique | server/internal/maintenance/maintenance.go:131-139 | no day lies in two months |
| Calendar.YearLength | server/internal/maintenance/maintenance.go:131-136 | a year has 366 days exactly in leap years, 365 otherwise |
| Calendar.WeekdaysCycle | server/internal/maintenance/maintenance.go:53-59 | the weekday moves on from day to day, from 7 back to 1, and two days share it exactly when whole weeks lie between them |
| Calendar.NewYears | server/internal/maintenance/maintenance.go:53-59 | January 1 of year 1 is day 0, and January 1, 2024 is day 738885, a Monday |
| Zone.WallInstant | server/internal/maintenance/maintenance.go:61-81 | the loop over the two sampled offsets chooses the start of the wall-clock time that is so many minutes after the midnight of the day |
| Zone.SampledOffset | server/internal/maintenance/maintenance.go:64-68 | any instant showing the wall time uses one of the two offsets sampled 48 hours before and after it |
| Zone.StartIsEarliest | server/internal/maintenance/maintenance.go:61-81 | when some instant shows the wall time, the start shows it and is the earliest that does |
| Zone.StartInGap | server/internal/maintenance/maintenance.go:76-79 | when no instant shows it, it lies in the gap of one forward change and the start is moved forward by exactly that gap |
| Zone.StartNotBefore | server/internal/maintenance/maintenance.go:61-81 | the local clock at the start never lags behind the wall time asked for |
| Zone.StartsNondecreasing | server/internal/maintenance/maintenance.go:177-180 | later days never start earlier |
| Zone.StartsIncrease | server/internal/maintenance/maintenance.go:177-180 | with offset jumps under 24 hours, starts of successive days strictly increase |
| Zone.EqualStartsExactly | server/internal/maintenance/maintenance.go:63-81 | successive days start at one instant exactly when the offset jumps by a day and neither sampled offset shows the first wall time |
| Zone.StartsApart | server/internal/maintenance/maintenance.go:63-81 | starts more than a day apart are never equal, in any zone |
| Zone.EqualStartsAcrossASkippedDay | server/internal/maintenance/maintenance.go:63-81 | a zone and a time of day where they are equal |
| Zone.LookBack | server/internal/maintenance/maintenance.go:218-220 | nothing that starts before the first day searched can still run at the beginning of the range |
| Zone.LookAhead | server/internal/maintenance/maintenance.go:219-220 | in a zone whose date never turns back, a day that starts before the end of the range is not after its local date |
| Window.TrimSpaceExact | server/internal/maintenance/validate.go:41-48 | trimming a title takes away all white space at both ends and nothing else |
| Window.ValidateExact | server/internal/maintenance/validate.go:41-135 | a window is accepted exactly when it is a one-off interval with no recurrence fields or a series with every field the search relies on, never a mixture |
| Window.FieldAtFault | server/internal/maintenance/validate.go:41-135 | the field named in a refusal breaks its own rule |
| StartDays.MonthDayInside | server/internal/maintenance/maintenance.go:152-174 | the computed day stays inside its month |
| StartDays.MonthDayExact | server/internal/maintenance/maintenance.go:152-174 | it is the only day of the month with the number, or the n-th or last such weekday, that the window names |
| StartDays.RoundUpLeast | server/internal/maintenance/maintenance.go:101-103 | no multiple of the repeat lies between a count and the rounded count |
| StartDays.DailyStartExact | server/internal/maintenance/maintenance.go:99-104 | the daily search is right exactly while the saturated distance, rounded to the repeat, reaches the day asked for |
| StartDays.DailyStartPastTheSpan | server/internal/maintenance/maintenance.go:99-104 | 293 years after the anchor it answers with an earlier day |
| WeeklySearch.TurnInside | server/internal/maintenance/maintenance.go:114-129 | before the horizon of 15250 weeks a turn of the loop answers the next start day or passes over no start day |
| WeeklySearch.TurnPast | server/internal/maintenance/maintenance.go:114-129 | past it a turn answers the next selected weekday of any week, or every turn leads to the same day |
| WeeklySearch.JumpToItself | server/internal/maintenance/maintenance.go:115-119 | a day from which the jump for a repeat of three leads nowhere |
| WeeklySearch.ComesBackExactly | server/internal/maintenance/maintenance.go:114-129 | some number of turns brings an answer exactly when the repeat divides 15250 or a start day is left before the horizon |
| WeeklySearch.NextWeekly | server/internal/maintenance/maintenance.go:105-129 | the loops answer the least day not before d that the series has, or has as it is counted; they never come back exactly in that case |
| StartDays.NextMonthly | server/internal/maintenance/maintenance.go:130-142 | the loop ends at the least day not before d that an anchored month names |
| DaySearch.NextStartDate | server/internal/maintenance/maintenance.go:91-150 | the least scheduled day not before d, or none, of the series as it is searched there; or the last day in reach, or a search without end, each exactly in its case. The weekday of a day of a weekly window, counted from Monday, is a bit set in its mask, and no day passed over in a week of the series has such a weekday |
| DaySearch.AnswersExact | server/internal/maintenance/maintenance.go:91-150 | that is the next start day of the series exactly when the search comes back, a daily one is not asked past its reach and a weekly one past its horizon comes upon a week of the series |
| DaySearch.SearchMeaning | server/internal/maintenance/maintenance.go:91-150 | a search gets no further, or finds the next day in day-by-day order |
| DaySearch.AskedAgain | server/internal/maintenance/maintenance.go:220 | once a day before the one asked for is answered, a loop asking on from the answer gets it for ever |
| DaySearch.WithinSpan | server/internal/maintenance/maintenance.go:91-150 | up to 291 years after the anchor every search finds the next start day of the series |
| Occurrences.Apply | server/internal/maintenance/maintenance.go:182-198 | the loop over overrides, tied to the function the next rows are about |
| Occurrences.AppliedExact | server/internal/maintenance/maintenance.go:182-198 | what is left starts as planned and ends at the earliest of the planned end and all cuts that apply, and is not skipped or empty |
| Occurrences.AppliedNone | server/internal/maintenance/maintenance.go:184-197 | nothing is left exactly when skipped, empty, or cut at or before its start |
| Occurrences.ApplyIsIdempotent | server/internal/maintenance/maintenance.go:183-198 | applying the exceptions twice changes nothing more |
| Occurrences.ApplyIgnoresOrder | server/internal/maintenance/maintenance.go:184-193 | the order and repetition of overrides do not matter |
| Occurrences.OverrideChangesExactly | server/internal/maintenance/maintenance.go:183-198 | an added override changes an occurrence exactly when it is for its start, the occurrence is live, and it skips it or ends it before its current end |
| Occurrences.OverrideTouchesOneDay | server/internal/maintenance/maintenance.go:184-193 | an added override changes the occurrence of at most one day, unless the zone jumps over the first of two successive days |
| Occurrences.OneOverrideTwoDays | server/internal/maintenance/maintenance.go:184-193 | there one skip takes away the occurrences of both days |
| Occurrences.Occurrences | server/internal/maintenance/maintenance.go:200-227 | the search loop collects the occurrences of the next rows, for one-off and recurring windows and missing fields; it never ends exactly when some search on its way gets no further |
| Occurrences.CollectedExact | server/internal/maintenance/maintenance.go:200-227 | in a zone whose date never turns back, what it collects is exactly the live occurrences, of the series as searched, that meet [from, to) |
| Occurrences.CollectedOrMissed | server/internal/maintenance/maintenance.go:219-226 | in any zone those are what it collects and what the day after the local date of `to` starts |
| Occurrences.CollectedIsListed | server/internal/maintenance/maintenance.go:200-227 | that is the list of the series itself unless a weekly search has gone past its horizon |
| Occurrences.ListingWithinSpan | server/internal/maintenance/maintenance.go:200-227 | up to 291 years after the anchor the loop ends and the list is that of the series |
| Occurrences.ListedExact | server/internal/maintenance/maintenance.go:200-227 | the list holds exactly the live occurrences that meet [from, to) |
| Occurrences.ListedSorted | server/internal/maintenance/maintenance.go:200 | in order of their starts |
| Occurrences.WiderSearchFindsNothing | server/internal/maintenance/maintenance.go:219-226 | searching further back or ahead finds nothing more: seven days and one of look-back suffice |
| Occurrences.ListedCompleteWhen | server/internal/maintenance/maintenance.go:219-220 | in any zone with jumps under a day the list is complete exactly when the day after the local date of `to` starts no occurrence in the range |
| Schedule.ScheduledExact | server/internal/maintenance/maintenance.go:91-174 | a day is a start day exactly when it lies in the bounds and a whole number of days, weeks from Monday or months from the anchor, with its weekday a bit of the mask, or named in its month |
| Schedule.NextStartExact | server/internal/maintenance/maintenance.go:91-150 | the next start day, or none, in those terms |
| Schedule.OccurrenceExact | server/internal/maintenance/maintenance.go:61-81 | an occurrence begins on a start day, at the first instant its local clock shows the start minute, and ends its duration later, or earlier as overrides and the end of the window say |
| Schedule.OccurrenceInGap | server/internal/maintenance/maintenance.go:76-79 | if the clock jumps over that minute, the start is moved on by as much as the clock is |
| Occurrences.Current | server/internal/maintenance/maintenance.go:229-237 | the first occurrence collected at t, or no answer when collecting never ends |
| Occurrences.CurrentExact | server/internal/maintenance/maintenance.go:229-237 | that is an occurrence covering t, the earliest to start of those that do, and none is found only if none covers t |
| Upcoming.Next | server/internal/maintenance/maintenance.go:239-264 | the days served in order up to where enough were found, 10000 were inspected or the series ended, then, for a daily series asked past its reach, its last day in reach until then; never answered exactly when the walk comes to where a weekly search goes round |
| Upcoming.NextDetermined | server/internal/maintenance/maintenance.go:254-263 | no two answers meet that description |
| Upcoming.NextExact | server/internal/maintenance/maintenance.go:239-264 | the answer holds only occurrences that start later; another one is missing only if n were found or 10000 start days inspected from the day before the local date on, and then it starts no earlier than any in the answer |
| Upcoming.NextSkipsNothing | server/internal/maintenance/maintenance.go:254-263 | every occurrence starting after `after` is among those found on the walk or starts no earlier than all of them |
| Upcoming.RepeatsExactly | server/internal/maintenance/maintenance.go:254-263 | the answer ascends strictly exactly unless a daily series has no last day before the end of its reach, has an occurrence to give on the last day in reach, and is walked to there with fewer than n found and fewer than 10000 inspected |
| Cases.LastDayTwice | server/internal/maintenance/maintenance.go:254-263 | an accepted window, an instant and n = 2 for which the answer is one occurrence twice |
| Upcoming.EndedSeriesExactly | server/internal/maintenance/maintenance.go:254-263 | a weekly series that was ended and has no last day, and whose repeat does not divide 15250, goes unanswered exactly when no more than 10000 start days are left before its horizon |
| Upcoming.EndedSeriesNeverAnswers | server/internal/maintenance/maintenance.go:254-263 | with one weekday that is always so, for the repeats 3, 4, 6, 7, 8, 9, 11 and 12 |
| Cases.ThirdMondaysNeverAnswer | server/internal/maintenance/maintenance.go:254-263 | such a window, which validation accepts |
| Cases.ThirdMondaysNeverListed | server/internal/maintenance/maintenance.go:219-227 | a range for which listing its occurrences never ends |
| Cases.NightlyNeverListed | server/internal/maintenance/maintenance.go:219-227 | an accepted daily window and a range for which listing never ends, and an instant at which asking for the outage never ends |
| Upcoming.MissedWhenTheDateTurnsBack | server/internal/maintenance/maintenance.go:219-236 | where clocks go back over midnight a running occurrence is not listed |
| Outage.SortSorts | server/internal/maintenance/maintenance.go:277 | sorting by start keeps exactly the occurrences gathered |
| Outage.Stretch | server/internal/maintenance/maintenance.go:278-292 | touching and overlapping occurrences of a sorted list are merged fully and never across a gap |
| Outage.ActiveAt | server/internal/maintenance/maintenance.go:270-298 | where dates never turn back: active exactly when some occurrence of some window covers t; all of [t, until) is covered; until is uncovered or 32 days ahead; so from the instant the local clock shows the start minute of a start day until the duration has passed the answer is an outage that lasts at least as long. In any zone: that is so exactly when until is the horizon or nothing missed covers the end given. Never answered exactly when collecting the occurrences of some window never ends |
| Cases.EveningOutage | server/internal/maintenance/maintenance.go:270-298 | an hour from 22:00 every day: at 22:30 the outage ends at 23:00, at 00:30 there is none |
| Outage.MaintenanceAsSearched | server/internal/maintenance/maintenance.go:270-298 | the occurrences searched are those of the windows, before the horizon of every weekly window |
| Outage.OutageEndUnique | server/internal/maintenance/maintenance.go:270-298 | so the end is determined |
| AlertDb.ChangeFrame | server/internal/alertengine/dispatch.go:148-186 | whatever part of a change gets through, the tables stay consistent and no key but that of the changed alert differs |
| AlertDb.AllOrNothing | server/internal/alertengine/dispatch.go:138-186 | a change that gets through stands up to its mark, and the outbox gains exactly one row per recipient, with the mark cleared, or nothing |
| AlertDb.MutateKeepsValid | server/internal/alertengine/stores.go:17-30 | creating, re-levelling and resolving keep at most one active alert per key, and a created alert is new |
| AlertDb.OpeningExact | server/internal/alertengine/dispatch.go:148-180 | an opening leaves the new alert, marked exactly in maintenance, and otherwise one more row per recipient |
| AlertDb.RelevelExact | server/internal/alertengine/dispatch.go:148-180 | a level change leaves the row with the new level, marked in maintenance, and otherwise one more row per recipient |
| AlertDb.ClosingExact | server/internal/alertengine/dispatch.go:148-180 | a resolution leaves no active alert, the reading that ended it if any, no mark, and one more row per recipient unless in maintenance or marked before |
| Lifecycle.MoveKeepsSound | server/internal/alertengine/dispatch.go:138-186 | every engine operation keeps: active alerts are announced or marked, resolved ones never marked, messages in order |
| Lifecycle.RunKeepsSound | server/internal/alertengine/dispatch.go:138-186 | so does every run, acknowledgements in between included |
| Lifecycle.StoryOfARun | server/internal/alertengine/dispatch.go:138-186 | from an empty database, a resolution is about a resolved alert, follows an announcement of it, goes once to each recipient, and nothing else about it comes after |
| Lifecycle.ResolvedIsFinal | server/internal/alertengine/dispatch.go:268-284 | once resolved, an alert never changes and nothing more is queued for it |
| Lifecycle.SettleQueues | server/internal/alertengine/dispatch.go:148-180 | resolving queues one row per recipient unless the host is in maintenance or the alert is marked, and leaves no mark |
| Lifecycle.LevelChangeSilencesResolution | server/internal/alertengine/dispatch.go:156-162 | a level change in maintenance silences the resolution too |
| Lifecycle.UnannouncedExactly | server/internal/alertengine/dispatch.go:155-180 | resolving tells somebody of an alert nobody was told of exactly when it is neither marked nor announced, outside maintenance, with somebody to tell |
| Lifecycle.MarkedOrAnnounced | server/internal/alertengine/dispatch.go:155-180 | an opening, level change or reminder of an untold alert leaves it marked in maintenance, announced with somebody to tell, and otherwise neither |
| Lifecycle.ResolvedUnannouncedExactly | server/internal/alertengine/dispatch.go:155-180 | so its resolution is unannounced exactly when nobody was to be told then, outside maintenance, and somebody is now |
| Lifecycle.ResolvedWithoutAnnouncement | server/internal/alertengine/dispatch.go:163-167 | a run in which that happens |
| Dispatch.Store.CreateIfNoneActive | server/internal/alertengine/stores.go:21 | creates only when no alert of the key is active |
| Dispatch.Store.Enqueue | server/internal/alertengine/dispatch.go:118-136 | one row per recipient, in order; on an error a prefix of them is left for the savepoint to undo |
| Dispatch.Store.Notify | server/internal/alertengine/dispatch.go:156-180 | the notification is sent whole with the mark cleared, or undone whole |
| Dispatch.Store.Change | server/internal/alertengine/dispatch.go:148-186 | under any failures: on an error the database is as before; otherwise the alert change stands and the notification is whole or absent |
| Conditions.DurationClosedForm | server/internal/alertengine/engine.go:505-534 | the step-by-step phase is waiting since the first evaluation of the current unbroken run, firing once that is the duration ago |
| Conditions.MissingClosedForm | server/internal/alertengine/engine.go:363-425 | report by report, a mount is missing exactly when expected and absent from the last three |
| Conditions.ReadOnlyClosedForm | server/internal/alertengine/status.go:186-222 | report by report, a mount alerts exactly when read-only now and writable in some earlier report |
| Engine.Engine.LoadState | server/internal/alertengine/engine.go:177-207 | the cache read for a report follows the database and misses nothing of the host |
| Engine.Engine.ChangeLevel | server/internal/alertengine/engine.go:544-566 | in case of an error as of success the cached level and status are those of the row; without failures every recipient is told of the new level once, in maintenance nobody and the alert is marked; an acknowledged alert that rises is open again; the reading and the threshold are noted |
| Engine.Engine.OpenAlert | server/internal/alertengine/engine.go:570-594 | likewise for opening, also when another evaluation opened the alert first; outside maintenance every recipient is told once and there is no mark, in maintenance nobody is told and the alert is marked |
| Engine.Engine.Sustained | server/internal/alertengine/engine.go:209-228 | true once the condition has lasted; a new condition is recorded as beginning now |
| Engine.Engine.ClearPending | server/internal/alertengine/engine.go:230-241 | the waiting record of the key goes from table and cache, and nothing else |
| Engine.Engine.ResolveAndNotify | server/internal/alertengine/dispatch.go:268-284 | without failures exactly the resolution with its notification: every recipient is told once unless in maintenance or marked; only the alert's key differs |
| Engine.Engine.ApplyThreshold | server/internal/alertengine/engine.go:489-535 | the key takes its threshold step, what that opens, changes or resolves is told by the rules, and an alert opened or changed carries the reading and the threshold reached; other keys, the cache invariant, "never waiting and firing" and the message order are kept |
| Engine.Engine.ReconcileOne | server/internal/alertengine/status.go:35-64 | a subject takes its condition's step, and what that opens, changes or resolves is told by the rules; it is untouched when nothing is known |
| Engine.BackedRow | server/internal/alertengine/engine.go:160-173 | a cached alert that agrees with the row of its key is that row, and active |
| Status.Reconcile | server/internal/alertengine/status.go:27-79 | every subject takes the step of its condition and is told of by the rules; a complete list also clears all it does not name; other kinds and hosts are untouched |
| Status.ResolveAll | server/internal/alertengine/status.go:81-84 | every subject of the kind is idle afterwards |
| Numeric.EvaluateSubjects | server/internal/alertengine/numeric.go:39-61 | each subject with a value and a threshold takes its threshold step, the others are cleared; no data changes nothing |
| Mounts.JudgeDisks | server/internal/alertengine/engine.go:302-345 | every judged mount is at the level of its last listed reading |
| Mounts.EvaluateDisks | server/internal/alertengine/engine.go:302-345 | a disk alert is active exactly when its mount is listed, selected, has a threshold and reads at or above it |
| Mounts.EvaluateMissingMounts | server/internal/alertengine/engine.go:363-425 | a missing alert is open exactly when expected, not listed, and open before or gone three times; new ones are critical; all is told by the rules |
| Mounts.EvaluateReadOnly | server/internal/alertengine/status.go:186-222 | by its last entry a mount that is writable closes, one whose state is unknown stays, and a read-only one fires if it was last known writable in the report before or fires already; unlisted ones are cleared |
| Mounts.PreviousReadOnly | server/internal/alertengine/status.go:224-239 | the known states of the report before, none when it cannot be read |
| Signals.EvaluateKills | server/internal/alertengine/status.go:158-184 | a rise fires at once; without one the alert lasts until the seconds of the rule have passed since the last; other kinds are untouched |
| Signals.KillsClosedForm | server/internal/alertengine/status.go:158-184 | over any run it is active exactly when the counter rose in the last report or less than the duration before it |
| Signals.EvaluateTimeSync | server/internal/alertengine/status.go:271-300 | unsynced follows the clock, the source its problem while the clock is synchronized, each firing once the seconds of its rule have passed; unknown states change nothing and the offset subject stays |
| Signals.EvaluateTimeOffset | server/internal/alertengine/numeric.go:85-96 | the offset subject moves by its threshold and the state subjects stay |
| Reports.SettledLocally | server/internal/alertengine/engine.go:138-150 | what a report settles of one kind depends on no other kind |
| Reports.EvaluateReport | server/internal/alertengine/engine.go:135-150 | without failures one report settles each of eight kinds by its own rule, judged on the tables as they were before it, and tells every recipient of exactly what it opened, changed and resolved, by the maintenance rules; other kinds and hosts are untouched and untold of under any failures |
| History.RestsBetweenReports | server/internal/alertengine/dispatch.go:229-266 | acknowledgements, flushes and reports of other hosts move no key of the host |
| History.UsageFollows | server/internal/alertengine/engine.go:302-345 | over any run of reports a disk alert is active exactly when, in the last report that listed disks, the last entry of its mount is at or above a threshold and the mount selected; critical exactly at or above the critical one |
| History.MissingFollows | server/internal/alertengine/engine.go:363-425 | over any run a mount is reported missing, as critical, exactly when expected and gone from the last three reports that listed disks |
| History.ReadOnlyFollows | server/internal/alertengine/status.go:186-239 | over any run that knows the mount's state, it alerts, at the level of the rule, exactly when read-only now and writable in some earlier report |
| History.MeasuredFollows | server/internal/alertengine/engine.go:491-535 | over any run the alert of a cpu, ram, latency or temperature subject is active exactly when its last reading is at or above a threshold and all have been for the seconds of the threshold, critical exactly when the last one reaches the critical threshold; leaving the list breaks the run, reports without data do not count |
| History.NoThresholdNoAlert | server/internal/alertengine/engine.go:491-500 | a subject without a threshold never has an alert |
| Deferred.FlushExact | server/internal/alertengine/dispatch.go:229-266 | a flush clears the mark of exactly the due alerts and queues one message per recipient for each; nothing else changes |
| Deferred.NothingLeftDue | server/internal/alertengine/dispatch.go:229-266 | afterwards no active alert of a host outside maintenance is marked |
| Deferred.FlushDeferred | server/internal/alertengine/dispatch.go:232-266 | the loop with its per-host memory does exactly that, and keeps the message order |
| Deferred.FlushTells | server/internal/alertengine/dispatch.go:229-266 | so every active marked alert of a host outside maintenance is told of once with the level it has now, and nothing changes about any other |
| Deferred.RaiseOffline | server/internal/alertengine/engine.go:617-635 | a silent host has one active, critical offline alert, told of once by the rules, however often it is reported silent |
| Deferred.ResolveOffline | server/internal/alertengine/engine.go:602-615 | a host that reports again has none, and that is told by the rules |
| RateLimit.AvailLater | server/internal/ratelimit/ratelimit.go:88-89 | refilling in steps gives what refilling at once gives: looking at a bucket changes nothing |
| RateLimit.IdleIsFull | server/internal/ratelimit/ratelimit.go:101-116 | a bucket idle for a whole refill is as good as none |
| RateLimit.Limiter.Sweep | server/internal/ratelimit/ratelimit.go:104-116 | exactly the buckets idle for a refill go, at most once a minute, and no key's ideal bucket changes |
| RateLimit.Limiter.Take | server/internal/ratelimit/ratelimit.go:70-99 | answer and wait are those of a bucket that was never swept; only a token given changes what a key holds |
| RateLimit.AvailExactly | server/internal/ratelimit/ratelimit.go:88-99 | at least x tokens are left exactly when x is within the capacity and, from every admission on, x and the admissions are within the capacity and the refill since |
| RateLimit.TokenExactly | server/internal/ratelimit/ratelimit.go:88-99 | so a request is admitted exactly when, with it, no interval ending now would exceed burst plus rate times length |
| RateLimit.Limiter.Allow | server/internal/ratelimit/ratelimit.go:59-62 | takes a token exactly in that case |
| RateLimit.Limiter.Check | server/internal/ratelimit/ratelimit.go:64-68 | answers as Allow would and changes no later answer |
| RateLimit.AdmissionsBounded | server/internal/ratelimit/ratelimit.go:18-27 | an interval of any length admits at most burst plus rate times length |
| RateLimit.WaitIsExact | server/internal/ratelimit/ratelimit.go:91-94 | a token is there exactly from the reported wait on |
| RateLimit.Limiter.Snapshot | server/internal/ratelimit/ratelimit.go:137-165 | lists exactly the keys whose ideal bucket is not full, with what it holds, least first then by key as strings are ordered, cut to the maximum; changes nothing |
| RateLimit.OneEntryEach | server/internal/ratelimit/ratelimit.go:147-153 | no key is listed twice |
| RateLimit.FirstOf | server/internal/ratelimit/ratelimit.go:161-163 | what the maximum cuts off comes after all that is shown |
| LogReader.Found | server/internal/logging/reader.go:258-296 | the matches up to a line: each carries the text, is accepted at its own or inherited time, and they ascend |
| LogReader.FoundAll | server/internal/logging/reader.go:258-296 | and none is left out |
| LogReader.InheritedTimeExact | server/internal/logging/reader.go:278-287 | a line inherits the time of the last timed line exactly when that line carries the text too, or there is none |
| LogReader.OlderTimeInherited | server/internal/logging/reader.go:278-287 | a case where it inherits a much older time |
| LogReader.MatchesExact | server/internal/logging/reader.go:258-296 | the matches are the lines that carry the text in any case, whose level is not below the least, with the request id and an own or inherited time in the range asked for |
| LogReader.PageOf | server/internal/logging/reader.go:299-312 | a page that says where to go on is full, and the next starts below it |
| LogReader.Look | server/internal/logging/reader.go:278-295 | one line of the scan keeps the ring at the last limit + 1 matches and the time to inherit |
| LogReader.Read | server/internal/logging/reader.go:219-313 | the scan over all parts returns the lines asked for below the cursor, newest first; one is left out only if the page is full, older ones follow on the next page and it is older than all shown; or the error of a day not of the form dddd-dd-dd, a bad limit or a day without files |
| LogReader.FoundStable | server/internal/logging/reader.go:278-290 | whether a line matches depends on it and earlier lines only |
| LogReader.PagesTogether | server/internal/logging/reader.go:212-223 | following the cursor ends, and the pages together are every match the day held at first, newest first, each once, even while the day grows |
| LogWriter.FileBytesFor | server/internal/logging/filewriter.go:335-342 | the part size is a quarter of the total between one byte and 100 MB |
| LogWriter.FileWriter.OpenPart | server/internal/logging/filewriter.go:175-199 | goes on in the day's last part unless compressed or full, else in the next; the open part is the last one listed |
| LogWriter.FileWriter.Rotate | server/internal/logging/filewriter.go:201-214 | the finished part is handed to compression and the limits applied, with the new part protected |
| LogWriter.FileWriter.Write | server/internal/logging/filewriter.go:116-144 | the day's text grows by exactly what is written; a part exceeds its size only by a single write |
| LogWriter.FileWriter.Compressed | server/internal/logging/filewriter.go:216-238 | compression changes a part's size and never what the day reads; the limits are applied again |
| LogWriter.FileWriter.Prune | server/internal/logging/filewriter.go:344-382 | the two loops remove what the next rows describe |
| LogWriter.OldGo | server/internal/logging/filewriter.go:359-371 | a part survives the age limit exactly when protected or young enough |
| LogWriter.ProtectedStay | server/internal/logging/filewriter.go:372-381 | the open part and parts being compressed are never removed |
| LogWriter.WithinLimit | server/internal/logging/filewriter.go:372-381 | in the end the total is within the limit or only protected parts are left |
| LogWriter.OldestGoFirst | server/internal/logging/filewriter.go:372-381 | parts that go are older than the unprotected ones that stay |
| LogWriter.NoneGoesNeedlessly | server/internal/logging/filewriter.go:372-381 | with the last part removed the limit would still be exceeded |
| LogWriter.PrunedExact | server/internal/logging/filewriter.go:344-382 | all that together of the two loops one after the other |
| LogWriter.KillExact | server/internal/logging/filewriter.go:379-388 | removing a part takes its text out of the day's reading and no other; what was ever written is as it was |
| LogWriter.WholeDay | server/internal/logging/reader.go:89-104 | a day none of whose parts was removed reads exactly as it was written |
| LogWriter.FileWriter.WriteDay | server/internal/logging/reader.go:144-174 | the parts in listing order read as the writes of the day in order, minus whole removed parts |
| LogWriter.FileWriter.SetLimits | server/internal/logging/filewriter.go:319-333 | refuses limits below one; otherwise sets them, derives the part size and applies them |
| LogWriter.FileWriter.CompressLeftovers | server/internal/logging/filewriter.go:308-317 | exactly the uncompressed parts other than the open one are handed to compression |
| LogWriter.OpenFile | server/internal/logging/filewriter.go:66-113 | a new writer goes on from the parts of an earlier run: what they hold counts as written, today's part is open, limits are applied; half-known limits are refused |
| Migrate.PrefixExact | server/internal/migrate/migrate.go:207-240 | the history is a checksum-matching prefix exactly when each line is known as it was and no migration was skipped |
| Migrate.MakePlan | server/internal/migrate/migrate.go:205-240 | pending exactly for such a prefix, and then the remaining suffix; each error exactly in its case, the first unfit line deciding |
| Migrate.Database.Apply | server/internal/migrate/migrate.go:276-294 | wherever begin, execution, insertion or commit fails, also because the migration does not fit the tables, nothing of the transaction is left; otherwise it is executed and recorded, and only if its version was not recorded |
| Migrate.Database.Up | server/internal/migrate/migrate.go:242-274 | without failures everything pending runs in order, up to the first migration that does not fit the tables; refused as made by hand exactly when there is no history table but the tables are there; a failure keeps those applied so far; the history stays an orderly prefix |
| Migrate.RanOnceInOrder | server/internal/migrate/migrate.go:3-10 | in an orderly history no migration ran twice or after a later one, and each that ran is recorded |
| Migrate.RunsStayOrderly | server/internal/migrate/migrate.go:3-10 | over any run of upgrades, adoptions and interruptions, by binaries whose lists extend one another, the history stays a prefix and each migration ran at most once, in order |
| Migrate.RunsFromTheStart | server/internal/migrate/migrate.go:3-10 | so it does over every run from an empty database or one made by hand |
| Migrate.Database.Baseline | server/internal/migrate/migrate.go:348-404 | records the migrations up to a known version without executing them, only when there is no history; otherwise leaves at most an empty history table |
| Migrate.AdoptedIsPrefix | server/internal/migrate/migrate.go:389-402 | the migrations recorded are those up to the version, a prefix |
| Migrate.Database.RequireUpToDate | server/internal/migrate/migrate.go:296-319 | succeeds only, and without failures always, on a history that records every known migration |
| Migrate.LegacyRefusedExactly | server/internal/migrate/migrate.go:163-179 | a database with tables and no recorded migration is refused exactly when it has no history table, and else taken for empty: planned with every migration |
| Migrate.InterruptedAdoption | server/internal/migrate/migrate.go:382-390 | an adoption interrupted after it made the history table leaves a database that is not refused and for which every migration is pending |
| Migrate.RunAfterInterruption | server/internal/migrate/migrate.go:256-294 | a run then attempts the first migration and leaves the database as it is exactly when that does not fit the existing tables |
| Services.ServiceReporter.Next | agent/internal/report/services.go:31-57 | the loops send everything at first and five minutes after the last full list, otherwise what is troubled, new or not as it was; unknown services send and change nothing |
| Services.Items | agent/internal/report/services.go:40-47 | a report carries exactly the services that are due, troubled, new or changed |
| Services.OneReport | agent/internal/report/services.go:40-57 | a report keeps a receiver that agreed in agreement, and a full one brings any receiver to it |
| Services.ReceiverAgrees | agent/internal/report/services.go:16-24 | whenever no report was lost since the last full one, the receiver has every current service as it is; a receiver that stores like the server may keep an older restart count where none is known |
| Services.NothingLost | agent/internal/report/services.go:38-39 | when all reports arrive that is always so, from the first report on |
| Services.FullRecently | agent/internal/report/services.go:35-39 | while services are known a full list goes out at least every five minutes |
| Services.TroubledArrive | agent/internal/report/services.go:16-23 | whatever was lost, any report that arrives brings every service up to date that failed, is on its way or restarts by itself |
| Services.FullListExact | server/internal/store/host_services.go:75-79 | after a full list the receiver lists exactly the current services |
| Services.RestartsExact | server/internal/store/host_services.go:54-56 | the server shows the count it is told exactly when it is known or none was before |
| Services.CountOutlivesFullList | server/internal/store/host_services.go:54-79 | a full list does not make a count unknown again |
| AgentPkg.ParseFileName | server/internal/agentpkg/agentpkg.go:98-111 | every accepted version, architecture and format is read back from its name |
| AgentPkg.FileNameParse | server/internal/agentpkg/agentpkg.go:45-63 | a recognised name is written again exactly when its version has at most 64 characters |
| AgentPkg.FileNameInjective | server/internal/agentpkg/agentpkg.go:45-63 | distinct packages never share a name |
| AgentPkg.FileNameSpelled | server/internal/agentpkg/agentpkg.go:23-63 | a package has a name exactly when its version is three numbers and possibly a pre-release, of at most 64 characters, and its architecture and format are known, and then that name, letter by letter |
| AgentPkg.Unambiguous | server/internal/agentpkg/agentpkg.go:23-27 | no string matches two patterns, or one in two ways |
| AgentPkg.NameIsRead | server/internal/agentpkg/agentpkg.go:98-111 | a name is read as the package it names |
| AgentPkg.ReadIsName | server/internal/agentpkg/agentpkg.go:98-111 | only names are read |
| AgentPkg.SeparatorSwapped | server/internal/agentpkg/agentpkg.go:100-106 | writing a version with the other separator and back gives the version, and it stays a version |
| AgentPkg.NoPathSeparator | server/internal/agentpkg/agentpkg.go:98-100 | a recognised name holds no path separator |

## Left out

- HTTP, authentication, secrets, mail, the panel, configuration, notification text, the agent's collectors.
- SQL: the stores are modelled by what their interfaces promise; unfinished statements are failures that leave nothing.
- Delivery of queued messages (claims, leases, retries): `Claim` is not part of this model.
- Alerts of containers, services, RAID arrays, reboot and update flags: each is one list of conditions for `Status.Reconcile`
  or one value for `Engine.Engine.ApplyThreshold`, so they would add easy members only. `Signals` is not composed into
  `Reports.EvaluateReport`.
- How conditions are read from system data (states of arrays, problems of a time source) and restart counts over ten minutes.
- Concurrent evaluations of one host and acknowledgements in the middle of an evaluation; acknowledgements between
  operations are in `Lifecycle` and `History`.
- The clock is read once per evaluation, where the code reads it anew for each condition.
- The order in which the subjects of one kind are evaluated (sorted in the code): results do not depend on it, the order of
  queued messages does.
- Zero dates and instants as marks of "not found" (`IsZero`): the model uses options, so it does not follow the code for a day
  or a start that is itself January 1 of year 1.
- Reports.EvaluateReport: a mount listed twice in one report is judged twice, and what is told of its two judgements is not
  stated; its level is (`History.UsageFollows`).
- Zones that change their offset twice within 96 hours, or by fractions of a minute.
- Window titles and scopes are only validated; who may edit a window is not modelled.
- RateLimit.Limiter.Take: exact reals, where the code uses floating point and waits in whole nanoseconds; the clock does not
  step back; the lock is not modelled. Rate changes (`SetRate`) credit idle time at the new rate, so the equivalence does not
  hold across them.
- LogReader.Read: how a line is parsed is a given of each line; lower case is that of ASCII; lines cut at 256 KB,
  cancellation, read errors and unreadable level names are left out, and a level below zero filters nothing, as in the code.
- LogWriter.FileWriter.Write: no I/O errors, days that do not decrease, compression as one step that succeeds or changes
  nothing; writing after `Close` is not modelled. The directory is its listing: files of other names are ignored.
- LogWriter.OpenFile: checks of the path itself.
- Migrate.Database.Up: what SQL does is given by which migrations fit which tables; one that runs leaves the
  `organizations` table in place, as the first one creates it; a commit whose outcome is unknown is not modelled; the
  advisory lock makes runs one after the other.
- Loading migrations from files, downloading and storing packages, recognising package formats by their first bytes.
- Services.ServiceReporter.Next: descriptions, start times and the enabled flag travel along but are not compared, so they
  are left out; the server's restart history is not modelled.

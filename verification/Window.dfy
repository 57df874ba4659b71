/** Maintenance windows and the rules they must meet before they are stored. */
module Window {
  import opened Options

  datatype Recurrence = Once | Daily | Weekly | Monthly | Unknown(name: string)

  /** A skipped occurrence (no endedAt) or one ended early. */
  datatype Override = Override(occurrenceStart: int, endedAt: Option<int>)

  // The day number standing for "the last one" in monthDay and monthWeek.
  const MONTH_LAST: int := -1

  /** Instants are in nanoseconds, validFrom and validUntil are calendar days, weekdays is a mask with Monday in bit
      0. */
  datatype MaintenanceWindow = MaintenanceWindow(
    id: int, title: string, recurrence: Recurrence,
    startsAt: Option<int>, endsAt: Option<int>,
    startMinute: Option<int>, durationMinutes: Option<int>, repeatEvery: int,
    weekdays: Option<int>, monthDay: Option<int>, monthWeek: Option<int>, monthWeekday: Option<int>,
    validFrom: Option<int>, validUntil: Option<int>, endedAt: Option<int>,
    hostIds: seq<int>, orgIds: seq<int>, overrides: seq<Override>)

  const MAX_TITLE: int := 200
  const MAX_DAILY_MINUTES: int := 24 * 60
  const MAX_LONG_MINUTES: int := 7 * 24 * 60
  const MAX_DAILY_REPEAT: int := 30
  const MAX_WEEKLY_REPEAT: int := 12
  const MAX_MONTHLY_REPEAT: int := 12
  const MAX_MONTH_DAY: int := 28
  const MAX_MONTH_WEEK: int := 4
  const ALL_WEEKDAYS: int := 127
  const MINUTES_IN_DAY: int := 24 * 60

  /** White space as Unicode defines it. */
  predicate IsSpace(c: char) {
    var n := c as int;
    || 9 <= n <= 13 || n == 32 || n == 0x85 || n == 0xA0 || n == 0x1680
    || 0x2000 <= n <= 0x200A || n == 0x2028 || n == 0x2029 || n == 0x202F || n == 0x205F || n == 0x3000
  }

  function TrimSpace(s: string): string {
    if s == [] then s
    else if IsSpace(s[0]) then TrimSpace(s[1..])
    else if IsSpace(s[|s| - 1]) then TrimSpace(s[..|s| - 1])
    else s
  }

  /** The code points of white space. */
  const WHITE: seq<int> := [9, 10, 11, 12, 13, 32, 133, 160, 5760, 8192, 8193, 8194, 8195, 8196, 8197, 8198, 8199, 8200,
                            8201, 8202, 8232, 8233, 8239, 8287, 12288]

  lemma IsSpaceExact(c: char)
    ensures IsSpace(c) <==> c as int in WHITE
  {
  }

  /** Trimming takes away all white space at both ends and nothing else. */
  lemma {:induction false} TrimSpaceExact(s: string) returns (i: nat, j: nat)
    ensures i <= j <= |s| && TrimSpace(s) == s[i..j]
    ensures forall k :: 0 <= k < i || j <= k < |s| ==> IsSpace(s[k])
    ensures i < j ==> !IsSpace(s[i]) && !IsSpace(s[j - 1])
  {
    hide IsSpace;
    i, j := 0, |s|;
    if s != [] && IsSpace(s[0]) {
      i, j := TrimSpaceExact(s[1..]);
      i, j := i + 1, j + 1;
    } else if s != [] && IsSpace(s[|s| - 1]) {
      i, j := TrimSpaceExact(s[..|s| - 1]);
    }
  }

  /** The name of the first field that breaks a rule, if any. */
  function Validate(w: MaintenanceWindow): Option<string> {
    var title := TrimSpace(w.title);
    if title == "" || |title| > MAX_TITLE then Some("title")
    else if w.hostIds == [] && w.orgIds == [] then Some("scope")
    else match w.recurrence
      case Once => ValidateOnce(w)
      case Unknown(_) => Some("recurrence")
      case _ => ValidateRecurring(w)
  }

  function ValidateOnce(w: MaintenanceWindow): Option<string> {
    if w.startsAt.None? then Some("starts_at")
    else if w.endsAt.None? then Some("ends_at")
    else if !(w.endsAt.value > w.startsAt.value) then Some("ends_at")
    else if w.startMinute.Some? || w.durationMinutes.Some? || w.validFrom.Some? || w.validUntil.Some?
         || w.weekdays.Some?
            || w.monthDay.Some? || w.monthWeek.Some? || w.monthWeekday.Some? || w.repeatEvery > 1
               then Some("recurrence")
    else None
  }

  function ValidateRecurring(w: MaintenanceWindow): Option<string> {
    var maxMinutes := if w.recurrence.Daily? then MAX_DAILY_MINUTES else MAX_LONG_MINUTES;
    var maxRepeat := if w.recurrence.Daily? then MAX_DAILY_REPEAT
                     else if w.recurrence.Monthly? then MAX_MONTHLY_REPEAT else MAX_WEEKLY_REPEAT;
    var weekly, monthly := w.recurrence.Weekly?, w.recurrence.Monthly?;
    if w.startsAt.Some? || w.endsAt.Some? then Some("recurrence")
    else if w.startMinute.None? || w.startMinute.value < 0 || w.startMinute.value >= MINUTES_IN_DAY
         then Some("start_minute")
    else if w.durationMinutes.None? || w.durationMinutes.value < 1 || w.durationMinutes.value > maxMinutes
         then Some("duration_minutes")
    else if w.repeatEvery < 1 || w.repeatEvery > maxRepeat then Some("repeat_every")
    else if w.validFrom.None? then Some("valid_from")
    else if w.validUntil.Some? && w.validUntil.value < w.validFrom.value then Some("valid_until")
    else if weekly && (w.weekdays.None? || w.weekdays.value <= 0 || w.weekdays.value > ALL_WEEKDAYS)
         then Some("weekdays")
    else if !weekly && w.weekdays.Some? then Some("weekdays")
    else if !monthly && (w.monthDay.Some? || w.monthWeek.Some? || w.monthWeekday.Some?) then Some("month_day")
    else if !monthly then None
    else ValidateMonthly(w)
  }

  function ValidateMonthly(w: MaintenanceWindow): Option<string> {
    if w.monthDay.Some? && (w.monthWeek.Some? || w.monthWeekday.Some?) then Some("month_day")
    else if w.monthDay.Some? then
      var d := w.monthDay.value;
      if d != MONTH_LAST && (d < 1 || d > MAX_MONTH_DAY) then Some("month_day") else None
    else if w.monthWeek.None? || w.monthWeekday.None? then Some("month_day")
    else if w.monthWeek.value != MONTH_LAST && (w.monthWeek.value < 1 || w.monthWeek.value > MAX_MONTH_WEEK)
         then Some("month_week")
    else if w.monthWeekday.value < 1 || w.monthWeekday.value > 7 then Some("month_weekday")
    else None
  }

  /** Exactly one way of naming the day of a month. */
  predicate NamesMonthDay(w: MaintenanceWindow) {
    match (w.monthDay, w.monthWeek, w.monthWeekday)
    case (Some(d), None, None) => d == MONTH_LAST || 1 <= d <= 28
    case (None, Some(n), Some(wd)) => (n == MONTH_LAST || 1 <= n <= 4) && 1 <= wd <= 7
    case _ => false
  }

  /** What the search for start days and the look-back rely on. */
  predicate Schedulable(w: MaintenanceWindow) {
    && (w.recurrence.Daily? || w.recurrence.Weekly? || w.recurrence.Monthly?)
    && w.startMinute.Some? && 0 <= w.startMinute.value < 1440
    && w.durationMinutes.Some? && 1 <= w.durationMinutes.value <= (if w.recurrence.Daily? then 1440 else 10080)
    && 1 <= w.repeatEvery <= (if w.recurrence.Daily? then 30 else 12)
    && w.validFrom.Some? && (w.validUntil.Some? ==> w.validFrom.value <= w.validUntil.value)
    && (if w.recurrence.Weekly? then w.weekdays.Some? && 1 <= w.weekdays.value <= 127 else w.weekdays.None?)
    && (if w.recurrence.Monthly? then NamesMonthDay(w)
        else w.monthDay.None? && w.monthWeek.None? && w.monthWeekday.None?)
  }

  predicate OneOff(w: MaintenanceWindow) {
    && w.recurrence.Once?
    && w.startsAt.Some? && w.endsAt.Some? && w.startsAt.value < w.endsAt.value
  }

  predicate NoRecurrenceFields(w: MaintenanceWindow) {
    && w.startMinute.None? && w.durationMinutes.None? && w.validFrom.None? && w.validUntil.None? && w.repeatEvery <= 1
    && w.weekdays.None? && w.monthDay.None? && w.monthWeek.None? && w.monthWeekday.None?
  }

  /** A stored window is either a one-off interval with no recurrence fields or a schedulable
      series, never a mixture. */
  lemma ValidateExact(w: MaintenanceWindow)
    ensures Validate(w).None? <==>
              && 1 <= |TrimSpace(w.title)| <= 200
              && (w.hostIds != [] || w.orgIds != [])
              && ((OneOff(w) && NoRecurrenceFields(w)) || (Schedulable(w) && w.startsAt.None? && w.endsAt.None?))
  {
    if w.recurrence.Monthly? && w.monthDay.Some? {
      assert ValidateMonthly(w).None? <==> NamesMonthDay(w);
    }
  }

  /** The field that is named breaks its own rule. */
  lemma FieldAtFault(w: MaintenanceWindow)
    ensures var f := Validate(w);
            var n, maxMinutes := w.repeatEvery, if w.recurrence.Daily? then 1440 else 10080;
            f.Some? ==>
              match f.value
              case "title" => TrimSpace(w.title) == "" || |TrimSpace(w.title)| > 200
              case "scope" => w.hostIds == [] && w.orgIds == []
              case "starts_at" => w.recurrence.Once? && w.startsAt.None?
              case "ends_at" => w.recurrence.Once? && w.startsAt.Some?
                                && (w.endsAt.None? || w.endsAt.value <= w.startsAt.value)
              case "start_minute" => w.startMinute.None? || !(0 <= w.startMinute.value < 1440)
              case "duration_minutes" => w.durationMinutes.None? || !(1 <= w.durationMinutes.value <= maxMinutes)
              case "repeat_every" => !(1 <= n <= if w.recurrence.Daily? then 30 else 12)
              case "valid_from" => w.validFrom.None?
              case "valid_until" => w.validUntil.Some? && w.validFrom.Some? && w.validUntil.value < w.validFrom.value
              case "weekdays" => if w.recurrence.Weekly? then w.weekdays.None? || !(1 <= w.weekdays.value <= 127)
                                 else w.weekdays.Some?
              case "month_day" => if w.recurrence.Monthly? then
                                    if w.monthDay.Some? then w.monthWeek.Some? || w.monthWeekday.Some?
                                                             || !(w.monthDay.value == -1 || 1 <= w.monthDay.value <= 28)
                                    else w.monthWeek.None? || w.monthWeekday.None?
                                  else w.monthDay.Some? || w.monthWeek.Some? || w.monthWeekday.Some?
              case "month_week" => w.monthWeek.Some? && w.monthWeek.value != -1 && !(1 <= w.monthWeek.value <= 4)
              case "month_weekday" => w.monthWeekday.Some? && !(1 <= w.monthWeekday.value <= 7)
              case "recurrence" => w.recurrence.Unknown? || (w.recurrence.Once? && !NoRecurrenceFields(w))
                                   || (!w.recurrence.Once? && (w.startsAt.Some? || w.endsAt.Some?))
              case _ => false
  {
    hide TrimSpace;
  }
}

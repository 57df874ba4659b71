/** Start days and occurrences in plain terms: the fields of a window, day numbers and the local clock. */
module Schedule {
  import opened Calendar
  import opened DaySearch
  import opened Occurrences
  import opened Options
  import opened StartDays
  import opened Window
  import opened Zone

  // ---- start days

  ghost predicate InTheMonth(m: int, day: int) { MonthStart(m) <= day < MonthStart(m + 1) }

  /** The n-th (or last, for -1) weekday of the month, or the day numbered k (or last). */
  ghost predicate NamedIn(w: MaintenanceWindow, m: int, day: int) {
    var first, next := MonthStart(m), MonthStart(m + 1);
    && InTheMonth(m, day)
    && if w.monthDay.Some? then day == if w.monthDay.value == -1 then next - 1 else first + w.monthDay.value - 1
       else
         && w.monthWeek.Some? && w.monthWeekday.Some? && day % 7 == w.monthWeekday.value - 1
         && if w.monthWeek.value == -1 then next <= day + 7
            else first + 7 * (w.monthWeek.value - 1) <= day < first + 7 * w.monthWeek.value
  }

  /** The month lies a whole number of steps from the anchor's. */
  ghost predicate MonthsOn(anchor: int, m: int, n: int)
    requires n > 0
  {
    exists k :: InTheMonth(k, anchor) && (m - k) % n == 0
  }

  /** A window starts on the day: weeks begin on Monday (days divisible by 7), bit k of the mask is the k-th weekday
      from Monday, months are counted from the anchor's. */
  ghost predicate StartsOn(w: MaintenanceWindow, day: int)
    requires Schedulable(w)
  {
    var anchor, n := w.validFrom.value, w.repeatEvery;
    && anchor <= day && (w.validUntil.Some? ==> day <= w.validUntil.value)
    && match w.recurrence
       case Daily => (day - anchor) % n == 0
       case Weekly => (day / 7 - anchor / 7) % n == 0 && w.weekdays.value / Pow2(day % 7) % 2 == 1
       case _ => exists m :: NamedIn(w, m, day) && MonthsOn(anchor, m, n)
  }

  /** The days scheduled are those. */
  lemma ScheduledExact(w: MaintenanceWindow, day: int)
    requires Schedulable(w)
    ensures Scheduled(w, day) <==> StartsOn(w, day)
  {
    if w.recurrence.Monthly? {
      MonthlyScheduled(w, day);
    } else {
      hide HasWeekday;
      hide Pow2;
      WeekdayBits(if w.weekdays.Some? then w.weekdays.value else 0, day);
    }
  }

  lemma MonthlyScheduled(w: MaintenanceWindow, day: int)
    requires Schedulable(w) && w.recurrence.Monthly?
    ensures Scheduled(w, day) <==> StartsOn(w, day)
  {
    hide Recurs;
    hide NamedIn;
    hide NamedInMonth;
    hide MonthOf;
    hide MonthsOn;
    hide HasWeekday;
    hide Pow2;
    RecursMonthly(w, day);
    NamedInItsMonth(w, day);
    hide Schedulable;
  }

  lemma RecursMonthly(w: MaintenanceWindow, day: int)
    requires Schedulable(w) && w.recurrence.Monthly?
    ensures Recurs(w, day) <==> && w.validFrom.value <= day && NamedInMonth(w, day)
                                && MonthsOn(w.validFrom.value, MonthOf(day), w.repeatEvery)
  {
    hide NamedInMonth;
    hide MonthOf;
    hide MonthsOn;
    MonthsExact(w.validFrom.value, MonthOf(day), w.repeatEvery);
  }

  lemma MonthsExact(anchor: int, m: int, n: int)
    requires n > 0
    ensures MonthsOn(anchor, m, n) <==> (m - MonthOf(anchor)) % n == 0
  {
    OneMonth(anchor);
    var k := MonthOf(anchor);
    hide MonthOf;
    hide InTheMonth;
    assert InTheMonth(k, anchor);
  }

  lemma NamedInItsMonth(w: MaintenanceWindow, day: int)
    requires NamesMonthDay(w)
    ensures forall i :: NamedIn(w, i, day) <==> i == MonthOf(day) && NamedInMonth(w, day)
  {
    NamedExact(w, day);
    OneMonth(day);
    NamedOnce(w, day, MonthOf(day));
    hide MonthOf;
    hide NamedInMonth;
    hide NamedIn;
  }

  lemma OneMonth(day: int)
    ensures forall i :: InTheMonth(i, day) <==> i == MonthOf(day)
  {
    hide MonthStart;
    forall i | InTheMonth(i, day) ensures i == MonthOf(day) {
      MonthOfUnique(day, i);
    }
  }

  lemma NamedOnce(w: MaintenanceWindow, day: int, m: int)
    requires forall i :: InTheMonth(i, day) <==> i == m
    ensures forall i :: NamedIn(w, i, day) ==> i == m
  {
    hide InTheMonth;
    hide MonthStart;
  }

  lemma NamedExact(w: MaintenanceWindow, day: int)
    requires NamesMonthDay(w)
    ensures NamedInMonth(w, day) <==> NamedIn(w, MonthOf(day), day)
  {
    hide MonthStart;
    var m := MonthOf(day);
    InMonth(day, m, 1);
    InMonth(day, m, 7);
  }

  /** The next start day, or that there is none, in those terms. */
  ghost predicate IsNextStart(w: MaintenanceWindow, d: int, r: Search)
    requires Schedulable(w)
  {
    match r
    case Found(x) => d <= x && StartsOn(w, x) && forall y :: d <= y < x ==> !StartsOn(w, y)
    case Over => forall y :: d <= y ==> !StartsOn(w, y)
    case Endless => false
  }

  lemma NextStartExact(w: MaintenanceWindow, d: int, r: Search)
    requires Schedulable(w)
    ensures IsNext(w, d, r) <==> IsNextStart(w, d, r)
  {
    hide Scheduled;
    hide StartsOn;
    forall day ensures Scheduled(w, day) <==> StartsOn(w, day) {
      ScheduledExact(w, day);
    }
  }

  // ---- occurrences

  /** At u the local clock shows the minute of the day. */
  ghost predicate Shows(z: Zone, u: int, day: int, minute: int) {
    u + z(u) * 1_000_000_000 == day * 86_400_000_000_000 + minute * 60_000_000_000
  }

  ghost predicate FirstShows(z: Zone, u: int, day: int, minute: int) {
    Shows(z, u, day, minute) && forall v :: Shows(z, v, day, minute) ==> u <= v
  }

  /** If the local clock ever shows that minute the start is the first time it does. */
  lemma StartsWhenShown(z: Zone, day: int, minute: int, u: int)
    requires ValidZone(z) && Shows(z, u, day, minute)
    ensures FirstShows(z, StartAt(z, WallOf(day, minute)), day, minute)
  {
    var wall := WallOf(day, minute);
    assert wall == MINUTE * (1440 * day + minute);
    forall v ensures Shows(z, v, day, minute) <==> Local(z, v) == wall {
    }
    hide ValidZone;
    hide Shows;
    hide StartAt;
    hide WallOf;
    forall v | Shows(z, v, day, minute) ensures Local(z, StartAt(z, wall)) == wall && StartAt(z, wall) <= v {
      StartIsEarliest(z, wall, v);
    }
  }

  /** The occurrence of a start day that was neither cut nor skipped. */
  ghost function From(w: MaintenanceWindow, u: int): Occurrence
    requires Schedulable(w)
  {
    Occurrence(w.id, u, u + w.durationMinutes.value * 60_000_000_000)
  }

  lemma OccursFrom(w: MaintenanceWindow, z: Zone, day: int, o: Occurrence)
    requires Schedulable(w)
    ensures OccursOn(w, z, day, o)
            <==> StartsOn(w, day) && Survives(w, From(w, StartAt(z, WallOf(day, w.startMinute.value))), o)
  {
    var u := StartAt(z, WallOf(day, w.startMinute.value));
    ScheduledExact(w, day);
    assert Planned(w, day, z) == From(w, u);
    AppliedExact(w, From(w, u), o);
    hide *;
    assert OccursOn(w, z, day, o) <==> Scheduled(w, day) && Applied(w, Planned(w, day, z)) == Some(o);
  }

  lemma OneFirst(z: Zone, day: int, minute: int, u: int, v: int)
    requires FirstShows(z, u, day, minute) && FirstShows(z, v, day, minute)
    ensures u == v
  {
    hide Shows;
  }

  /** An occurrence begins on a start day, when the local clock first shows the start minute, and ends after its
      duration, or earlier as overrides and the end of the window say. */
  lemma OccurrenceExact(w: MaintenanceWindow, z: Zone, day: int, u: int, o: Occurrence)
    requires ValidZone(z) && Schedulable(w) && FirstShows(z, u, day, w.startMinute.value)
    ensures OccursOn(w, z, day, o) <==> StartsOn(w, day) && Survives(w, From(w, u), o)
  {
    var minute := w.startMinute.value;
    StartsWhenShown(z, day, minute, u);
    OneFirst(z, day, minute, u, StartAt(z, WallOf(day, minute)));
    OccursFrom(w, z, day, o);
  }

  /** If the local clock never shows that minute it jumps over it at some instant, and the start is moved on by as much
      as the clock is. */
  lemma OccurrenceInGap(w: MaintenanceWindow, z: Zone, day: int, o: Occurrence) returns (t: int, u: int)
    requires ValidZone(z) && Schedulable(w) && forall v :: !Shows(z, v, day, w.startMinute.value)
    ensures var wall := day * 86_400_000_000_000 + w.startMinute.value * 60_000_000_000;
            && t + z(t - 1) * 1_000_000_000 <= wall < t + z(t) * 1_000_000_000
            && u + z(u) * 1_000_000_000 == wall + (z(t) - z(t - 1)) * 1_000_000_000
            && u == wall - z(t - 1) * 1_000_000_000
    ensures OccursOn(w, z, day, o) <==> StartsOn(w, day) && Survives(w, From(w, u), o)
  {
    hide Survives;
    hide StartsOn;
    hide ValidZone;
    t, u := StartMovedOn(z, day, w.startMinute.value);
    OccursFrom(w, z, day, o);
  }

  lemma StartMovedOn(z: Zone, day: int, minute: int) returns (t: int, u: int)
    requires ValidZone(z) && forall v :: !Shows(z, v, day, minute)
    ensures u == StartAt(z, WallOf(day, minute))
    ensures var wall := day * 86_400_000_000_000 + minute * 60_000_000_000;
            && t + z(t - 1) * 1_000_000_000 <= wall < t + z(t) * 1_000_000_000
            && u + z(u) * 1_000_000_000 == wall + (z(t) - z(t - 1)) * 1_000_000_000
            && u == wall - z(t - 1) * 1_000_000_000
  {
    hide Shows;
    hide ValidZone;
    hide StartAt;
    hide WallOf;
    hide OffsetBefore;
    hide OffsetAfter;
    var wall := WallOf(day, minute);
    NeverShown(z, day, minute);
    t := StartInGap(z, wall);
    u := StartAt(z, wall);
    UnreadAfter(z, wall);
    assert z(t - 1) == OffsetBefore(z, wall) && z(t) == OffsetAfter(z, wall);
  }

  lemma NeverShown(z: Zone, day: int, minute: int)
    requires forall v :: !Shows(z, v, day, minute)
    ensures var wall := WallOf(day, minute);
            && wall == day * 86_400_000_000_000 + minute * 60_000_000_000 && wall % MINUTE == 0
            && forall v :: Local(z, v) != wall
  {
    var wall := WallOf(day, minute);
    assert wall == MINUTE * (1440 * day + minute);
    forall v ensures Local(z, v) != wall {
      assert !Shows(z, v, day, minute);
    }
  }

  lemma UnreadAfter(z: Zone, wall: int)
    requires ValidZone(z) && wall % MINUTE == 0 && forall u :: Local(z, u) != wall
    ensures StartAt(z, wall) == wall - OffsetBefore(z, wall) * SECOND
  {
    NeitherReads(z, wall);
  }
}

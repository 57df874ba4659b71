/** The search for the next start day of a window, as it is for days however far from the anchor. */
module DaySearch {
  import opened Calendar
  import opened StartDays
  import opened WeeklySearch
  import opened Window

  /** The next start day, none because the series is over, or a search that never comes back. */
  datatype Search = Found(day: int) | Over | Endless

  /** A weekly search that can only go round in circles. */
  ghost predicate Stuck(w: MaintenanceWindow, d: int) {
    Schedulable(w) && w.recurrence.Weekly? && InARut(w, d)
  }

  /** The last day the count of days from the anchor can reach, rounded to the repeat. */
  function LastDaily(w: MaintenanceWindow): int
    requires Schedulable(w)
  {
    w.validFrom.value + RoundUp(MAX_DAYS_APART, w.repeatEvery)
  }

  /** A daily search for a day past the last one it can reach. */
  predicate Overtaken(w: MaintenanceWindow, d: int) {
    Schedulable(w) && w.recurrence.Daily? && LastDaily(w) < d
  }

  predicate Ends(w: MaintenanceWindow, day: int) { w.validUntil.Some? && w.validUntil.value < day }

  /** A weekly search past its horizon that takes every week for one of the series. */
  predicate Drifts(w: MaintenanceWindow, d: int) {
    Schedulable(w) && w.recurrence.Weekly? && CountsOn(w) && Horizon(w) <= d
  }

  /** The series as it is searched at day d. */
  function AsSearched(w: MaintenanceWindow, d: int): (v: MaintenanceWindow)
    ensures v == if Drifts(w, d) then w.(repeatEvery := 1) else w
  {
    if Schedulable(w) then AsCounted(w, d) else w
  }

  /** r is the least start day of v from d on, or says that there is none. */
  ghost predicate IsNext(v: MaintenanceWindow, d: int, r: Search) {
    match r
    case Found(x) => d <= x && Scheduled(v, x) && forall y :: d <= y < x ==> !Scheduled(v, y)
    case Over => forall y :: d <= y ==> !Scheduled(v, y)
    case Endless => false
  }

  /** What a search from d answers: it may never come back, or keep answering the last day it can reach; otherwise it
      finds the next start day of the series as it is searched there. */
  ghost predicate Answers(w: MaintenanceWindow, d: int, r: Search) {
    if Stuck(w, d) then r == Endless
    else if Overtaken(w, d) then r == if Ends(w, LastDaily(w)) then Over else Found(LastDaily(w))
    else IsNext(AsSearched(w, d), d, r)
  }

  lemma AnswersUnique(w: MaintenanceWindow, d: int, r: Search, s: Search)
    requires Answers(w, d, r) && Answers(w, d, s)
    ensures r == s
  {
    hide Scheduled;
  }

  /** The answer is the next start day of the series, or that it is over, exactly when the search comes back, a daily
      one is not asked for a day out of reach while the series goes on, and a weekly one past the horizon comes upon a
      week of the series or the end of it. */
  lemma AnswersExact(w: MaintenanceWindow, d: int, r: Search)
    requires Answers(w, d, r)
    ensures IsNext(w, d, r) <==>
              && !Stuck(w, d)
              && (Overtaken(w, d) ==> Ends(w, LastDaily(w)))
              && (Drifts(w, d) ==>
                    var x := FirstSelected(w.weekdays.value, d);
                    Ends(w, x) || InSeriesWeek(w, x))
  {
    hide Recurs;
    hide RoundUp;
    hide Horizon;
    if Overtaken(w, d) && !Ends(w, LastDaily(w)) {
      LastDailyIsStartDay(w);
    } else if Drifts(w, d) {
      DriftExact(w, d, r);
    }
  }

  predicate InSeriesWeek(w: MaintenanceWindow, day: int)
    requires Schedulable(w)
  {
    (WeekOf(day) - WeekOf(w.validFrom.value)) % w.repeatEvery == 0
  }

  lemma DriftExact(w: MaintenanceWindow, d: int, r: Search)
    requires Drifts(w, d) && IsNext(w.(repeatEvery := 1), d, r)
    ensures var x := FirstSelected(w.weekdays.value, d);
            IsNext(w, d, r) <==> Ends(w, x) || InSeriesWeek(w, x)
  {
    hide HasWeekday;
    hide IsoWeekday;
    var v, x := w.(repeatEvery := 1), FirstSelected(w.weekdays.value, d);
    WeekCountExact(w, d);
    AnswerPast(w, d);
    forall y | d <= y ensures Recurs(w, y) <==> Recurs(v, y) && InSeriesWeek(w, y) {
      RecursWeekly(w, y);
    }
    hide Recurs;
    hide InSeriesWeek;
    hide Horizon;
    assert forall y :: d <= y && Scheduled(v, y) ==> x <= y;
    if Ends(w, x) {
      assert r == Over;
    } else {
      assert Scheduled(v, x) && r == Found(x);
    }
  }

  /** The next start day as the search serves them: day by day, in the series as it is searched on that day. */
  ghost predicate Served(w: MaintenanceWindow, day: int) { Scheduled(AsSearched(w, day), day) }

  ghost predicate NextServed(w: MaintenanceWindow, d: int, r: Search) {
    match r
    case Found(x) => d <= x && Served(w, x) && forall y :: d <= y < x ==> !Served(w, y)
    case Over => forall y :: d <= y ==> !Served(w, y)
    case Endless => false
  }

  /** From d on no search gets any further: it never comes back, or it answers the last day it can reach. */
  ghost predicate Blocked(w: MaintenanceWindow, d: int) {
    Stuck(w, d) || (Overtaken(w, d) && !Ends(w, LastDaily(w)))
  }

  lemma OnlySeriesBlock(w: MaintenanceWindow)
    requires !Schedulable(w)
    ensures forall d :: !Blocked(w, d)
  {
  }

  lemma BlockedLater(w: MaintenanceWindow, d: int, e: int)
    requires Blocked(w, d) && d <= e
    ensures Blocked(w, e)
  {
  }

  /** A search either gets no further or finds the next day served. */
  lemma SearchMeaning(w: MaintenanceWindow, d: int, r: Search)
    requires Answers(w, d, r)
    ensures Blocked(w, d) <==> r.Endless? || (r.Found? && r.day < d)
    ensures !Blocked(w, d) ==> NextServed(w, d, r)
    ensures r.Endless? <==> Stuck(w, d)
  {
    hide Recurs;
    hide RoundUp;
    if Schedulable(w) && w.recurrence.Weekly? && CountsOn(w) && d < Horizon(w) {
      NextServedAcross(w, d, r);
    } else if Drifts(w, d) {
      forall y | d <= y ensures Served(w, y) <==> Scheduled(AsSearched(w, d), y) {
      }
    }
  }

  /** The first week past the horizon is one of the series, so a search that crosses the horizon serves it as it is. */
  lemma NextServedAcross(w: MaintenanceWindow, d: int, r: Search)
    requires Schedulable(w) && w.recurrence.Weekly? && CountsOn(w) && d < Horizon(w) && IsNext(w, d, r)
    ensures NextServed(w, d, r)
  {
    hide HasWeekday;
    hide IsoWeekday;
    WeekCountExact(w, w.validFrom.value);
    AnswerPast(w, Horizon(w));
    var x0 := FirstSelected(w.weekdays.value, Horizon(w));
    forall y | Horizon(w) <= y ensures Recurs(w, y) ==> Recurs(w.(repeatEvery := 1), y) {
      RecursWeekly(w, y);
    }
    hide Recurs;
    forall y | Horizon(w) <= y < x0 ensures !Served(w, y) {
      assert !Recurs(w.(repeatEvery := 1), y);
    }
    forall y | d <= y && Served(w, y) ensures Scheduled(w, y) || (x0 < y && Scheduled(w, x0)) {
    }
  }

  /** Once a search answers a day before the one asked for, so does the search from the day after that answer: a loop
      that asks from day to day goes round there for ever. */
  lemma AskedAgain(w: MaintenanceWindow, d: int, x: int)
    requires Answers(w, d, Found(x)) && x < d
    ensures Answers(w, x + 1, Found(x))
  {
    hide RoundUp;
  }

  // Days within 106500 days (291 years) of the anchor are out of reach of the saturation.
  const MAX_SPAN: int := 106_500

  /** A weekly series has a start day within its next repeat. */
  lemma WeeklyAhead(w: MaintenanceWindow, d: int) returns (t: int)
    requires WeeklyFrom(w, d)
    ensures d <= t <= d + 7 * w.repeatEvery + 6 && Recurs(w, t)
  {
    var n, week := w.repeatEvery, WeekOf(w.validFrom.value);
    var wd := SomeWeekday(w.weekdays.value);
    var k := RoundUp(WeekOf(d) - week + 1, n);
    t := 7 * (week + k) + wd - 1;
    assert WeekOf(t) == week + k && IsoWeekday(t) == wd;
  }

  /** Within that span every search finds the next start day of the series. */
  lemma WithinSpan(w: MaintenanceWindow, d: int)
    requires Schedulable(w) && d <= w.validFrom.value + MAX_SPAN
    ensures !Blocked(w, d) && !Overtaken(w, d) && !Drifts(w, d)
  {
    hide RoundUp;
    hide Recurs;
    if w.recurrence.Weekly? {
      var start := if d < w.validFrom.value then w.validFrom.value else d;
      var t := WeeklyAhead(w, start);
      WeekCountExact(w, w.validFrom.value);
    }
  }

  lemma LastDailyIsStartDay(w: MaintenanceWindow)
    requires Schedulable(w) && w.recurrence.Daily?
    ensures Recurs(w, LastDaily(w)) && (Ends(w, LastDaily(w)) <==> !Scheduled(w, LastDaily(w)))
  {
  }

  /** A day from the anchor on whose week, from Monday, is a whole number of repeats from the anchor's. */
  ghost predicate InWeekOf(w: MaintenanceWindow, day: int)
    requires Schedulable(w)
  {
    w.validFrom.value <= day && (day / 7 - w.validFrom.value / 7) % w.repeatEvery == 0
  }

  /** The weekday of x is in the mask, Monday being its lowest bit, and that of no day from d to x in a week of the
      series is. */
  ghost predicate OnSelectedWeekday(w: MaintenanceWindow, d: int, x: int)
    requires Schedulable(w)
  {
    && w.weekdays.Some? && d <= x && w.validFrom.value <= x && w.weekdays.value / Pow2(x % 7) % 2 == 1
    && forall y :: d <= y < x && InWeekOf(w, y) ==> w.weekdays.value / Pow2(y % 7) % 2 == 0
  }

  lemma WeekdaysAnswered(w: MaintenanceWindow, d: int, x: int)
    requires Schedulable(w) && w.recurrence.Weekly? && Answers(w, d, Found(x))
    ensures OnSelectedWeekday(w, d, x)
  {
    hide HasWeekday;
    hide Pow2;
    var v := AsSearched(w, d);
    WeekdayBits(w.weekdays.value, x);
    RecursWeekly(w, x);
    forall y | d <= y < x && InWeekOf(w, y) ensures w.weekdays.value / Pow2(y % 7) % 2 == 0 {
      WeekdayBits(w.weekdays.value, y);
      RecursWeekly(w, y);
      assert !Scheduled(v, y);
    }
  }

  /** The first scheduled day not before d, as far as the search can tell. */
  method NextStartDate(w: MaintenanceWindow, d: int) returns (r: Search)
    requires w.validFrom.Some? && (w.recurrence.Once? || w.recurrence.Unknown? || Schedulable(w))
    ensures Answers(w, d, r)
    ensures w.recurrence.Weekly? && r.Found? ==> OnSelectedWeekday(w, d, r.day)
  {
    hide MonthStart;
    hide MonthOf;
    hide RoundUp;
    hide HasWeekday;
    hide OnSelectedWeekday;
    var anchor := w.validFrom.value;
    var start := if d < anchor then anchor else d;
    var n := w.repeatEvery;
    var out: int;
    match w.recurrence {
      case Daily =>
        DailyStartExact(anchor, n, start);
        out := DailyStart(anchor, n, start);
        forall x | start <= x < out ensures !Recurs(w, x) {
          assert !Aligned(anchor, n, x);
        }
      case Weekly =>
        var found := NextWeekly(w, start);
        if found.NeverReturns? {
          return Endless;
        }
        out := found.result;
      case Monthly =>
        out := NextMonthly(w, start);
      case _ =>
        return Over;
    }
    if w.validUntil.Some? && out > w.validUntil.value {
      r := Over;
    } else {
      r := Found(out);
      if w.recurrence.Weekly? {
        WeekdaysAnswered(w, d, r.day);
      }
    }
  }
}

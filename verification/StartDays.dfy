/** The days on which a recurring window starts. */
module StartDays {
  import opened Calendar
  import opened Window

  // time.Sub saturates at 2^63 - 1 nanoseconds: no two days are further apart than this.
  const MAX_DAYS_APART: int := 106_751

  function DaysBetween(a: int, b: int): int {
    if b - a > MAX_DAYS_APART then MAX_DAYS_APART
    else if b - a < -MAX_DAYS_APART then -MAX_DAYS_APART
    else b - a
  }

  function Bit(weekday: int): int
    requires 1 <= weekday <= 7
  {
    [1, 2, 4, 8, 16, 32, 64][weekday - 1]
  }

  predicate HasWeekday(mask: int, weekday: int)
    requires 1 <= weekday <= 7
  {
    mask / Bit(weekday) % 2 == 1
  }

  ghost function Pow2(k: nat): (r: nat)
    ensures r > 0
  {
    if k == 0 then 1 else 2 * Pow2(k - 1)
  }

  /** The weekdays from Monday on are the bits of the mask from the lowest on. */
  lemma WeekdayBits(mask: int, day: int)
    ensures HasWeekday(mask, IsoWeekday(day)) <==> mask / Pow2(day % 7) % 2 == 1
  {
    assert Pow2(day % 7) == Bit(IsoWeekday(day));
  }

  function SomeWeekday(mask: int): (weekday: int)
    requires 1 <= mask <= 127
    ensures 1 <= weekday <= 7 && HasWeekday(mask, weekday)
  {
    if mask % 2 == 1 then 1 else if mask / 2 % 2 == 1 then 2 else if mask / 4 % 2 == 1 then 3
    else if mask / 8 % 2 == 1 then 4 else if mask / 16 % 2 == 1 then 5 else if mask / 32 % 2 == 1 then 6 else 7
  }

  /** Which day of its month the window names, without computing it: a day number, the last day, the n-th or last
      weekday. */
  predicate NamedInMonth(w: MaintenanceWindow, day: int) {
    match w.monthDay
    case Some(k) =>
      if k == MONTH_LAST then MonthOf(day + 1) != MonthOf(day) else DayOfMonth(day) == k
    case None =>
      && w.monthWeek.Some? && w.monthWeekday.Some?
      && IsoWeekday(day) == w.monthWeekday.value
      && (if w.monthWeek.value == MONTH_LAST then MonthOf(day + 7) != MonthOf(day)
          else 7 * (w.monthWeek.value - 1) < DayOfMonth(day) <= 7 * w.monthWeek.value)
  }

  /** The days of the series: counted from the anchor day, its week or its month. */
  predicate Recurs(w: MaintenanceWindow, day: int)
    requires Schedulable(w)
  {
    var anchor := w.validFrom.value;
    && anchor <= day
    && match w.recurrence
       case Daily => (day - anchor) % w.repeatEvery == 0
       case Weekly => (WeekOf(day) - WeekOf(anchor)) % w.repeatEvery == 0
            && HasWeekday(w.weekdays.value, IsoWeekday(day))
       case _ => (MonthOf(day) - MonthOf(anchor)) % w.repeatEvery == 0 && NamedInMonth(w, day)
  }

  predicate Scheduled(w: MaintenanceWindow, day: int) {
    Schedulable(w) && Recurs(w, day) && (w.validUntil.Some? ==> day <= w.validUntil.value)
  }

  /** The day a monthly window names in the month m. */
  function MonthDay(w: MaintenanceWindow, m: int): int {
    var first := MonthStart(m);
    var last := MonthStart(m + 1) - 1;
    if w.monthDay.Some? then
      if w.monthDay.value == MONTH_LAST then last else first + w.monthDay.value - 1
    else
      var wd := if w.monthWeekday.Some? then w.monthWeekday.value else 1;
      if w.monthWeek.Some? && w.monthWeek.value == MONTH_LAST then
        last - (IsoWeekday(last) - wd + 7) % 7
      else
        var nth := if w.monthWeek.Some? then w.monthWeek.value else 1;
        first + (wd - IsoWeekday(first) + 7) % 7 + (nth - 1) * 7
  }

  lemma MonthDayInside(w: MaintenanceWindow, m: int)
    requires NamesMonthDay(w)
    ensures MonthStart(m) <= MonthDay(w, m) < MonthStart(m + 1)
  {
    hide MonthStart;
    MonthStep(m);
  }

  lemma InMonth(day: int, m: int, k: int)
    requires MonthStart(m) <= day < MonthStart(m + 1) && 0 < k <= 7
    ensures MonthOf(day) == m
    ensures MonthOf(day + k) != MonthOf(day) <==> day + k >= MonthStart(m + 1)
  {
    hide MonthStart;
    MonthOfUnique(day, m);
    if day + k < MonthStart(m + 1) {
      MonthOfUnique(day + k, m);
    }
  }

  /** The computed day is the one and only day of its month that the window names. */
  lemma MonthDayExact(w: MaintenanceWindow, m: int, day: int)
    requires NamesMonthDay(w)
    requires MonthStart(m) <= day < MonthStart(m + 1)
    ensures NamedInMonth(w, day) <==> day == MonthDay(w, m)
  {
    hide MonthStart;
    hide MonthOf;
    MonthStep(m);
    InMonth(day, m, 1);
    InMonth(day, m, 7);
    var first, last := MonthStart(m), MonthStart(m + 1) - 1;
    if w.monthDay.None? {
      var wd, week := w.monthWeekday.value, w.monthWeek.value;
      if week == MONTH_LAST {
        WeekdayBackward(last, wd, day);
      } else {
        WeekdayForward(first, wd, week - 1, day);
      }
    }
  }

  /** Counting forward: the weekday wd within the k-th run of seven days from first. */
  lemma WeekdayForward(first: int, wd: int, k: int, day: int)
    requires 1 <= wd <= 7
    ensures IsoWeekday(day) == wd && 7 * k < day - first + 1 <= 7 * (k + 1)
            <==> day == first + (wd - IsoWeekday(first) + 7) % 7 + k * 7
  {
    var off := (wd - IsoWeekday(first) + 7) % 7;
    assert (first + off) % 7 == wd - 1;
    assert (day - (first + off)) % 7 == 0 <==> day % 7 == wd - 1;
  }

  lemma WeekdayBackward(last: int, wd: int, day: int)
    requires 1 <= wd <= 7
    ensures IsoWeekday(day) == wd && day <= last < day + 7
            <==> day == last - (IsoWeekday(last) - wd + 7) % 7
  {
    var off := (IsoWeekday(last) - wd + 7) % 7;
    assert (last - off) % 7 == wd - 1;
  }

  /** The least multiple of n that is not below k. */
  function RoundUp(k: int, n: int): (r: int)
    requires n > 0
    ensures k <= r < k + n && r % n == 0
  {
    var r := k % n;
    if r == 0 then k else
      NextMultiple(k, n);
      k + n - r
  }

  predicate Multiple(k: int, n: int)
    requires n > 0
  {
    k % n == 0
  }

  lemma NextMultiple(k: int, n: int)
    requires n > 0
    ensures (k + n - k % n) % n == 0
  {
    assert k + n - k % n == n * (k / n + 1);
    MultipleMod(k / n + 1, n);
  }

  lemma MultipleMod(q: int, n: int)
    requires n > 0
    ensures (n * q) % n == 0
  {
    var r := (n * q) % n;
    var p := n * q / n;
    assert r == n * (q - p);
    SmallMultiple(q - p, n);
  }

  lemma SmallMultiple(q: int, n: int)
    requires n > 0 && 0 <= n * q < n
    ensures q == 0
  {
  }

  /** No multiple of n lies between k and the rounded k. */
  lemma RoundUpLeast(k: int, n: int, x: int)
    requires n > 0 && k <= x && Multiple(x, n)
    ensures RoundUp(k, n) <= x
  {
    var r := RoundUp(k, n);
    if x < r {
      var p, q := x / n, r / n;
      assert x == n * p && r == n * q;
      assert r - x == n * (q - p);
      SmallMultiple(q - p, n);
    }
  }

  /** x is a whole number of n-day steps from the anchor. */
  predicate Aligned(anchor: int, n: int, x: int)
    requires n > 0
  {
    Multiple(x - anchor, n)
  }

  function DailyStart(anchor: int, n: int, d: int): int
    requires n > 0
  {
    anchor + RoundUp(DaysBetween(anchor, d), n)
  }

  /** The daily search is right exactly while the saturated distance, rounded to the repeat, still reaches the day asked
      for; past that it answers with a day already gone. */
  lemma DailyStartExact(anchor: int, n: int, d: int)
    requires n > 0 && anchor <= d
    ensures (d <= DailyStart(anchor, n, d) && Aligned(anchor, n, DailyStart(anchor, n, d))
             && forall x :: d <= x < DailyStart(anchor, n, d) ==> !Aligned(anchor, n, x))
            <==> d - anchor <= RoundUp(MAX_DAYS_APART, n)
  {
    hide RoundUp;
    var r := DailyStart(anchor, n, d);
    assert r - anchor == RoundUp(DaysBetween(anchor, d), n);
    if d - anchor <= RoundUp(MAX_DAYS_APART, n) {
      forall x | d <= x < r ensures !Aligned(anchor, n, x) {
        if Aligned(anchor, n, x) {
          RoundUpLeast(DaysBetween(anchor, d), n, x - anchor);
        }
      }
    }
  }

  /** 293 years after the anchor the daily search answers with an earlier day. */
  lemma DailyStartPastTheSpan()
    ensures DailyStart(0, 1, 107_000) == 106_751 < 107_000
  {
  }

  lemma MonthlyExact(w: MaintenanceWindow, x: int)
    requires Schedulable(w) && w.recurrence.Monthly?
    ensures Recurs(w, x) <==> && w.validFrom.value <= x
                              && Multiple(MonthOf(x) - MonthOf(w.validFrom.value), w.repeatEvery)
                              && x == MonthDay(w, MonthOf(x))
  {
    hide MonthStart;
    hide MonthOf;
    hide MonthDay;
    hide NamedInMonth;
    MonthDayExact(w, MonthOf(x), x);
  }

  /** Between an aligned month and the next one no other month holds a start day. */
  lemma MonthsBetween(w: MaintenanceWindow, x: int, from: int)
    requires Schedulable(w) && w.recurrence.Monthly? && Recurs(w, x)
    requires MonthOf(w.validFrom.value) + from <= MonthOf(x)
    ensures MonthStart(MonthOf(w.validFrom.value) + RoundUp(from, w.repeatEvery)) <= x
  {
    hide MonthStart;
    hide RoundUp;
    var m := MonthOf(w.validFrom.value) + RoundUp(from, w.repeatEvery);
    RoundUpLeast(from, w.repeatEvery, MonthOf(x) - MonthOf(w.validFrom.value));
    MonthStartMonotone(m, MonthOf(x));
  }

  lemma MonthReached(m: int, x: int)
    requires MonthStart(m) <= x
    ensures m <= MonthOf(x)
  {
    hide MonthStart;
    if MonthOf(x) < m {
      MonthStartMonotone(MonthOf(x) + 1, m);
    }
  }

  lemma SameMonth(w: MaintenanceWindow, m: int, x: int)
    requires Schedulable(w) && w.recurrence.Monthly? && Recurs(w, x)
    requires MonthStart(m) <= x < MonthStart(m + 1)
    ensures x == MonthDay(w, m)
  {
    hide MonthStart;
    MonthOfUnique(x, m);
    MonthlyExact(w, x);
  }

  lemma RoundUpStep(k: int, n: int)
    requires n > 0 && Multiple(k, n)
    ensures RoundUp(k + 1, n) == k + n && RoundUp(k, n) == k
  {
    assert k == n * (k / n) && k + n == n * (k / n + 1);
    MultipleMod(k / n + 1, n);
    RoundUpLeast(k + 1, n, k + n);
    var r := RoundUp(k + 1, n);
    assert r - k == n * (r / n - k / n);
    SmallMultiple(k / n + 1 - r / n, n);
  }

  method NextMonthly(w: MaintenanceWindow, start: int) returns (out: int)
    requires Schedulable(w) && w.recurrence.Monthly?
    requires w.validFrom.value <= start
    ensures start <= out && Recurs(w, out)
    ensures forall x :: start <= x < out ==> !Recurs(w, x)
  {
    hide MonthStart;
    hide MonthOf;
    hide MonthDay;
    hide Recurs;
    var n, m0 := w.repeatEvery, MonthOf(w.validFrom.value);
    MonthOfMonotone(w.validFrom.value, start);
    var months := MonthOf(start) - m0;
    ghost var from := months;
    var r := months % n;
    if r != 0 {
      months := months + n - r;
    }
    assert months == RoundUp(from, n);
    hide RoundUp;
    forall x | start <= x && Recurs(w, x) ensures MonthStart(m0 + months) <= x {
      MonthOfMonotone(start, x);
      MonthsBetween(w, x, from);
    }
    while true
      invariant from <= months && Multiple(months, n)
      invariant forall x :: start <= x && Recurs(w, x) ==> MonthStart(m0 + months) <= x
      decreases if m0 + months == MonthOf(start) then 1 else 0
    {
      var c := MonthDay(w, m0 + months);
      MonthDayInside(w, m0 + months);
      forall x | start <= x && Recurs(w, x) ensures x == c || MonthStart(m0 + months + 1) <= x {
        if x < MonthStart(m0 + months + 1) {
          SameMonth(w, m0 + months, x);
        }
      }
      if start <= c {
        out := c;
        MonthOfUnique(c, m0 + months);
        MonthlyExact(w, c);
        break;
      }
      if MonthOf(start) < m0 + months {
        MonthStartMonotone(MonthOf(start) + 1, m0 + months);
      }
      RoundUpStep(months, n);
      forall x | start <= x && Recurs(w, x) ensures MonthStart(m0 + months + n) <= x {
        MonthReached(m0 + months + 1, x);
        MonthsBetween(w, x, months + 1);
      }
      months := months + n;
    }
  }
}

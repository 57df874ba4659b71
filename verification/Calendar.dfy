/** Proleptic Gregorian calendar on integers: day 0 is Monday, January 1 of year 1. */
module Calendar {

  predicate IsLeap(year: int) {
    year % 4 == 0 && (year % 100 != 0 || year % 400 == 0)
  }

  function MonthLength(year: int, month: int): (n: int)
    requires 1 <= month <= 12
    ensures 28 <= n <= 31
  {
    if month == 2 then (if IsLeap(year) then 29 else 28)
    else if month == 4 || month == 6 || month == 9 || month == 11 then 30
    else 31
  }

  /** Days of the year before the first of the month. */
  function DaysBeforeMonth(year: int, month: int): int
    requires 1 <= month <= 12
  {
    if month == 1 then 0 else DaysBeforeMonth(year, month - 1) + MonthLength(year, month - 1)
  }

  function YearStart(year: int): int {
    var y := year - 1;
    365 * y + y / 4 - y / 100 + y / 400
  }

  /** Months are counted from month 0 = January of year 0. */
  function MonthStart(m: int): int {
    YearStart(m / 12) + DaysBeforeMonth(m / 12, m % 12 + 1)
  }

  /** The quotient grows by one exactly at the multiples of k. */
  function Carry(y: int, k: int): (c: int)
    requires k == 4 || k == 100 || k == 400
    ensures y / k == (y - 1) / k + c
  {
    if y % k == 0 then 1 else 0
  }

  lemma MultiplesOf400(year: int)
    requires year % 400 == 0
    ensures year % 100 == 0
  {
    var q := year / 400;
    assert year == 100 * (4 * q);
  }

  lemma MultiplesOf100(year: int)
    requires year % 100 == 0
    ensures year % 4 == 0
  {
    var q := year / 100;
    assert year == 4 * (25 * q);
  }

  lemma YearLength(year: int)
    ensures YearStart(year + 1) - YearStart(year)
            == if year % 4 == 0 && (year % 100 != 0 || year % 400 == 0) then 366 else 365
  {
    var c4, c100, c400 := Carry(year, 4), Carry(year, 100), Carry(year, 400);
    assert YearStart(year + 1) - YearStart(year) == 365 + c4 - c100 + c400;
    if year % 400 == 0 { MultiplesOf400(year); }
    if year % 100 == 0 { MultiplesOf100(year); }
  }

  lemma DaysBeforeDecember(year: int)
    ensures DaysBeforeMonth(year, 12) == if IsLeap(year) then 335 else 334
  {
    assert DaysBeforeMonth(year, 2) == 31;
    assert DaysBeforeMonth(year, 4) == DaysBeforeMonth(year, 3) + 31;
    assert DaysBeforeMonth(year, 6) == DaysBeforeMonth(year, 5) + 31;
    assert DaysBeforeMonth(year, 8) == DaysBeforeMonth(year, 7) + 31;
    assert DaysBeforeMonth(year, 10) == DaysBeforeMonth(year, 9) + 30;
  }

  /** The month starts are the running sums of the Gregorian month lengths, across year ends too. */
  lemma MonthStep(m: int)
    ensures MonthStart(m + 1) - MonthStart(m) == MonthLength(m / 12, m % 12 + 1)
    ensures MonthStart(m + 1) - MonthStart(m)
            == [31, if IsLeap(m / 12) then 29 else 28, 31, 30, 31, 30, 31, 31, 30, 31, 30, 31][m % 12]
  {
    if m % 12 == 11 {
      assert (m + 1) / 12 == m / 12 + 1 && (m + 1) % 12 == 0;
      YearLength(m / 12);
      DaysBeforeDecember(m / 12);
    } else {
      assert (m + 1) / 12 == m / 12 && (m + 1) % 12 == m % 12 + 1;
    }
  }

  /** January 1 of year 1 is day 0, and January 1, 2024, a Monday, is day 738885. */
  lemma NewYears()
    ensures MonthStart(12) == 0 && MonthStart(12 * 2024) == 738_885 && IsoWeekday(738_885) == 1
  {
    January(1);
    January(2024);
    hide MonthStart;
  }

  lemma January(year: int)
    ensures MonthStart(12 * year) == YearStart(year)
  {
    assert 12 * year / 12 == year && 12 * year % 12 == 0;
    hide YearStart;
  }

  lemma {:induction false} MonthStartMonotone(a: int, b: int)
    requires a <= b
    ensures MonthStart(b) - MonthStart(a) >= 28 * (b - a)
    decreases b - a
  {
    hide MonthStart;
    if a < b {
      MonthStep(b - 1);
      MonthStartMonotone(a, b - 1);
    }
  }

  function SearchUp(d: int, m: int): (r: int)
    requires MonthStart(m) <= d
    ensures MonthStart(r) <= d < MonthStart(r + 1)
    decreases d - MonthStart(m)
  {
    hide MonthStart;
    MonthStep(m);
    if d < MonthStart(m + 1) then m else SearchUp(d, m + 1)
  }

  function SearchDown(d: int, m: int): (r: int)
    requires d < MonthStart(m + 1)
    ensures MonthStart(r) <= d < MonthStart(r + 1)
    decreases MonthStart(m + 1) - d
  {
    hide MonthStart;
    MonthStep(m);
    if MonthStart(m) <= d then m else SearchDown(d, m - 1)
  }

  /** The calendar month of a day (year * 12 + month - 1). */
  function MonthOf(d: int): (m: int)
    ensures MonthStart(m) <= d < MonthStart(m + 1)
  {
    hide MonthStart;
    if MonthStart(12) <= d then SearchUp(d, 12) else SearchDown(d, 11)
  }

  lemma MonthOfUnique(d: int, m: int)
    requires MonthStart(m) <= d < MonthStart(m + 1)
    ensures MonthOf(d) == m
  {
    hide MonthStart;
    var r := MonthOf(d);
    if r < m {
      MonthStartMonotone(r + 1, m);
    } else if m < r {
      MonthStartMonotone(m + 1, r);
    }
  }

  lemma MonthOfMonotone(a: int, b: int)
    requires a <= b
    ensures MonthOf(a) <= MonthOf(b)
  {
    hide MonthStart;
    if MonthOf(b) < MonthOf(a) {
      MonthStartMonotone(MonthOf(b) + 1, MonthOf(a));
    }
  }

  function DayOfMonth(d: int): (n: int)
    ensures 1 <= n <= 31
  {
    hide MonthStart;
    MonthStep(MonthOf(d));
    d - MonthStart(MonthOf(d)) + 1
  }

  function IsoWeekday(d: int): (w: int)
    ensures 1 <= w <= 7
  {
    d % 7 + 1
  }

  /** The weekday moves on from day to day, from Sunday back to Monday, and two days share it exactly when whole weeks
      lie between them. */
  lemma WeekdaysCycle(d: int, e: int)
    ensures IsoWeekday(d + 1) == if IsoWeekday(d) == 7 then 1 else IsoWeekday(d) + 1
    ensures IsoWeekday(d) == IsoWeekday(e) <==> (e - d) % 7 == 0
    ensures IsoWeekday(0) == 1
  {
  }

  /** Weeks start on Monday. */
  function WeekOf(d: int): int { d / 7 }
}

/** The search for the next start day of a weekly window, whose count of weeks saturates. */
module WeeklySearch {
  import opened Calendar
  import opened Options
  import opened StartDays
  import opened Window

  // No week is counted to be further than this from the week of the anchor.
  const MAX_WEEKS_APART: int := 15_250

  ghost predicate WeeklyFrom(w: MaintenanceWindow, d: int) {
    Schedulable(w) && w.recurrence.Weekly? && w.validFrom.value <= d
  }

  /** The Monday of the anchor's week. */
  function Monday(w: MaintenanceWindow): int
    requires w.validFrom.Some?
  {
    w.validFrom.value + 1 - IsoWeekday(w.validFrom.value)
  }

  /** The week of d as the search counts it. */
  function WeekCount(w: MaintenanceWindow, d: int): int
    requires w.validFrom.Some?
  {
    DaysBetween(Monday(w), d) / 7
  }

  /** The first day whose week is no longer counted. */
  function Horizon(w: MaintenanceWindow): int
    requires w.validFrom.Some?
  {
    Monday(w) + 7 * MAX_WEEKS_APART
  }

  lemma WeekCountExact(w: MaintenanceWindow, d: int)
    requires WeeklyFrom(w, d)
    ensures Monday(w) == 7 * WeekOf(w.validFrom.value) && Horizon(w) % 7 == 0 && w.validFrom.value < Horizon(w)
    ensures WeekCount(w, d) == if d < Horizon(w) then WeekOf(d) - WeekOf(w.validFrom.value) else MAX_WEEKS_APART
    ensures d < Horizon(w) <==> WeekOf(d) - WeekOf(w.validFrom.value) < MAX_WEEKS_APART
  {
  }

  /** How many days after d the weekday comes round. */
  function DaysUntil(weekday: int, d: int): (k: int)
    requires 1 <= weekday <= 7
    ensures 0 <= k <= 6 && (k == 0 <==> IsoWeekday(d) == weekday)
    ensures k > 0 ==> (weekday - IsoWeekday(d + 1)) % 7 == k - 1
  {
    assert IsoWeekday(d + 1) == if IsoWeekday(d) == 7 then 1 else IsoWeekday(d) + 1;
    hide IsoWeekday;
    (weekday - IsoWeekday(d)) % 7
  }

  /** The first day from d on with a selected weekday. */
  function FirstSelected(mask: int, d: int): (x: int)
    requires 1 <= mask <= 127
    ensures d <= x <= d + DaysUntil(SomeWeekday(mask), d) && HasWeekday(mask, IsoWeekday(x))
    ensures forall y :: d <= y < x ==> !HasWeekday(mask, IsoWeekday(y))
    decreases DaysUntil(SomeWeekday(mask), d)
  {
    hide HasWeekday;
    hide IsoWeekday;
    if HasWeekday(mask, IsoWeekday(d)) then d else FirstSelected(mask, d + 1)
  }

  // ---- one turn of the search

  /** Where the search stands after a turn of its loop: it has its answer, or goes on from another day. */
  datatype Turn = Answer(day: int) | Again(from: int)

  /** The Monday of the next counted week that is a whole number of repeats from the anchor's. */
  function Jump(w: MaintenanceWindow, d: int): int
    requires Schedulable(w)
  {
    var week, n := WeekCount(w, d), w.repeatEvery;
    Monday(w) + (week + n - week % n) * 7
  }

  /** Jump if the counted week is not one of the series; otherwise look for a selected weekday as long as the counted
      week lasts. */
  ghost function OneTurn(w: MaintenanceWindow, d: int): Turn
    requires WeeklyFrom(w, d)
  {
    if WeekCount(w, d) % w.repeatEvery != 0 then Again(Jump(w, d))
    else
      var x := FirstSelected(w.weekdays.value, d);
      if WeekCount(w, x) == WeekCount(w, d) then Answer(x) else Again(7 * (WeekOf(d) + 1))
  }

  /** The series has the last week that is counted. */
  predicate CountsOn(w: MaintenanceWindow)
    requires Schedulable(w)
  {
    MAX_WEEKS_APART % w.repeatEvery == 0
  }

  /** Past the horizon such a series is searched as if it had every week. */
  function AsCounted(w: MaintenanceWindow, d: int): (v: MaintenanceWindow)
    requires Schedulable(w)
    ensures Schedulable(v)
  {
    if w.recurrence.Weekly? && CountsOn(w) && Horizon(w) <= d then w.(repeatEvery := 1) else w
  }

  lemma RecursWeekly(w: MaintenanceWindow, x: int)
    requires WeeklyFrom(w, x)
    ensures Recurs(w.(repeatEvery := 1), x) <==> HasWeekday(w.weekdays.value, IsoWeekday(x))
    ensures Recurs(w, x) <==> (WeekOf(x) - WeekOf(w.validFrom.value)) % w.repeatEvery == 0
                              && HasWeekday(w.weekdays.value, IsoWeekday(x))
  {
    hide HasWeekday;
  }

  lemma JumpIsRounding(w: MaintenanceWindow, d: int)
    requires WeeklyFrom(w, d) && WeekCount(w, d) % w.repeatEvery != 0
    ensures Jump(w, d) == Monday(w) + 7 * RoundUp(WeekCount(w, d), w.repeatEvery)
  {
    hide WeekCount;
    hide Monday;
  }

  /** No start day lies in a week that is not one of the series, nor before the next one that is. */
  lemma JumpsOverNothing(w: MaintenanceWindow, d: int, y: int)
    requires WeeklyFrom(w, d) && d <= y && Recurs(w, y)
    ensures Monday(w) + 7 * RoundUp(WeekOf(d) - WeekOf(w.validFrom.value), w.repeatEvery) <= y
  {
    var k, m := WeekOf(d) - WeekOf(w.validFrom.value), WeekOf(y) - WeekOf(w.validFrom.value);
    WeekCountExact(w, d);
    RecursWeekly(w, y);
    assert Multiple(m, w.repeatEvery);
    hide RoundUp;
    RoundUpLeast(k, w.repeatEvery, m);
  }

  /** What a turn says before the horizon: its answer is the next start day; what it passes over are no start days. */
  lemma TurnInside(w: MaintenanceWindow, d: int)
    requires WeeklyFrom(w, d) && d < Horizon(w)
    ensures match OneTurn(w, d)
            case Answer(x) => d <= x < Horizon(w) && Recurs(w, x) && forall y :: d <= y < x ==> !Recurs(w, y)
            case Again(e) => d < e && (CountsOn(w) ==> e <= Horizon(w)) && forall y :: d <= y < e ==> !Recurs(w, y)
  {
    hide HasWeekday;
    hide IsoWeekday;
    hide RoundUp;
    WeekCountExact(w, d);
    if WeekCount(w, d) % w.repeatEvery != 0 {
      JumpInside(w, d);
    } else {
      ScanInside(w, d);
    }
  }

  lemma JumpInside(w: MaintenanceWindow, d: int)
    requires WeeklyFrom(w, d) && d < Horizon(w) && WeekCount(w, d) % w.repeatEvery != 0
    ensures d < Jump(w, d) && (CountsOn(w) ==> Jump(w, d) <= Horizon(w)) && forall y :: d <= y < Jump(w, d) ==>
              !Recurs(w, y)
  {
    WeekCountExact(w, d);
    JumpIsRounding(w, d);
    var k, n := WeekCount(w, d), w.repeatEvery;
    if CountsOn(w) {
      assert Multiple(MAX_WEEKS_APART, n);
      RoundUpLeast(k, n, MAX_WEEKS_APART);
    }
    hide Recurs;
    forall y | d <= y < Jump(w, d) ensures !Recurs(w, y) {
      if Recurs(w, y) {
        JumpsOverNothing(w, d, y);
        assert false;
      }
    }
    assert k < RoundUp(k, n);
  }

  lemma ScanInside(w: MaintenanceWindow, d: int)
    requires WeeklyFrom(w, d) && d < Horizon(w) && WeekCount(w, d) % w.repeatEvery == 0
    ensures var x := FirstSelected(w.weekdays.value, d);
            var e := 7 * (WeekOf(d) + 1);
            if WeekCount(w, x) == WeekCount(w, d)
            then x < e && Recurs(w, x) && forall y :: d <= y < x ==> !Recurs(w, y)
            else d < e <= x && forall y :: d <= y < e ==> !Recurs(w, y)
    ensures 7 * (WeekOf(d) + 1) <= Horizon(w)
  {
    WeekCountExact(w, d);
    var x := FirstSelected(w.weekdays.value, d);
    WeekCountExact(w, x);
    RecursWeekly(w, x);
    forall y | d <= y < x ensures !Recurs(w, y) {
      RecursWeekly(w, y);
    }
  }

  /** Where a search that does not count on ends up past the horizon. */
  function Rut(w: MaintenanceWindow): int
    requires Schedulable(w)
  {
    Monday(w) + (MAX_WEEKS_APART + w.repeatEvery - MAX_WEEKS_APART % w.repeatEvery) * 7
  }

  /** Past the horizon a turn answers with the next selected weekday, in whatever week, if the last counted week is
      one of the series; otherwise every turn leads to the same day, from there too. */
  lemma TurnPast(w: MaintenanceWindow, d: int)
    requires WeeklyFrom(w, d) && Horizon(w) <= d
    ensures if CountsOn(w) then OneTurn(w, d) == Answer(FirstSelected(w.weekdays.value, d))
            else OneTurn(w, d) == Again(Rut(w))
    ensures Horizon(w) <= Rut(w) && WeeklyFrom(w, Rut(w))
  {
    hide HasWeekday;
    WeekCountExact(w, d);
    if CountsOn(w) {
      WeekCountExact(w, FirstSelected(w.weekdays.value, d));
    }
  }

  /** Past the horizon the answer is right for the series that has every week, and at the horizon for the series
      itself. */
  lemma AnswerPast(w: MaintenanceWindow, d: int)
    requires WeeklyFrom(w, d) && Horizon(w) <= d && CountsOn(w)
    ensures var x, v := FirstSelected(w.weekdays.value, d), w.(repeatEvery := 1);
            Recurs(v, x) && forall y :: d <= y < x ==> !Recurs(v, y)
    ensures d == Horizon(w) ==>
              var x := FirstSelected(w.weekdays.value, d);
              Recurs(w, x) && forall y :: d <= y < x ==> !Recurs(w, y)
  {
    var x := FirstSelected(w.weekdays.value, d);
    WeekCountExact(w, d);
    RecursWeekly(w, x);
    forall y | d <= y < x ensures !Recurs(w.(repeatEvery := 1), y) && !Recurs(w, y) {
      RecursWeekly(w, y);
    }
    if d == Horizon(w) {
      assert WeekOf(x) - WeekOf(w.validFrom.value) == MAX_WEEKS_APART;
    }
  }

  /** An ended series that repeats every third week, seen 292 years after its anchor: the jump leads nowhere. */
  lemma JumpToItself(w: MaintenanceWindow)
    requires Schedulable(w) && w.recurrence.Weekly? && w.repeatEvery == 3
    ensures var d := Monday(w) + 106_764;
            WeekCount(w, d) == 15_250 && WeekCount(w, d) % 3 == 1 && Jump(w, d) == d
    ensures Jump(w, Monday(w) + 106_750) == Monday(w) + 106_764
  {
    WeekCountExact(w, Monday(w) + 106_764);
    WeekCountExact(w, Monday(w) + 106_750);
  }

  // ---- when the search comes back

  /** Where the search stands after k more turns. */
  ghost function TurnsFrom(w: MaintenanceWindow, d: int, k: nat): Turn
    requires Schedulable(w) && w.recurrence.Weekly?
  {
    if k == 0 then Again(d)
    else match TurnsFrom(w, d, k - 1)
      case Answer(x) => Answer(x)
      case Again(e) => if WeeklyFrom(w, e) then OneTurn(w, e) else Again(e)
  }

  ghost predicate ComesBack(w: MaintenanceWindow, d: int)
    requires Schedulable(w) && w.recurrence.Weekly?
  {
    exists k: nat :: TurnsFrom(w, d, k).Answer?
  }

  /** No start day is left before the horizon and the search does not count on. */
  ghost predicate InARut(w: MaintenanceWindow, d: int)
    requires Schedulable(w) && w.recurrence.Weekly?
  {
    !CountsOn(w) && forall x :: d <= x < Horizon(w) && w.validFrom.value <= x ==> !Recurs(w, x)
  }

  lemma {:induction false} RutForEver(w: MaintenanceWindow, d: int, k: nat)
    requires WeeklyFrom(w, d) && InARut(w, d)
    ensures TurnsFrom(w, d, k).Again? && WeeklyFrom(w, TurnsFrom(w, d, k).from) && InARut(w, TurnsFrom(w, d, k).from)
  {
    hide OneTurn;
    hide Recurs;
    if k > 0 {
      RutForEver(w, d, k - 1);
      var e := TurnsFrom(w, d, k - 1).from;
      if e < Horizon(w) {
        TurnInside(w, e);
      } else {
        TurnPast(w, e);
      }
    }
  }

  lemma {:induction false} OneTurnOn(w: MaintenanceWindow, d: int, k: nat)
    requires WeeklyFrom(w, d) && OneTurn(w, d).Again? && WeeklyFrom(w, OneTurn(w, d).from)
    ensures TurnsFrom(w, d, k + 1) == TurnsFrom(w, OneTurn(w, d).from, k)
  {
    hide OneTurn;
    if k > 0 {
      OneTurnOn(w, d, k - 1);
    } else {
      assert TurnsFrom(w, d, 0) == Again(d);
      assert TurnsFrom(w, d, 1) == OneTurn(w, d);
    }
  }

  lemma {:induction false} ClimbsOut(w: MaintenanceWindow, d: int) returns (k: nat)
    requires WeeklyFrom(w, d) && !InARut(w, d)
    ensures TurnsFrom(w, d, k).Answer?
    decreases if d < Horizon(w) then Horizon(w) - d else 0
  {
    hide OneTurn;
    hide Recurs;
    if Horizon(w) <= d {
      TurnPast(w, d);
      assert TurnsFrom(w, d, 0) == Again(d);
      return 1;
    }
    TurnInside(w, d);
    match OneTurn(w, d) {
      case Answer(x) =>
        assert TurnsFrom(w, d, 0) == Again(d);
        return 1;
      case Again(e) =>
        k := ClimbsOut(w, e);
        OneTurnOn(w, d, k);
        k := k + 1;
    }
  }

  /** From a day of the series on the search comes back exactly when the last counted week is one of the series or
      some start day is left before the horizon. */
  lemma ComesBackExactly(w: MaintenanceWindow, d: int)
    requires WeeklyFrom(w, d)
    ensures ComesBack(w, d) <==> CountsOn(w) || exists x :: d <= x < Horizon(w) && Recurs(w, x)
  {
    if InARut(w, d) {
      forall k: nat ensures TurnsFrom(w, d, k).Again? {
        RutForEver(w, d, k);
      }
    } else {
      var k := ClimbsOut(w, d);
    }
  }

  /** The least day from `start` on that the series has, or has as it is counted; none if the search never comes back:
      once a jump leads to the day it was made from, every further turn makes it again. */
  method NextWeekly(w: MaintenanceWindow, start: int) returns (r: Call<int>)
    requires WeeklyFrom(w, start)
    ensures r.NeverReturns? <==> InARut(w, start)
    ensures r.Returns? ==> start <= r.result && Recurs(AsCounted(w, start), r.result)
    ensures r.Returns? ==> forall x :: start <= x < r.result ==> !Recurs(AsCounted(w, start), x)
  {
    hide OneTurn;
    hide Recurs;
    hide HasWeekday;
    hide Horizon;
    var d := start;
    while true
      invariant WeeklyFrom(w, d) && InARut(w, start) == InARut(w, d)
      invariant forall x :: start <= x < d && x < Horizon(w) ==> !Recurs(w, x)
      invariant start < Horizon(w) && CountsOn(w) ==> d <= Horizon(w)
      invariant CountsOn(w) && Horizon(w) <= start ==> d == start
      decreases if d < Horizon(w) then Horizon(w) - d + 2 else if d == Rut(w) then 0 else 1
    {
      if d < Horizon(w) {
        TurnInside(w, d);
      } else {
        TurnPast(w, d);
        if CountsOn(w) {
          AnswerPast(w, d);
        }
      }
      var turn := Turned(w, d);
      match turn {
        case Answer(x) =>
          return Returns(x);
        case Again(e) =>
          if e == d {
            return NeverReturns;
          }
          d := e;
      }
    }
  }

  lemma WeekEnds(w: MaintenanceWindow, start: int, d: int, x: int)
    requires WeeklyFrom(w, start) && start < d <= x && WeekCount(w, d - 1) == WeekCount(w, start) != WeekCount(w, d)
    ensures d == 7 * (WeekOf(start) + 1) && WeekCount(w, x) != WeekCount(w, start)
  {
    WeekCountExact(w, start);
    WeekCountExact(w, d - 1);
    WeekCountExact(w, d);
    WeekCountExact(w, x);
  }

  method Turned(w: MaintenanceWindow, start: int) returns (r: Turn)
    requires WeeklyFrom(w, start)
    ensures r == OneTurn(w, start)
  {
    hide HasWeekday;
    hide IsoWeekday;
    var monday := w.validFrom.value + 1 - IsoWeekday(w.validFrom.value);
    var n, mask := w.repeatEvery, w.weekdays.value;
    var week := DaysBetween(monday, start) / 7;
    var r0 := week % n;
    if r0 != 0 {
      return Again(monday + (week + n - r0) * 7);
    }
    var d := start;
    ghost var x := FirstSelected(mask, start);
    while DaysBetween(monday, d) / 7 == week
      invariant start <= d <= x
      invariant d == start || WeekCount(w, d - 1) == week
      decreases x - d
    {
      assert d < x ==> !HasWeekday(mask, IsoWeekday(d));
      if HasWeekday(mask, IsoWeekday(d)) {
        return Answer(d);
      }
      d := d + 1;
    }
    WeekEnds(w, start, d, x);
    return Again(d);
  }
}

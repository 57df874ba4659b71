/** The next occurrences of a window, and what a local date that turns back does to the list. */
module Upcoming {
  import opened Calendar
  import opened DaySearch
  import opened Options
  import opened Occurrences
  import opened StartDays
  import opened WeeklySearch
  import opened Window
  import opened Zone

  // A search that meets this many start days gives up (a series skipped almost everywhere).
  const GUARD: int := 10_000

  // The furthest ahead a one-off window is looked for: 2^62 nanoseconds.
  const FAR_AHEAD: int := 0x4000_0000_0000_0000

  /** How many days are served from lo up to hi. */
  ghost function ServedIn(w: MaintenanceWindow, lo: int, hi: int): nat
    decreases hi - lo
  {
    if hi <= lo then 0 else ServedIn(w, lo, hi - 1) + if Served(w, hi - 1) then 1 else 0
  }

  lemma {:induction false} NoneServed(w: MaintenanceWindow, lo: int, mid: int, hi: int)
    requires lo <= mid <= hi && forall x :: mid <= x < hi ==> !Served(w, x)
    ensures ServedIn(w, lo, hi) == ServedIn(w, lo, mid)
    decreases hi - mid
  {
    if mid < hi {
      NoneServed(w, lo, mid, hi - 1);
    }
  }

  lemma {:induction false} MoreDaysMore(w: MaintenanceWindow, z: Zone, q: Query, lo: int, mid: int, hi: int)
    requires lo <= mid <= hi
    ensures ServedIn(w, lo, mid) <= ServedIn(w, lo, hi) && |Searched(w, z, q, lo, mid)| <= |Searched(w, z, q, lo, hi)|
    decreases hi - mid
  {
    hide OnDay;
    hide Served;
    hide AsSearched;
    if mid < hi {
      MoreDaysMore(w, z, q, lo, mid, hi - 1);
    }
  }

  function FirstAfter(z: Zone, after: int): int { DateOf(z, after) - 1 }

  /** The walk comes to a start day from which a weekly search never comes back, before it has found enough or reached
      its guard. */
  ghost predicate WalksIntoARut(w: MaintenanceWindow, z: Zone, after: int, n: int) {
    var first := FirstAfter(z, after);
    Stuck(w, first) || exists x :: first <= x && LastInReach(w, x) && StillWalking(w, z, after, n, x)
  }

  /** A start day before the horizon from which the search for another never comes back. */
  ghost predicate LastInReach(w: MaintenanceWindow, x: int) {
    Scheduled(w, x) && x < Horizon(w) && Stuck(w, x + 1)
  }

  /** On the way to x neither enough was found nor the guard reached. */
  ghost predicate StillWalking(w: MaintenanceWindow, z: Zone, after: int, n: int, x: int) {
    var first := FirstAfter(z, after);
    ServedIn(w, first, x) < GUARD && |Searched(w, z, After(after), first, x)| < n
  }

  function Times(k: nat, s: seq<Occurrence>): seq<Occurrence> {
    if k == 0 then [] else Times(k - 1, s) + s
  }

  /** A day the walk can have come to: where it begins, or the day after one it was answered. */
  ghost predicate WalkedTo(w: MaintenanceWindow, first: int, stop: int) {
    stop == first || (first < stop && Served(w, stop - 1) && !Overtaken(w, stop - 1))
  }

  /** The walk over the days served stops with enough found, at the guard, or with the series over; a daily series may
      answer its last reachable day again and again. */
  ghost predicate Walked(w: MaintenanceWindow, z: Zone, after: int, n: int, stop: int, again: nat,
                         out: seq<Occurrence>) {
    var first, q := FirstAfter(z, after), After(after);
    && WalkedTo(w, first, stop) && |out| <= n && ServedIn(w, first, stop) + again <= GUARD
    && (again > 0 ==> Overtaken(w, stop) && !Ends(w, LastDaily(w)))
    && out == Searched(w, z, q, first, stop) + Times(again, if again > 0 then OnDay(w, z, q, LastDaily(w)) else [])
    && (|out| == n || ServedIn(w, first, stop) + again == GUARD
        || (again == 0 && !Blocked(w, stop) && forall x :: stop <= x ==> !Served(w, x)))
  }

  lemma OnceStartsBeforeItEnds(w: MaintenanceWindow, z: Zone, o: Occurrence)
    requires w.recurrence.Once? && IsOccurrence(w, z, o)
    ensures o.start == w.startsAt.value < o.end
  {
    AppliedExact(w, Occurrence(w.id, w.startsAt.value, w.endsAt.value), o);
  }

  method NextOnce(w: MaintenanceWindow, z: Zone, after: int) returns (out: seq<Occurrence>)
    requires Narrow(z) && w.recurrence.Once?
    ensures |out| <= 1
    ensures forall o :: o in out <==> IsOccurrence(w, z, o) && after < o.start < after + FAR_AHEAD
  {
    forall o | IsOccurrence(w, z, o) ensures o.start < o.end {
      OnceStartsBeforeItEnds(w, z, o);
    }
    OnlySeriesBlock(w);
    hide Applied;
    hide Narrow;
    hide Blocked;
    var os := Occurrences.Occurrences(w, z, after, after + FAR_AHEAD);
    if |os.result| == 1 && os.result[0].start > after {
      return os.result;
    }
    return [];
  }

  /** The first n occurrences starting after `after`, in day order with none left out, up to the day `stop`; never
      answered exactly when the walk comes to where a weekly search goes round in circles. */
  method Next(w: MaintenanceWindow, z: Zone, after: int, n: int)
    returns (r: Call<seq<Occurrence>>, ghost stop: int, ghost again: nat)
    requires Narrow(z) && Searchable(w)
    ensures n <= 0 ==> r == Returns([])
    ensures 0 < n && w.recurrence.Once? ==>
              && r.Returns? && |r.result| <= 1
              && forall o :: o in r.result
                             <==> IsOccurrence(w, z, o) && after < o.start < after + 4_611_686_018_427_387_904
    ensures 0 < n && !w.recurrence.Once? ==>
              && (r.NeverReturns? <==> WalksIntoARut(w, z, after, n))
              && (r.Returns? ==> Walked(w, z, after, n, stop, again, r.result))
  {
    stop, again := FirstAfter(z, after), 0;
    if n <= 0 {
      return Returns([]), stop, again;
    }
    if w.recurrence.Once? {
      var out := NextOnce(w, z, after);
      return Returns(out), stop, again;
    }
    if w.validFrom.None? || w.startMinute.None? || w.durationMinutes.None? {
      return Returns([]), stop, again;
    }
    r, stop, again := NextInSeries(w, z, after, n);
  }

  /** Where the walk stands: what it has found up to the day `stop`, and the answer it goes on with. */
  ghost predicate Walking(w: MaintenanceWindow, z: Zone, after: int, stop: int, again: nat, out: seq<Occurrence>,
                          guard: int, d: Search)
  {
    var first, q := FirstAfter(z, after), After(after);
    && WalkedTo(w, first, stop) && Answers(w, stop, d) && !d.Endless?
    && (again > 0 ==> Overtaken(w, stop) && !Ends(w, LastDaily(w)))
    && out == Searched(w, z, q, first, stop) + Times(again, if again > 0 then OnDay(w, z, q, LastDaily(w)) else [])
    && guard == ServedIn(w, first, stop) + again
  }

  method NextInSeries(w: MaintenanceWindow, z: Zone, after: int, n: int)
    returns (r: Call<seq<Occurrence>>, ghost stop: int, ghost again: nat)
    requires Schedulable(w)
             || (w.recurrence.Unknown? && w.validFrom.Some? && w.startMinute.Some? && w.durationMinutes.Some?)
    requires 0 < n
    ensures r.NeverReturns? <==> WalksIntoARut(w, z, after, n)
    ensures r.Returns? ==> Walked(w, z, after, n, stop, again, r.result)
  {
    hide Applied;
    hide Planned;
    hide DateOf;
    hide Answers;
    hide Walking;
    hide Walked;
    hide WalksIntoARut;
    stop, again := FirstAfter(z, after), 0;
    var out: seq<Occurrence> := [];
    var guard := 0;
    var d := NextStartDate(w, FirstAfter(z, after));
    if d.Endless? {
      StuckAtFirst(w, z, after, n, d);
      return NeverReturns, stop, again;
    }
    StartOfWalk(w, z, after, d);
    while d.Found? && |out| < n && guard < GUARD
      invariant |out| <= n && 0 <= guard <= GUARD && !d.Endless?
      invariant Walking(w, z, after, stop, again, out, guard, d)
      decreases GUARD - guard
    {
      guard := guard + 1;
      var p := PlanOccurrence(w, d.day, z);
      var o := Apply(w, p);
      ghost var before, asked := out, d;
      if o.Some? && o.value.start > after {
        out := out + [o.value];
      }
      assert out == before + Live(w, z, after, asked.day);
      d := NextStartDate(w, d.day + 1);
      stop, again := StepOfWalk(w, z, after, n, stop, again, before, guard - 1, asked, d);
      if d.Endless? {
        return NeverReturns, stop, again;
      }
    }
    EndOfWalk(w, z, after, n, stop, again, out, guard, d);
    return Returns(out), stop, again;
  }

  lemma StartOfWalk(w: MaintenanceWindow, z: Zone, after: int, d: Search)
    requires Answers(w, FirstAfter(z, after), d) && !d.Endless?
    ensures Walking(w, z, after, FirstAfter(z, after), 0, [], 0, d)
  {
    hide Answers;
  }

  /** What the day the walk has come to adds. */
  function Live(w: MaintenanceWindow, z: Zone, after: int, day: int): seq<Occurrence>
    requires w.startMinute.Some? && w.durationMinutes.Some?
  {
    match Applied(w, Planned(w, day, z))
    case None => []
    case Some(o) => if o.start > after then [o] else []
  }

  lemma StepOfWalk(w: MaintenanceWindow, z: Zone, after: int, n: int, stop: int, again: nat, out: seq<Occurrence>,
                   guard: int, asked: Search, d: Search)
    returns (stop': int, again': nat)
    requires w.startMinute.Some? && w.durationMinutes.Some?
    requires Walking(w, z, after, stop, again, out, guard, asked) && asked.Found? && Answers(w, asked.day + 1, d)
    requires |out| < n && guard < GUARD
    ensures d.Endless? ==> WalksIntoARut(w, z, after, n)
    ensures !d.Endless? ==>
              Walking(w, z, after, stop', again', out + Live(w, z, after, asked.day), guard + 1, d)
  {
    hide Live;
    hide Walking;
    hide WalksIntoARut;
    if asked.day < stop {
      StepBack(w, z, after, stop, again, out, guard, asked, d);
      return stop, again + 1;
    }
    StepOn(w, z, after, n, stop, again, out, guard, asked, d);
    return asked.day + 1, again;
  }

  lemma StepOn(w: MaintenanceWindow, z: Zone, after: int, n: int, stop: int, again: nat, out: seq<Occurrence>,
               guard: int, asked: Search, d: Search)
    requires w.startMinute.Some? && w.durationMinutes.Some?
    requires Walking(w, z, after, stop, again, out, guard, asked) && asked.Found? && Answers(w, asked.day + 1, d)
    requires |out| < n && guard < GUARD && stop <= asked.day
    ensures d.Endless? ==> WalksIntoARut(w, z, after, n)
    ensures !d.Endless? ==>
              Walking(w, z, after, asked.day + 1, again, out + Live(w, z, after, asked.day), guard + 1, d)
  {
    hide *;
    WalkingOn(w, z, after, stop, again, out, guard, asked);
    var first, q := FirstAfter(z, after), After(after);
    WalkedIn(w, z, after, n, stop, asked.day, d);
    OneMoreDay(w, z, after, first, stop, asked.day);
    AnsweredInReach(w, stop, asked.day);
    if !d.Endless? {
      StillOn(w, z, after, asked.day + 1, out + Live(w, z, after, asked.day), guard + 1, d);
    }
  }

  /** A walk whose answer is not before the day asked for has not been answered the same day again. */
  lemma WalkingOn(w: MaintenanceWindow, z: Zone, after: int, stop: int, again: nat, out: seq<Occurrence>,
                  guard: int, d: Search)
    requires Walking(w, z, after, stop, again, out, guard, d) && d.Found? && stop <= d.day
    ensures FirstAfter(z, after) <= stop && Answers(w, stop, d) && again == 0
    ensures out == Searched(w, z, After(after), FirstAfter(z, after), stop)
    ensures guard == ServedIn(w, FirstAfter(z, after), stop)
  {
    hide Searched;
    hide OnDay;
    hide DateOf;
    SearchMeaning(w, stop, d);
    hide Answers;
    hide Served;
    hide RoundUp;
    hide Stuck;
  }

  lemma StillOn(w: MaintenanceWindow, z: Zone, after: int, stop: int, out: seq<Occurrence>, guard: int, d: Search)
    requires FirstAfter(z, after) < stop && Served(w, stop - 1) && !Overtaken(w, stop - 1)
    requires Answers(w, stop, d) && !d.Endless?
    requires out == Searched(w, z, After(after), FirstAfter(z, after), stop)
    requires guard == ServedIn(w, FirstAfter(z, after), stop)
    ensures Walking(w, z, after, stop, 0, out, guard, d)
  {
    hide Searched;
    hide Answers;
    hide Served;
    hide DateOf;
  }

  lemma StepBack(w: MaintenanceWindow, z: Zone, after: int, stop: int, again: nat, out: seq<Occurrence>, guard: int,
                 asked: Search, d: Search)
    requires w.startMinute.Some? && w.durationMinutes.Some?
    requires Walking(w, z, after, stop, again, out, guard, asked) && asked.Found? && Answers(w, asked.day + 1, d)
    requires asked.day < stop
    ensures Walking(w, z, after, stop, again + 1, out + Live(w, z, after, asked.day), guard + 1, d)
    ensures !d.Endless?
  {
    hide Applied;
    hide Planned;
    hide DateOf;
    hide RoundUp;
    SameAgain(w, stop, asked, d);
    hide Recurs;
    var q := After(after);
    var last, before := OnDay(w, z, q, LastDaily(w)), Searched(w, z, q, FirstAfter(z, after), stop);
    assert last == Live(w, z, after, asked.day);
    hide Answers;
    hide Searched;
    hide OnDay;
    assert out == before + Times(again, last);
    assert out + last == before + Times(again + 1, last);
  }

  lemma EndOfWalk(w: MaintenanceWindow, z: Zone, after: int, n: int, stop: int, again: nat, out: seq<Occurrence>,
                  guard: int, d: Search)
    requires Walking(w, z, after, stop, again, out, guard, d)
    requires |out| <= n && guard <= GUARD && (|out| == n || guard == GUARD || d.Over?)
    ensures !WalksIntoARut(w, z, after, n) && Walked(w, z, after, n, stop, again, out)
  {
    hide DateOf;
    hide Applied;
    hide Planned;
    hide Answers;
    hide RoundUp;
    hide WalksIntoARut;
    OutOfTheRut(w, z, after, n, stop, d, again, out);
  }

  lemma StuckAtFirst(w: MaintenanceWindow, z: Zone, after: int, n: int, d: Search)
    requires Answers(w, FirstAfter(z, after), d) && d.Endless?
    ensures WalksIntoARut(w, z, after, n)
  {
    SearchMeaning(w, FirstAfter(z, after), d);
  }

  /** The walk was not at an end on the day x, and the search from the day after never came back. */
  lemma WalkedIn(w: MaintenanceWindow, z: Zone, after: int, n: int, stop: int, x: int, d: Search)
    requires FirstAfter(z, after) <= stop && Answers(w, stop, Found(x)) && stop <= x && Answers(w, x + 1, d)
    requires ServedIn(w, FirstAfter(z, after), stop) < GUARD
    requires |Searched(w, z, After(after), FirstAfter(z, after), stop)| < n
    ensures d.Endless? ==> WalksIntoARut(w, z, after, n)
  {
    hide DateOf;
    hide Applied;
    hide Planned;
    if !d.Endless? {
      return;
    }
    SearchMeaning(w, stop, Found(x));
    SearchMeaning(w, x + 1, d);
    hide Recurs;
    assert AsSearched(w, x) == w && Scheduled(w, x) && !Stuck(w, stop);
    LastBeforeHorizon(w, stop, x);
    NoneServed(w, FirstAfter(z, after), stop, x);
    NothingServed(w, z, After(after), FirstAfter(z, after), stop, x);
    assert LastInReach(w, x) && StillWalking(w, z, after, n, x);
  }

  /** An answer not before the day asked for is a day served, and within reach. */
  lemma AnsweredInReach(w: MaintenanceWindow, d: int, x: int)
    requires Answers(w, d, Found(x)) && d <= x
    ensures Served(w, x) && !Overtaken(w, x)
  {
    SearchMeaning(w, d, Found(x));
    if Schedulable(w) && w.recurrence.Daily? {
      NotPastReach(w, d, x);
    }
  }

  lemma NotPastReach(w: MaintenanceWindow, d: int, x: int)
    requires Schedulable(w) && w.recurrence.Daily? && Answers(w, d, Found(x)) && d <= x
    ensures x <= LastDaily(w)
  {
    LastDailyIsStartDay(w);
    hide Recurs;
    hide RoundUp;
    assert !Overtaken(w, d) && Scheduled(w, x);
  }

  /** The walk goes on past one more day served. */
  lemma OneMoreDay(w: MaintenanceWindow, z: Zone, after: int, first: int, stop: int, x: int)
    requires w.startMinute.Some? && w.durationMinutes.Some?
    requires first <= stop <= x && Answers(w, stop, Found(x))
    ensures ServedIn(w, first, x + 1) == ServedIn(w, first, stop) + 1
    ensures Searched(w, z, After(after), first, x + 1)
            == Searched(w, z, After(after), first, stop) + Live(w, z, after, x)
  {
    hide Applied;
    hide Planned;
    SearchMeaning(w, stop, Found(x));
    hide Recurs;
    NoneServed(w, first, stop, x);
    NothingServed(w, z, After(after), first, stop, x);
    ServedDay(w, z, After(after), x);
  }

  /** A search that comes back where the series does not count on answers before the horizon. */
  lemma LastBeforeHorizon(w: MaintenanceWindow, stop: int, x: int)
    requires Stuck(w, x + 1) && !Stuck(w, stop) && Answers(w, stop, Found(x))
    ensures x < Horizon(w)
  {
    hide Recurs;
    var y :| stop <= y < Horizon(w) && w.validFrom.value <= y && Recurs(w, y);
    assert AsSearched(w, stop) == w && Scheduled(w, x);
    assert y < x ==> Scheduled(w, y);
  }

  /** A daily search answered the same day once more. */
  lemma SameAgain(w: MaintenanceWindow, stop: int, asked: Search, d: Search)
    requires Answers(w, stop, asked) && asked.Found? && asked.day < stop && Answers(w, asked.day + 1, d)
    ensures Overtaken(w, stop) && asked.day == LastDaily(w) && d == asked && Scheduled(w, asked.day)
    ensures Schedulable(w) && !Ends(w, LastDaily(w)) && Answers(w, stop, d)
  {
    SearchMeaning(w, stop, asked);
    AskedAgain(w, stop, asked.day);
    AnswersUnique(w, asked.day + 1, asked, d);
    LastDailyIsStartDay(w);
  }

  /** A walk that came to its end did not come to a rut. */
  lemma OutOfTheRut(w: MaintenanceWindow, z: Zone, after: int, n: int, stop: int, d: Search, again: nat,
                    out: seq<Occurrence>)
    requires FirstAfter(z, after) <= stop && Answers(w, stop, d) && !d.Endless?
    requires again > 0 ==> Overtaken(w, stop) && !Ends(w, LastDaily(w))
    requires var q := After(after);
             out == Searched(w, z, q, FirstAfter(z, after), stop)
                    + Times(again, if again > 0 then OnDay(w, z, q, LastDaily(w)) else [])
    requires |out| >= n || ServedIn(w, FirstAfter(z, after), stop) + again >= GUARD || d.Over?
    ensures !WalksIntoARut(w, z, after, n)
    ensures d.Over? ==> again == 0 && !Blocked(w, stop) && forall x :: stop <= x ==> !Served(w, x)
  {
    hide DateOf;
    hide Applied;
    hide Planned;
    SearchMeaning(w, stop, d);
    hide Recurs;
    hide RoundUp;
    var first, q := FirstAfter(z, after), After(after);
    forall x | first <= x && LastInReach(w, x) ensures !StillWalking(w, z, after, n, x) {
      if x + 1 <= stop {
        StuckLater(w, x + 1, stop);
      } else {
        ServedWhenScheduled(w, x);
        MoreDaysMore(w, z, q, first, stop, x);
      }
    }
    if Stuck(w, first) {
      StuckLater(w, first, stop);
    }
  }

  lemma StuckLater(w: MaintenanceWindow, d: int, e: int)
    requires Stuck(w, d) && d <= e
    ensures Stuck(w, e)
  {
    hide Recurs;
  }

  // ---- what the answer holds

  /** Every occurrence starting after `after` either is in the answer or starts no earlier than all of it. */
  lemma NextSkipsNothing(w: MaintenanceWindow, z: Zone, after: int, stop: int, o: Occurrence)
    requires Narrow(z) && !w.recurrence.Once? && FirstAfter(z, after) <= stop
    requires IsOccurrence(w, z, o) && after < o.start
    ensures var s := Searched(w, z, After(after), FirstAfter(z, after), stop);
            || o in s
            || ((exists day :: stop <= day && OccursOn(w, z, day, o)) && forall p :: p in s ==> p.start <= o.start)
  {
    hide Applied;
    hide Planned;
    hide Recurs;
    var first, q := FirstAfter(z, after), After(after);
    var day :| OccursOn(w, z, day, o);
    InWindowBounds(w, day);
    if day < first {
      OccursStart(w, z, day, o);
      DayTooEarly(z, after, day, w.startMinute.value);
    }
    SearchedMembers(w, z, q, first, stop, o);
    OccursAsSearched(w, z, day, o);
    if stop <= day {
      forall p | p in Searched(w, z, q, first, stop) ensures p.start <= o.start {
        SearchedMembers(w, z, q, first, stop, p);
        var e :| first <= e < stop && OccursOn(AsSearched(w, e), z, e, p);
        SearchedEarlier(w, z, e, p, day, o);
      }
    }
  }

  /** The answer holds occurrences that start after `after`; another such occurrence is missing only if enough were
      found or 10000 start days inspected, from the day before the local date of `after` on, and then it starts no
      earlier than any in the answer. */
  lemma NextExact(w: MaintenanceWindow, z: Zone, after: int, n: int, stop: int, again: nat, out: seq<Occurrence>)
    requires ValidZone(z) && !w.recurrence.Once? && Walked(w, z, after, n, stop, again, out)
    ensures |out| <= n && forall p :: p in out ==> IsSearched(w, z, p) && after < p.start
    ensures forall o :: IsOccurrence(w, z, o) && after < o.start && o !in out ==>
              && (forall p :: p in out ==> p.start <= o.start)
              && (|out| == n
                  || ServedIn(w, (after + z(after) * 1_000_000_000) / 86_400_000_000_000 - 1, stop) + again == 10_000)
  {
    hide Applied;
    hide Planned;
    hide Recurs;
    hide RoundUp;
    hide ValidZone;
    ZoneIsNarrow(z);
    var first, q := FirstAfter(z, after), After(after);
    assert first == (after + z(after) * 1_000_000_000) / 86_400_000_000_000 - 1;
    var s := Searched(w, z, q, first, stop);
    forall p ensures p in out <==> p in s {
      OnlyRepeated(w, z, after, stop, again, p);
    }
    forall p | p in s ensures IsSearched(w, z, p) && after < p.start {
      SearchedMembers(w, z, q, first, stop, p);
    }
    forall o | IsOccurrence(w, z, o) && after < o.start && o !in s
      ensures (forall p :: p in s ==> p.start <= o.start)
              && (|out| == n || ServedIn(w, first, stop) + again == 10_000) {
      NextSkipsNothing(w, z, after, stop, o);
      var day :| stop <= day && OccursOn(w, z, day, o);
      ServedWhenScheduled(w, day);
    }
  }

  /** A last day in reach that is answered again is in the answer already. */
  lemma OnlyRepeated(w: MaintenanceWindow, z: Zone, after: int, stop: int, again: nat, p: Occurrence)
    requires Narrow(z) && (again > 0 ==> Overtaken(w, stop))
    ensures var last := if again > 0 then OnDay(w, z, After(after), LastDaily(w)) else [];
            p in Times(again, last) ==> p in Searched(w, z, After(after), FirstAfter(z, after), stop)
  {
    hide Applied;
    hide Planned;
    hide Recurs;
    hide RoundUp;
    hide Narrow;
    if again > 0 {
      var last := OnDay(w, z, After(after), LastDaily(w));
      InTimes(again, last, p);
      if last != [] {
        LastDayAdded(w, z, after, stop, last[0]);
      }
    }
  }

  lemma {:induction false} InTimes(k: nat, s: seq<Occurrence>, p: Occurrence)
    ensures p in Times(k, s) ==> p in s
  {
    if k > 0 {
      InTimes(k - 1, s, p);
    }
  }

  lemma OccursAsSearched(w: MaintenanceWindow, z: Zone, day: int, o: Occurrence)
    requires OccursOn(w, z, day, o)
    ensures OccursOn(AsSearched(w, day), z, day, o)
  {
    ServedWhenScheduled(w, day);
    hide Recurs;
  }

  lemma {:induction false} SearchedPrefix(w: MaintenanceWindow, z: Zone, q: Query, lo: int, mid: int, hi: int)
    requires lo <= mid <= hi
    ensures Searched(w, z, q, lo, mid) <= Searched(w, z, q, lo, hi)
    decreases hi - mid
  {
    hide OnDay;
    if mid < hi {
      SearchedPrefix(w, z, q, lo, mid, hi - 1);
    }
  }

  lemma {:induction false} TimesPrefix(j: nat, k: nat, s: seq<Occurrence>)
    requires j <= k
    ensures Times(j, s) <= Times(k, s) && (j == 0 ==> Times(j, s) == [])
  {
    if j < k {
      TimesPrefix(j, k - 1, s);
    }
  }

  /** Of two walks the shorter found a prefix of what the longer found. */
  lemma ShorterWalk(w: MaintenanceWindow, z: Zone, after: int, n: int, stop: int, again: nat, out: seq<Occurrence>,
                    stop': int, again': nat, out': seq<Occurrence>)
    requires Walked(w, z, after, n, stop, again, out) && Walked(w, z, after, n, stop', again', out')
    requires stop < stop' || (stop == stop' && again <= again')
    ensures out <= out'
    ensures stop < stop' || again < again' ==> |out| == n
  {
    hide DateOf;
    hide OnDay;
    hide RoundUp;
    hide Recurs;
    var first, q := FirstAfter(z, after), After(after);
    if stop < stop' {
      SearchedPrefix(w, z, q, first, stop, stop');
      ServedLast(w, first, stop, stop');
      assert again == 0 && Times(0, []) == [];
    } else if again < again' {
      TimesPrefix(again, again', OnDay(w, z, q, LastDaily(w)));
    }
  }

  lemma ServedLast(w: MaintenanceWindow, first: int, stop: int, stop': int)
    requires first <= stop < stop' && Served(w, stop' - 1)
    ensures ServedIn(w, first, stop) < ServedIn(w, first, stop')
  {
    hide Served;
    ServedGrows(w, first, stop, stop' - 1);
  }

  lemma {:induction false} ServedGrows(w: MaintenanceWindow, lo: int, mid: int, hi: int)
    requires lo <= mid <= hi
    ensures ServedIn(w, lo, mid) <= ServedIn(w, lo, hi)
    decreases hi - mid
  {
    hide Served;
    if mid < hi {
      ServedGrows(w, lo, mid, hi - 1);
    }
  }

  /** The answer of Next is determined by its contract. */
  lemma NextDetermined(w: MaintenanceWindow, z: Zone, after: int, n: int, stop: int, again: nat, out: seq<Occurrence>,
                       stop': int, again': nat, out': seq<Occurrence>)
    requires Walked(w, z, after, n, stop, again, out) && Walked(w, z, after, n, stop', again', out')
    ensures out == out'
  {
    if stop < stop' || (stop == stop' && again <= again') {
      ShorterWalk(w, z, after, n, stop, again, out, stop', again', out');
    } else {
      ShorterWalk(w, z, after, n, stop', again', out', stop, again, out);
    }
    hide Walked;
    assert |out| <= n && |out'| <= n by {
      WalkedBound(w, z, after, n, stop, again, out);
      WalkedBound(w, z, after, n, stop', again', out');
    }
  }

  lemma WalkedBound(w: MaintenanceWindow, z: Zone, after: int, n: int, stop: int, again: nat, out: seq<Occurrence>)
    requires Walked(w, z, after, n, stop, again, out)
    ensures |out| <= n
  {
  }

  /** A daily series without a last day before its reach, with something to add on the last day in reach, is walked to
      there before enough was found or the guard reached. */
  ghost predicate Repeats(w: MaintenanceWindow, z: Zone, after: int, n: int) {
    && Schedulable(w) && w.recurrence.Daily? && !Ends(w, LastDaily(w))
    && OnDay(w, z, After(after), LastDaily(w)) != []
    && ServedIn(w, FirstAfter(z, after), LastDaily(w) + 1) < GUARD
    && |Searched(w, z, After(after), FirstAfter(z, after), LastDaily(w) + 1)| < n
  }

  /** The last day in reach is added again exactly in that case. */
  lemma AddedAgain(w: MaintenanceWindow, z: Zone, after: int, n: int, stop: int, again: nat, out: seq<Occurrence>)
    requires Narrow(z) && Walked(w, z, after, n, stop, again, out)
    ensures Repeats(w, z, after, n) <==> again > 0 && OnDay(w, z, After(after), LastDaily(w)) != []
  {
    if Schedulable(w) && w.recurrence.Daily? && OnDay(w, z, After(after), LastDaily(w)) != [] {
      LastDayAhead(w, z, after);
      if again > 0 {
        AddedMeansRepeats(w, z, after, n, stop, again, out);
      } else if !Ends(w, LastDaily(w)) {
        NotAddedMeansEnough(w, z, after, n, stop, out);
      }
    }
    hide OnDay;
    hide Searched;
    hide RoundUp;
  }

  lemma AddedMeansRepeats(w: MaintenanceWindow, z: Zone, after: int, n: int, stop: int, again: nat,
                          out: seq<Occurrence>)
    requires Walked(w, z, after, n, stop, again, out) && again > 0
    requires Overtaken(w, stop) && FirstAfter(z, after) <= LastDaily(w)
    requires OnDay(w, z, After(after), LastDaily(w)) != []
    ensures Repeats(w, z, after, n)
  {
    hide OnDay;
    hide DateOf;
    hide Recurs;
    hide RoundUp;
    hide Served;
    assert stop == LastDaily(w) + 1;
    AddsSome(again, OnDay(w, z, After(after), LastDaily(w)));
  }

  lemma NotAddedMeansEnough(w: MaintenanceWindow, z: Zone, after: int, n: int, stop: int, out: seq<Occurrence>)
    requires Walked(w, z, after, n, stop, 0, out) && Schedulable(w) && w.recurrence.Daily? && !Ends(w, LastDaily(w))
    requires FirstAfter(z, after) <= LastDaily(w)
    ensures !Repeats(w, z, after, n)
  {
    var first, q, reach := FirstAfter(z, after), After(after), LastDaily(w) + 1;
    LastDailyIsStartDay(w);
    hide OnDay;
    hide DateOf;
    hide Recurs;
    hide RoundUp;
    assert Served(w, LastDaily(w));
    assert out == Searched(w, z, q, first, stop);
    if stop <= reach {
      MoreDaysMore(w, z, q, first, stop, reach);
    }
  }

  lemma {:induction false} AddsSome(k: nat, s: seq<Occurrence>)
    requires k > 0 && s != []
    ensures |Times(k, s)| > 0
  {
  }

  lemma LastDayAhead(w: MaintenanceWindow, z: Zone, after: int)
    requires Narrow(z) && Schedulable(w) && OnDay(w, z, After(after), LastDaily(w)) != []
    ensures FirstAfter(z, after) <= LastDaily(w)
  {
    hide Applied;
    hide Planned;
    hide RoundUp;
    var day, o := LastDaily(w), OnDay(w, z, After(after), LastDaily(w))[0];
    hide Recurs;
    assert OccursOn(w, z, day, o);
    if day < FirstAfter(z, after) {
      OccursStart(w, z, day, o);
      DayTooEarly(z, after, day, w.startMinute.value);
    }
  }

  /** No occurrence is answered twice exactly when the last day a daily search can reach adds nothing, or enough was
      found or inspected before it would be answered again. */
  lemma RepeatsExactly(w: MaintenanceWindow, z: Zone, after: int, n: int, stop: int, again: nat, out: seq<Occurrence>)
    requires forall t, u :: z(t) - z(u) < 86400
    requires Narrow(z) && Walked(w, z, after, n, stop, again, out)
    ensures (forall i, j :: 0 <= i < j < |out| ==> out[i].start < out[j].start) <==> !Repeats(w, z, after, n)
  {
    AddedAgain(w, z, after, n, stop, again, out);
    AscendsUnlessAgain(w, z, after, n, stop, again, out);
  }

  lemma AscendsUnlessAgain(w: MaintenanceWindow, z: Zone, after: int, n: int, stop: int, again: nat,
                           out: seq<Occurrence>)
    requires forall t, u :: z(t) - z(u) < 86400
    requires Narrow(z) && Walked(w, z, after, n, stop, again, out)
    ensures (forall i, j :: 0 <= i < j < |out| ==> out[i].start < out[j].start)
            <==> again == 0 || OnDay(w, z, After(after), LastDaily(w)) == []
  {
    hide DateOf;
    hide Applied;
    hide Planned;
    hide RoundUp;
    var first, q := FirstAfter(z, after), After(after);
    var s := Searched(w, z, q, first, stop);
    SearchedAscends(w, z, q, first, stop);
    if again == 0 {
      assert out == s;
    } else {
      var added := OnDay(w, z, q, LastDaily(w));
      TimesNothing(again);
      if added == [] {
        assert out == s;
      } else {
        LastDayAdded(w, z, after, stop, added[0]);
        var i :| 0 <= i < |s| && s[i] == added[0];
        assert added == [added[0]];
        LastOfTimes(again, added[0]);
        assert out[i] == out[|out| - 1] && i < |out| - 1;
      }
    }
  }

  lemma {:induction false} TimesNothing(k: nat)
    ensures Times(k, []) == []
  {
    if k > 0 {
      TimesNothing(k - 1);
    }
  }

  lemma LastOfTimes(k: nat, o: Occurrence)
    requires k > 0
    ensures |Times(k, [o])| > 0 && Times(k, [o])[|Times(k, [o])| - 1] == o
  {
  }

  lemma LastDayAdded(w: MaintenanceWindow, z: Zone, after: int, stop: int, o: Occurrence)
    requires Narrow(z) && Overtaken(w, stop) && OnDay(w, z, After(after), LastDaily(w)) == [o]
    ensures o in Searched(w, z, After(after), FirstAfter(z, after), stop)
  {
    hide Applied;
    hide Planned;
    hide RoundUp;
    var day := LastDaily(w);
    hide Recurs;
    assert OccursOn(w, z, day, o);
    if day < FirstAfter(z, after) {
      OccursStart(w, z, day, o);
      DayTooEarly(z, after, day, w.startMinute.value);
    }
    SearchedMembers(w, z, After(after), FirstAfter(z, after), stop, o);
    OccursAsSearched(w, z, day, o);
  }

  lemma DayTooEarly(z: Zone, after: int, day: int, minute: int)
    requires Narrow(z) && minute < 1440 && day < FirstAfter(z, after)
    ensures StartAt(z, WallOf(day, minute)) <= after
  {
    var wall := WallOf(day, minute);
    assert wall < (day + 1) * DAY <= (DateOf(z, after) - 1) * DAY;
    assert Local(z, after) >= DateOf(z, after) * DAY;
    assert StartAt(z, wall) == wall - OffsetBefore(z, wall) * SECOND
           || StartAt(z, wall) == wall - OffsetAfter(z, wall) * SECOND;
    assert z(after) - OffsetBefore(z, wall) <= 86400 && z(after) - OffsetAfter(z, wall) <= 86400;
  }

  // ---- a series that was ended

  lemma EndedOnDay(w: MaintenanceWindow, z: Zone, after: int, day: int)
    requires w.endedAt.Some? && w.endedAt.value <= after
    ensures OnDay(w, z, After(after), day) == []
  {
    hide Recurs;
    if Scheduled(w, day) {
      var o := Planned(w, day, z);
      if Applied(w, o).Some? {
        AppliedExact(w, o, Applied(w, o).value);
        assert CutsAt(w, o.start, w.endedAt.value);
      }
    }
  }

  lemma {:induction false} NothingAfterTheEnd(w: MaintenanceWindow, z: Zone, after: int, lo: int, hi: int)
    requires w.endedAt.Some? && w.endedAt.value <= after
    ensures Searched(w, z, After(after), lo, hi) == []
    decreases hi - lo
  {
    hide Recurs;
    hide Applied;
    if lo < hi {
      NothingAfterTheEnd(w, z, after, lo, hi - 1);
      EndedOnDay(AsSearched(w, hi - 1), z, after, hi - 1);
    }
  }

  lemma {:induction false} LastServed(w: MaintenanceWindow, lo: int, hi: int) returns (x: int)
    requires exists y :: lo <= y < hi && Served(w, y)
    ensures lo <= x < hi && Served(w, x) && forall y :: x < y < hi ==> !Served(w, y)
    decreases hi - lo
  {
    hide Recurs;
    if Served(w, hi - 1) {
      x := hi - 1;
    } else {
      x := LastServed(w, lo, hi - 1);
    }
  }

  lemma StuckExactly(w: MaintenanceWindow, d: int)
    requires Schedulable(w) && w.recurrence.Weekly? && !CountsOn(w) && w.validUntil.None?
    ensures Stuck(w, d) <==> forall x :: d <= x < Horizon(w) ==> !Served(w, x)
  {
    hide HasWeekday;
    hide Horizon;
    forall x ensures Served(w, x) <==> Recurs(w, x) && w.validFrom.value <= x {
    }
  }

  lemma ServedIsScheduled(w: MaintenanceWindow)
    requires Schedulable(w) && !(w.recurrence.Weekly? && CountsOn(w))
    ensures forall x :: Served(w, x) <==> Scheduled(w, x)
  {
    hide Recurs;
  }

  /** A weekly series that was ended and has no last day finds nothing more. Unless it counts on, the walk then never
      answers exactly when it meets no more start days before its horizon than its guard allows. */
  lemma EndedSeriesExactly(w: MaintenanceWindow, z: Zone, after: int, n: int)
    requires Schedulable(w) && w.recurrence.Weekly? && !CountsOn(w) && w.validUntil.None? && 0 < n
    requires w.endedAt.Some? && w.endedAt.value <= after
    ensures WalksIntoARut(w, z, after, n) <==> ServedIn(w, FirstAfter(z, after), Horizon(w)) <= GUARD
  {
    hide DateOf;
    hide Recurs;
    var first, h := FirstAfter(z, after), Horizon(w);
    StuckExactly(w, first);
    if Stuck(w, first) {
      if first <= h {
        NoneServed(w, first, first, h);
      }
    } else {
      var x := LastServed(w, first, h);
      ServedIsScheduled(w);
      StuckExactly(w, x + 1);
      NoneServed(w, first, x + 1, h);
      NothingAfterTheEnd(w, z, after, first, x);
      hide Stuck;
      hide Served;
      hide Horizon;
      hide Searched;
      if y :| first <= y && LastInReach(w, y) && StillWalking(w, z, after, n, y) {
        OneLastInReach(w, x, y);
      } else {
        assert LastInReach(w, x);
      }
    }
  }

  lemma OneLastInReach(w: MaintenanceWindow, x: int, y: int)
    requires LastInReach(w, x) && LastInReach(w, y) && w.validUntil.None?
    ensures x == y
  {
    hide HasWeekday;
    hide Horizon;
  }

  /** Start days of a series with one weekday are as many weeks apart as it repeats. */
  ghost predicate OneWeekday(w: MaintenanceWindow) {
    w.weekdays.Some? && w.weekdays.value in {1, 2, 4, 8, 16, 32, 64}
  }

  lemma SameWeekday(mask: int, a: int, b: int)
    requires mask in {1, 2, 4, 8, 16, 32, 64} && 1 <= a <= 7 && 1 <= b <= 7 && HasWeekday(mask, a)
             && HasWeekday(mask, b)
    ensures a == b
  {
  }

  lemma WeeksApart(w: MaintenanceWindow, x: int, y: int)
    requires Schedulable(w) && w.recurrence.Weekly? && OneWeekday(w) && Recurs(w, x) && Recurs(w, y) && x < y
    ensures x + 7 * w.repeatEvery <= y
  {
    hide HasWeekday;
    SameWeekday(w.weekdays.value, IsoWeekday(x), IsoWeekday(y));
    var n, p, q := w.repeatEvery, WeekOf(x) - WeekOf(w.validFrom.value), WeekOf(y) - WeekOf(w.validFrom.value);
    assert y - x == 7 * (q - p) && Multiple(p, n) && Multiple(q, n);
    hide RoundUp;
    RoundUpLeast(p + 1, n, q);
    RoundUpStep(p, n);
  }

  lemma {:induction false} FewServed(w: MaintenanceWindow, lo: int, hi: int)
    requires Schedulable(w) && w.recurrence.Weekly? && OneWeekday(w) && !CountsOn(w) && lo <= hi
    ensures 7 * w.repeatEvery * ServedIn(w, lo, hi) <= hi - lo + 7 * w.repeatEvery - 1
    decreases hi - lo
  {
    hide Recurs;
    var gap := 7 * w.repeatEvery;
    if lo < hi {
      if Served(w, hi - 1) {
        var from := if lo <= hi - gap then hi - gap else lo;
        forall x | from <= x < hi - 1 ensures !Served(w, x) {
          if Served(w, x) {
            WeeksApart(w, x, hi - 1);
            assert false;
          }
        }
        NoneServed(w, lo, from, hi - 1);
        FewServed(w, lo, from);
      } else {
        FewServed(w, lo, hi - 1);
      }
    }
  }

  /** So every ended series with one weekday that does not count on (repeats 3, 4, 6, 7, 8, 9, 11 and 12) goes
      unanswered, however few occurrences are asked for. */
  lemma EndedSeriesNeverAnswers(w: MaintenanceWindow, z: Zone, after: int, n: int)
    requires Schedulable(w) && w.recurrence.Weekly? && OneWeekday(w) && w.validUntil.None? && 0 < n
    requires w.endedAt.Some? && w.endedAt.value <= after
    ensures !CountsOn(w) <==> w.repeatEvery in {3, 4, 6, 7, 8, 9, 11, 12}
    ensures !CountsOn(w) ==> WalksIntoARut(w, z, after, n)
  {
    hide *;
    CountingRepeats(w);
    if !CountsOn(w) {
      EndedSeriesExactly(w, z, after, n);
      FewBeforeHorizon(w, FirstAfter(z, after));
    }
  }

  lemma CountingRepeats(w: MaintenanceWindow)
    requires Schedulable(w) && w.recurrence.Weekly?
    ensures !CountsOn(w) <==> w.repeatEvery in {3, 4, 6, 7, 8, 9, 11, 12}
  {
    assert 1 <= w.repeatEvery <= 12;
    hide Schedulable;
  }

  lemma FewBeforeHorizon(w: MaintenanceWindow, first: int)
    requires Schedulable(w) && w.recurrence.Weekly? && OneWeekday(w) && !CountsOn(w)
    ensures ServedIn(w, first, Horizon(w)) <= GUARD
  {
    CountingRepeats(w);
    WeekCountExact(w, w.validFrom.value);
    assert Horizon(w) <= w.validFrom.value + 106_750;
    ServedFromAnchor(w, first, Horizon(w));
    FewServed(w, w.validFrom.value, Horizon(w));
    AtMostEveryThirdWeek(7 * w.repeatEvery, ServedIn(w, w.validFrom.value, Horizon(w)));
  }

  lemma AtMostEveryThirdWeek(gap: int, k: int)
    requires gap in {21, 28, 42, 49, 56, 63, 77, 84} && gap * k <= 106_750 + gap - 1
    ensures k <= GUARD
  {
  }

  lemma {:induction false} ServedFromAnchor(w: MaintenanceWindow, lo: int, hi: int)
    requires Schedulable(w)
    ensures ServedIn(w, lo, hi) <= ServedIn(w, w.validFrom.value, hi)
    decreases hi - lo
  {
    hide HasWeekday;
    if lo < hi {
      ServedFromAnchor(w, lo, hi - 1);
    }
  }

  // ---- a local date that turns back

  /** Clocks go back one hour at 00:01, as in St. John's until 2011: the date returns to the day before. */
  function TurnsBack(t: int): int { if t < 151 * MINUTE then -9000 else -12600 }

  /** Every day at midnight for two hours. */
  const Midnights: MaintenanceWindow := MaintenanceWindow(
    1, "night", Daily, None, None, Some(0), Some(120), 1, None, None, None, None, Some(-10), None, None, [1], [], [])

  lemma TurnsBackIsValid()
    ensures ValidZone(TurnsBack)
  {
  }

  lemma MidnightStart()
    ensures StartAt(TurnsBack, WallOf(0, 0)) == 150 * MINUTE
  {
    TurnsBackIsValid();
    assert Local(TurnsBack, 150 * MINUTE) == 0;
    StartIsEarliest(TurnsBack, 0, 150 * MINUTE);
  }

  lemma DateBeforeMidnight()
    ensures DateOf(TurnsBack, 152 * MINUTE + 1) == -1
  {
    assert Local(TurnsBack, 152 * MINUTE + 1) == 1 - 58 * MINUTE;
  }

  lemma MidnightIsPlanned()
    ensures OccursOn(Midnights, TurnsBack, 0, Planned(Midnights, 0, TurnsBack))
  {
    var o := Planned(Midnights, 0, TurnsBack);
    AppliedExact(Midnights, o, o);
  }

  /** One minute after the change the occurrence that began at midnight is running, and Current does not see it. */
  lemma MissedWhenTheDateTurnsBack()
    ensures ValidZone(TurnsBack)
    ensures var t := 152 * MINUTE;
            && IsOccurrence(Midnights, TurnsBack, Planned(Midnights, 0, TurnsBack))
            && Covers(Planned(Midnights, 0, TurnsBack), t)
            && Planned(Midnights, 0, TurnsBack) !in Listed(Midnights, TurnsBack, t, t + 1)
  {
    var t := 152 * MINUTE;
    var o := Planned(Midnights, 0, TurnsBack);
    TurnsBackIsValid();
    MidnightStart();
    DateBeforeMidnight();
    MidnightIsPlanned();
    hide TurnsBack;
    hide OccursOn;
    hide ValidZone;
    hide DateOf;
    hide StartAt;
    if o in Listed(Midnights, TurnsBack, t, t + 1) {
      ScanMembers(Midnights, TurnsBack, Meeting(t, t + 1), FirstDay(TurnsBack, t), 0, o);
      var day :| FirstDay(TurnsBack, t) <= day < 0 && OccursOn(Midnights, TurnsBack, day, o);
      JumpsUnderADay();
      OneDayOneOccurrence(Midnights, TurnsBack, day, 0, o);
    }
  }

  lemma JumpsUnderADay()
    ensures forall t, u :: TurnsBack(t) - TurnsBack(u) < 86400
  {
  }
}

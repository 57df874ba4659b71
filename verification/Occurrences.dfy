/** The occurrences of a single maintenance window. */
module Occurrences {
  import opened DaySearch
  import opened Options
  import opened StartDays
  import opened Window
  import opened Zone

  /** The half-open interval [start, end); start is the planned start and identifies the occurrence. */
  datatype Occurrence = Occurrence(windowId: int, start: int, end: int)

  function Planned(w: MaintenanceWindow, day: int, z: Zone): Occurrence
    requires w.startMinute.Some? && w.durationMinutes.Some?
  {
    var start := StartAt(z, WallOf(day, w.startMinute.value));
    Occurrence(w.id, start, start + w.durationMinutes.value * MINUTE)
  }

  method PlanOccurrence(w: MaintenanceWindow, day: int, z: Zone) returns (o: Occurrence)
    requires w.startMinute.Some? && w.durationMinutes.Some?
    ensures o == Planned(w, day, z)
  {
    var start := WallInstant(day, w.startMinute.value, z);
    o := Occurrence(w.id, start, start + w.durationMinutes.value * MINUTE);
  }

  // ---- overrides and the end of the window

  predicate Skipped(overrides: seq<Override>, start: int) {
    exists ov <- overrides :: ov.occurrenceStart == start && ov.endedAt.None?
  }

  function CutEnd(overrides: seq<Override>, start: int, end: int): int {
    if overrides == [] then end
    else
      var ov, e := overrides[|overrides| - 1], CutEnd(overrides[..|overrides| - 1], start, end);
      if ov.occurrenceStart == start && ov.endedAt.Some? && ov.endedAt.value < e then ov.endedAt.value else e
  }

  /** What remains of o once the overrides and the end of the window are applied. */
  function Applied(w: MaintenanceWindow, o: Occurrence): Option<Occurrence> {
    if Skipped(w.overrides, o.start) then None
    else
      var e := CutEnd(w.overrides, o.start, o.end);
      var end := if w.endedAt.Some? && w.endedAt.value < e then w.endedAt.value else e;
      if end > o.start then Some(o.(end := end)) else None
  }

  method Apply(w: MaintenanceWindow, o: Occurrence) returns (r: Option<Occurrence>)
    ensures r == Applied(w, o)
  {
    var cur := o;
    for i := 0 to |w.overrides|
      invariant cur == o.(end := CutEnd(w.overrides[..i], o.start, o.end))
      invariant !Skipped(w.overrides[..i], o.start)
    {
      var ov := w.overrides[i];
      assert w.overrides[..i + 1] == w.overrides[..i] + [ov];
      if ov.occurrenceStart == cur.start {
        if ov.endedAt.None? {
          assert ov in w.overrides;
          return None;
        }
        if ov.endedAt.value < cur.end {
          cur := cur.(end := ov.endedAt.value);
        }
      }
    }
    assert w.overrides[..|w.overrides|] == w.overrides;
    if w.endedAt.Some? && w.endedAt.value < cur.end {
      cur := cur.(end := w.endedAt.value);
    }
    r := if cur.end > cur.start then Some(cur) else None;
  }

  /** The instants that may bring the end of the occurrence starting at start forward. */
  ghost predicate CutsAt(w: MaintenanceWindow, start: int, at: int) {
    w.endedAt == Some(at) || Override(start, Some(at)) in w.overrides
  }

  lemma {:induction false} CutEndMeaning(overrides: seq<Override>, start: int, end: int)
    ensures var e := CutEnd(overrides, start, end);
            && e <= end
            && (forall at :: Override(start, Some(at)) in overrides ==> e <= at)
            && (e == end || Override(start, Some(e)) in overrides)
  {
    if overrides != [] {
      var last := overrides[|overrides| - 1];
      assert overrides == overrides[..|overrides| - 1] + [last];
      CutEndMeaning(overrides[..|overrides| - 1], start, end);
      if last.occurrenceStart == start && last.endedAt.Some? {
        assert last == Override(start, Some(last.endedAt.value));
      }
    }
  }

  /** An occurrence lives on unless it is skipped or cut before it starts; its end is the earliest of the planned end
      and the cuts. */
  ghost predicate Survives(w: MaintenanceWindow, o: Occurrence, p: Occurrence) {
    && p.windowId == o.windowId && p.start == o.start < p.end <= o.end
    && Override(o.start, None) !in w.overrides
    && (forall at :: CutsAt(w, o.start, at) ==> p.end <= at)
    && (p.end == o.end || CutsAt(w, o.start, p.end))
  }

  lemma EarliestCut(w: MaintenanceWindow, o: Occurrence) returns (end: int)
    ensures end <= o.end && (end == o.end || CutsAt(w, o.start, end))
    ensures forall at :: CutsAt(w, o.start, at) ==> end <= at
    ensures Applied(w, o) == if Override(o.start, None) in w.overrides || end <= o.start then None
            else Some(o.(end := end))
  {
    CutEndMeaning(w.overrides, o.start, o.end);
    assert Skipped(w.overrides, o.start) <==> Override(o.start, None) in w.overrides;
    var e := CutEnd(w.overrides, o.start, o.end);
    end := if w.endedAt.Some? && w.endedAt.value < e then w.endedAt.value else e;
  }

  lemma AppliedExact(w: MaintenanceWindow, o: Occurrence, p: Occurrence)
    ensures Applied(w, o) == Some(p) <==> Survives(w, o, p)
  {
    var end := EarliestCut(w, o);
    if Survives(w, o, p) {
      assert p.end == end;
      assert p == o.(end := end);
    }
  }

  lemma AppliedNone(w: MaintenanceWindow, o: Occurrence)
    ensures Applied(w, o).None? <==> Override(o.start, None) in w.overrides || o.end <= o.start
                                     || exists at :: CutsAt(w, o.start, at) && at <= o.start
  {
    var end := EarliestCut(w, o);
  }

  lemma ApplyIsIdempotent(w: MaintenanceWindow, o: Occurrence)
    ensures Applied(w, o).Some? ==> Applied(w, Applied(w, o).value) == Applied(w, o)
  {
    if Applied(w, o).Some? {
      var p := Applied(w, o).value;
      AppliedExact(w, o, p);
      AppliedExact(w, p, p);
    }
  }

  /** Only which overrides there are matters, not their order or repetition. */
  lemma ApplyIgnoresOrder(w: MaintenanceWindow, v: MaintenanceWindow, o: Occurrence)
    requires w.endedAt == v.endedAt
    requires forall ov :: ov in w.overrides <==> ov in v.overrides
    ensures Applied(w, o) == Applied(v, o)
  {
    var e := EarliestCut(w, o);
    var f := EarliestCut(v, o);
    assert forall at :: CutsAt(w, o.start, at) <==> CutsAt(v, o.start, at);
  }

  /** An added override changes an occurrence exactly when it is for its start, the occurrence is still live, and it
      skips it or ends it before its current end. */
  lemma OverrideChangesExactly(w: MaintenanceWindow, ov: Override, o: Occurrence)
    ensures var v := w.(overrides := w.overrides + [ov]);
            Applied(v, o) != Applied(w, o)
            <==> && ov.occurrenceStart == o.start && Applied(w, o).Some?
                 && (ov.endedAt.None? || ov.endedAt.value < Applied(w, o).value.end)
    ensures var v := w.(overrides := w.overrides + [ov]);
            Applied(w, o).Some? && ov.occurrenceStart == o.start ==>
              Applied(v, o) == if ov.endedAt.None? || ov.endedAt.value <= o.start then None
                               else if ov.endedAt.value < Applied(w, o).value.end
                               then Some(Applied(w, o).value.(end := ov.endedAt.value))
                               else Applied(w, o)
  {
    var v := w.(overrides := w.overrides + [ov]);
    if ov.occurrenceStart != o.start {
      AppliedElsewhere(w, v, ov, o);
    } else {
      assert v.overrides[..|v.overrides| - 1] == w.overrides;
      assert ov in v.overrides;
      assert Skipped(v.overrides, o.start) <==> Skipped(w.overrides, o.start) || ov.endedAt.None?;
    }
  }

  /** An added override changes the occurrences of at most one day of the series, unless the zone jumps over the first
      of two successive days. */
  lemma OverrideTouchesOneDay(w: MaintenanceWindow, ov: Override, z: Zone, d: int, e: int)
    requires Schedulable(w) && ValidZone(z) && d < e
    ensures var v := w.(overrides := w.overrides + [ov]);
            || Applied(v, Planned(w, d, z)) == Applied(w, Planned(w, d, z))
            || Applied(v, Planned(w, e, z)) == Applied(w, Planned(w, e, z))
            || (e == d + 1 && SkipsTheDay(z, WallOf(d, w.startMinute.value)))
  {
    hide Applied;
    hide SkipsTheDay;
    var minute := w.startMinute.value;
    OverrideChangesExactly(w, ov, Planned(w, d, z));
    OverrideChangesExactly(w, ov, Planned(w, e, z));
    DaysAsWalls(d, e, minute);
    hide WallOf;
    hide StartAt;
    if StartAt(z, WallOf(d, minute)) == StartAt(z, WallOf(e, minute)) {
      if e == d + 1 {
        EqualStartsExactly(z, WallOf(d, minute));
      } else {
        StartsApart(z, WallOf(d, minute), WallOf(e, minute));
        assert false;
      }
    }
  }

  lemma DaysAsWalls(d: int, e: int, minute: int)
    requires d < e
    ensures WallOf(d, minute) % MINUTE == 0 && WallOf(e, minute) % MINUTE == 0
    ensures if e == d + 1 then WallOf(e, minute) == WallOf(d, minute) + DAY
            else WallOf(d, minute) + DAY < WallOf(e, minute)
  {
    assert WallOf(d, minute) == MINUTE * (1440 * d + minute) && WallOf(e, minute) == MINUTE * (1440 * e + minute);
  }

  /** Where the zone jumps over a day, one skip takes away both its occurrence and that of the day after. */
  lemma OneOverrideTwoDays(w: MaintenanceWindow, z: Zone, d: int)
    requires Schedulable(w) && ValidZone(z) && SkipsTheDay(z, WallOf(d, w.startMinute.value))
    ensures Planned(w, d + 1, z).start == Planned(w, d, z).start
    ensures var v := w.(overrides := w.overrides + [Override(Planned(w, d, z).start, None)]);
            Applied(v, Planned(w, d, z)).None? && Applied(v, Planned(w, d + 1, z)).None?
  {
    hide SkipsTheDay;
    var minute := w.startMinute.value;
    DaysAsWalls(d, d + 1, minute);
    EqualStartsExactly(z, WallOf(d, minute));
    hide StartAt;
    hide WallOf;
    assert Override(Planned(w, d, z).start, None) in w.overrides + [Override(Planned(w, d, z).start, None)];
  }

  lemma AppliedElsewhere(w: MaintenanceWindow, v: MaintenanceWindow, ov: Override, o: Occurrence)
    requires v == w.(overrides := w.overrides + [ov]) && ov.occurrenceStart != o.start
    ensures Applied(v, o) == Applied(w, o)
  {
    assert v.overrides[..|v.overrides| - 1] == w.overrides;
    assert Skipped(v.overrides, o.start) <==> Skipped(w.overrides, o.start);
  }

  // ---- the occurrences meeting an interval

  /** o is an occurrence of w after overrides. */
  ghost predicate IsOccurrence(w: MaintenanceWindow, z: Zone, o: Occurrence) {
    if w.recurrence.Once? then
      w.startsAt.Some? && w.endsAt.Some? && Applied(w, Occurrence(w.id, w.startsAt.value, w.endsAt.value)) == Some(o)
    else
      exists day :: OccursOn(w, z, day, o)
  }

  predicate OccursOn(w: MaintenanceWindow, z: Zone, day: int, o: Occurrence) {
    Scheduled(w, day) && Applied(w, Planned(w, day, z)) == Some(o)
  }

  /** The occurrences asked for: those meeting [from, to), or those starting after t. */
  datatype Query = Meeting(from: int, to: int) | After(t: int)

  predicate Wanted(q: Query, o: Occurrence) {
    match q
    case Meeting(from, to) => o.start < to && from < o.end
    case After(t) => t < o.start
  }

  /** What a single day adds to the list. */
  function OnDay(w: MaintenanceWindow, z: Zone, q: Query, day: int): seq<Occurrence> {
    if !Scheduled(w, day) then []
    else match Applied(w, Planned(w, day, z))
      case None => []
      case Some(o) => if Wanted(q, o) then [o] else []
  }

  /** The plain definition: walk the days lo, ..., hi - 1 one by one. */
  function Scan(w: MaintenanceWindow, z: Zone, q: Query, lo: int, hi: int): seq<Occurrence>
    decreases hi - lo
  {
    if hi <= lo then [] else Scan(w, z, q, lo, hi - 1) + OnDay(w, z, q, hi - 1)
  }

  function FirstDay(z: Zone, from: int): int { DateOf(z, from - 7 * DAY) - 1 }

  /** The windows that can be stored, and those turned down at once. */
  predicate Searchable(w: MaintenanceWindow) {
    || w.recurrence.Once? || w.recurrence.Unknown?
    || w.validFrom.None? || w.startMinute.None? || w.durationMinutes.None? || Schedulable(w)
  }

  function Listed(w: MaintenanceWindow, z: Zone, from: int, to: int): seq<Occurrence> {
    if to <= from then []
    else if w.recurrence.Once? then
      if w.startsAt.None? || w.endsAt.None? then []
      else match Applied(w, Occurrence(w.id, w.startsAt.value, w.endsAt.value))
        case None => []
        case Some(o) => if Wanted(Meeting(from, to), o) then [o] else []
    else Scan(w, z, Meeting(from, to), FirstDay(z, from), DateOf(z, to) + 1)
  }

  // ---- the search, as it is for days however far from the anchor

  /** Some search made on the way from first to last gets no further. */
  ghost predicate NeverEnds(w: MaintenanceWindow, first: int, last: int) {
    Blocked(w, first) || exists x :: first <= x <= last && Scheduled(w, x) && Blocked(w, x + 1)
  }

  ghost predicate ListingNeverEnds(w: MaintenanceWindow, z: Zone, from: int, to: int) {
    from < to && NeverEnds(w, FirstDay(z, from), DateOf(z, to))
  }

  /** The days served by the search, one by one. */
  function Searched(w: MaintenanceWindow, z: Zone, q: Query, lo: int, hi: int): seq<Occurrence>
    decreases hi - lo
  {
    if hi <= lo then [] else Searched(w, z, q, lo, hi - 1) + OnDay(AsSearched(w, hi - 1), z, q, hi - 1)
  }

  /** Within 291 years of the anchor the listing ends and is the list. */
  lemma ListingWithinSpan(w: MaintenanceWindow, z: Zone, from: int, to: int)
    requires Narrow(z) && (Schedulable(w) ==> DateOf(z, to) < w.validFrom.value + MAX_SPAN)
    ensures !ListingNeverEnds(w, z, from, to) && !Drifts(w, DateOf(z, to))
  {
    hide DateOf;
    hide Blocked;
    hide Recurs;
    if from < to {
      WeekEarlier(z, from, to);
    }
    if Schedulable(w) {
      forall d | d <= w.validFrom.value + MAX_SPAN ensures !Blocked(w, d) && !Drifts(w, d) {
        WithinSpan(w, d);
      }
    } else {
      OnlySeriesBlock(w);
    }
  }

  function Collected(w: MaintenanceWindow, z: Zone, from: int, to: int): seq<Occurrence> {
    if to <= from || w.recurrence.Once? then Listed(w, z, from, to)
    else Searched(w, z, Meeting(from, to), FirstDay(z, from), DateOf(z, to) + 1)
  }

  lemma {:induction false} SearchedIsScan(w: MaintenanceWindow, z: Zone, q: Query, lo: int, hi: int)
    requires !Drifts(w, hi - 1)
    ensures Searched(w, z, q, lo, hi) == Scan(w, z, q, lo, hi)
    decreases hi - lo
  {
    if lo < hi {
      SearchedIsScan(w, z, q, lo, hi - 1);
    }
  }

  /** As long as no weekly search has gone past its horizon what is collected is the list. */
  lemma CollectedIsListed(w: MaintenanceWindow, z: Zone, from: int, to: int)
    requires !Drifts(w, DateOf(z, to))
    ensures Collected(w, z, from, to) == Listed(w, z, from, to)
  {
    hide DateOf;
    hide FirstDay;
    if from < to && !w.recurrence.Once? {
      SearchedIsScan(w, z, Meeting(from, to), FirstDay(z, from), DateOf(z, to) + 1);
    }
  }

  lemma {:induction false} SearchedMembers(w: MaintenanceWindow, z: Zone, q: Query, lo: int, hi: int, o: Occurrence)
    ensures o in Searched(w, z, q, lo, hi)
            <==> Wanted(q, o) && exists day :: lo <= day < hi && OccursOn(AsSearched(w, day), z, day, o)
    decreases hi - lo
  {
    hide Scheduled;
    hide Applied;
    hide Planned;
    hide AsSearched;
    if lo < hi {
      SearchedMembers(w, z, q, lo, hi - 1, o);
      var v := AsSearched(w, hi - 1);
      assert o in OnDay(v, z, q, hi - 1) <==> Wanted(q, o) && OccursOn(v, z, hi - 1, o);
    }
  }

  method Occurrences(w: MaintenanceWindow, z: Zone, from: int, to: int) returns (r: Call<seq<Occurrence>>)
    requires Narrow(z) && Searchable(w)
    ensures r == if ListingNeverEnds(w, z, from, to) then NeverReturns else Returns(Collected(w, z, from, to))
  {
    if to <= from {
      return Returns([]);
    }
    if w.recurrence.Once? {
      if w.startsAt.None? || w.endsAt.None? {
        return Returns([]);
      }
      var o := Apply(w, Occurrence(w.id, w.startsAt.value, w.endsAt.value));
      return Returns(if o.None? || !(o.value.start < to) || !(o.value.end > from) then [] else [o.value]);
    }
    if w.validFrom.None? || w.startMinute.None? || w.durationMinutes.None? {
      NothingServed(w, z, Meeting(from, to), FirstDay(z, from), FirstDay(z, from), DateOf(z, to) + 1);
      return Returns([]);
    }
    WeekEarlier(z, from, to);
    r := CollectDays(w, z, from, to, DateOf(z, from - 7 * DAY) - 1, DateOf(z, to));
  }

  /** The search proper: jump from start day to start day. Where a search answers a day before the one asked for, the
      loop goes round there for ever. */
  method CollectDays(w: MaintenanceWindow, z: Zone, from: int, to: int, first: int, last: int)
    returns (r: Call<seq<Occurrence>>)
    requires w.validFrom.Some? && w.startMinute.Some? && w.durationMinutes.Some?
    requires Schedulable(w) || w.recurrence.Unknown?
    requires first <= last
    ensures r == if NeverEnds(w, first, last) then NeverReturns
                 else Returns(Searched(w, z, Meeting(from, to), first, last + 1))
  {
    hide Scheduled;
    hide Applied;
    hide Planned;
    hide Answers;
    hide AsSearched;
    hide Blocked;
    hide NeverEnds;
    var out: seq<Occurrence> := [];
    var reached := first;
    var d := NextStartDate(w, first);
    SearchMeaning(w, reached, d);
    BlockedAtFirst(w, first, last);
    while d.Found? && d.day <= last
      invariant first <= reached <= last + 1
      invariant Answers(w, reached, d)
      invariant Blocked(w, reached) ==> NeverEnds(w, first, last)
      invariant out == Searched(w, z, Meeting(from, to), first, reached)
      decreases last - reached
    {
      SearchMeaning(w, reached, d);
      if d.day < reached {
        return NeverReturns;
      }
      NothingServed(w, z, Meeting(from, to), first, reached, d.day);
      var p := PlanOccurrence(w, d.day, z);
      var o := Apply(w, p);
      if o.Some? && o.value.start < to && o.value.end > from {
        out := out + [o.value];
      }
      ServedDay(w, z, Meeting(from, to), d.day);
      BlockedAfter(w, first, d.day, last);
      reached := d.day + 1;
      d := NextStartDate(w, reached);
    }
    SearchMeaning(w, reached, d);
    if d.Endless? {
      return NeverReturns;
    }
    NothingServed(w, z, Meeting(from, to), first, reached, last + 1);
    NotBlocked(w, first, reached, last, d);
    return Returns(out);
  }

  lemma BlockedAtFirst(w: MaintenanceWindow, first: int, last: int)
    ensures Blocked(w, first) ==> NeverEnds(w, first, last)
  {
  }

  /** A search that is blocked from the day after one it served on is blocked there in the series itself. */
  lemma BlockedAfter(w: MaintenanceWindow, first: int, day: int, last: int)
    requires first <= day <= last && Served(w, day)
    ensures Blocked(w, day + 1) ==> NeverEnds(w, first, last)
  {
    hide Recurs;
    if Blocked(w, day + 1) {
      assert Scheduled(w, day);
    }
  }

  lemma NotBlocked(w: MaintenanceWindow, first: int, reached: int, last: int, d: Search)
    requires first <= reached <= last + 1 && !Blocked(w, reached) && NextServed(w, reached, d) && !d.Endless?
    requires d.Found? ==> last < d.day
    ensures !NeverEnds(w, first, last)
  {
    hide Blocked;
    hide Recurs;
    forall x | first <= x <= last && Scheduled(w, x) ensures !Blocked(w, x + 1) {
      ServedWhenScheduled(w, x);
      if Blocked(w, x + 1) {
        BlockedLater(w, x + 1, reached);
      }
    }
    if Blocked(w, first) {
      BlockedLater(w, first, reached);
    }
  }

  lemma ServedWhenScheduled(w: MaintenanceWindow, x: int)
    requires Scheduled(w, x)
    ensures Served(w, x)
  {
    if Drifts(w, x) {
      hide HasWeekday;
      RecursEveryWeek(w, x);
    }
  }

  lemma RecursEveryWeek(w: MaintenanceWindow, x: int)
    requires Schedulable(w) && w.recurrence.Weekly? && Recurs(w, x)
    ensures Recurs(w.(repeatEvery := 1), x)
  {
    hide HasWeekday;
  }

  /** What a day served adds to the list does not depend on the repeat. */
  lemma ServedDay(w: MaintenanceWindow, z: Zone, q: Query, day: int)
    requires Served(w, day)
    ensures OnDay(AsSearched(w, day), z, q, day)
            == match Applied(w, Planned(w, day, z))
               case None => []
               case Some(o) => if Wanted(q, o) then [o] else []
  {
    hide Recurs;
  }

  lemma {:induction false} NothingServed(w: MaintenanceWindow, z: Zone, q: Query, lo: int, mid: int, hi: int)
    requires lo <= mid && forall x :: mid <= x < hi ==> !Served(w, x)
    ensures mid <= hi ==> Searched(w, z, q, lo, hi) == Searched(w, z, q, lo, mid)
    decreases hi - mid
  {
    hide Scheduled;
    hide Applied;
    hide Planned;
    hide AsSearched;
    if mid < hi {
      assert !Served(w, hi - 1);
      NothingServed(w, z, q, lo, mid, hi - 1);
    }
  }

  lemma {:induction false} NothingScheduled(w: MaintenanceWindow, z: Zone, q: Query, lo: int, mid: int, hi: int)
    requires lo <= mid && forall x :: mid <= x < hi ==> OnDay(w, z, q, x) == []
    ensures mid <= hi ==> Scan(w, z, q, lo, hi) == Scan(w, z, q, lo, mid)
    decreases hi - mid
  {
    if mid < hi {
      NothingScheduled(w, z, q, lo, mid, hi - 1);
    }
  }

  lemma WeekEarlier(z: Zone, from: int, to: int)
    requires Narrow(z) && from < to
    ensures FirstDay(z, from) <= DateOf(z, to)
  {
    assert Local(z, from - 7 * DAY) <= Local(z, to);
  }

  // ---- soundness, completeness, order

  lemma {:induction false} ScanMembers(w: MaintenanceWindow, z: Zone, q: Query, lo: int, hi: int, o: Occurrence)
    ensures o in Scan(w, z, q, lo, hi) <==> Wanted(q, o) && exists day :: lo <= day < hi && OccursOn(w, z, day, o)
    decreases hi - lo
  {
    hide Scheduled;
    hide Applied;
    hide Planned;
    if lo < hi {
      ScanMembers(w, z, q, lo, hi - 1, o);
      assert o in OnDay(w, z, q, hi - 1) <==> Wanted(q, o) && OccursOn(w, z, hi - 1, o);
    }
  }

  lemma OccursStart(w: MaintenanceWindow, z: Zone, day: int, o: Occurrence)
    requires OccursOn(w, z, day, o)
    ensures o.start == StartAt(z, WallOf(day, w.startMinute.value)) && o.start < o.end <= Planned(w, day, z).end
  {
    AppliedExact(w, Planned(w, day, z), o);
  }

  ghost predicate Sorted(s: seq<Occurrence>) {
    forall i, j :: 0 <= i < j < |s| ==> s[i].start <= s[j].start
  }

  lemma EarlierDayEarlierStart(w: MaintenanceWindow, z: Zone, d: int, o: Occurrence, e: int, p: Occurrence)
    requires Narrow(z) && OccursOn(w, z, d, o) && OccursOn(w, z, e, p) && d < e
    ensures o.start <= p.start
  {
    OccursStart(w, z, d, o);
    OccursStart(w, z, e, p);
    StartsNondecreasing(z, WallOf(d, w.startMinute.value), WallOf(e, w.startMinute.value));
  }

  lemma {:induction false} ScanSorted(w: MaintenanceWindow, z: Zone, q: Query, lo: int, hi: int)
    requires Narrow(z)
    ensures Sorted(Scan(w, z, q, lo, hi))
    decreases hi - lo
  {
    hide Scheduled;
    hide Applied;
    hide Planned;
    hide Narrow;
    if lo < hi {
      var s, last := Scan(w, z, q, lo, hi - 1), OnDay(w, z, q, hi - 1);
      ScanSorted(w, z, q, lo, hi - 1);
      if last != [] {
        assert OccursOn(w, z, hi - 1, last[0]);
        forall i | 0 <= i < |s| ensures s[i].start <= last[0].start {
          ScanMembers(w, z, q, lo, hi - 1, s[i]);
          var day :| lo <= day < hi - 1 && OccursOn(w, z, day, s[i]);
          EarlierDayEarlierStart(w, z, day, s[i], hi - 1, last[0]);
        }
      }
    }
  }

  /** Days before the first one searched end too early, and days after the last one start too late. */
  lemma OutsideTheSearch(w: MaintenanceWindow, z: Zone, from: int, to: int, day: int)
    requires ValidZone(z)
    requires day < FirstDay(z, from) || DateOf(z, to) + 1 < day || (DatesAdvance(z) && DateOf(z, to) < day)
    ensures OnDay(w, z, Meeting(from, to), day) == []
  {
    hide Scheduled;
    hide Applied;
    hide Planned;
    hide StartAt;
    hide DateOf;
    hide WallOf;
    var s := OnDay(w, z, Meeting(from, to), day);
    if s != [] {
      assert OccursOn(w, z, day, s[0]);
      InWindowBounds(w, day);
      WithinAWeek(w, z, day, s[0]);
      if day < FirstDay(z, from) {
        LookBack(z, from, day, w.startMinute.value);
      } else if DateOf(z, to) + 1 < day {
        NextDayOnly(z, to, day, w.startMinute.value);
      } else {
        LookAhead(z, to, day, w.startMinute.value);
      }
    }
  }

  lemma WithinAWeek(w: MaintenanceWindow, z: Zone, day: int, o: Occurrence)
    requires OccursOn(w, z, day, o)
    ensures var start := StartAt(z, WallOf(day, w.startMinute.value)); o.start == start && o.end <= start + 7 * DAY
  {
    hide Applied;
    OccursStart(w, z, day, o);
  }

  lemma InWindowBounds(w: MaintenanceWindow, day: int)
    requires Scheduled(w, day)
    ensures Schedulable(w)
  {
  }

  /** Whatever the zone does to the date, only the next local day can start before `to`. */
  lemma NextDayOnly(z: Zone, to: int, day: int, minute: int)
    requires Narrow(z) && 0 <= minute && DateOf(z, to) + 1 < day
    ensures to <= StartAt(z, WallOf(day, minute))
  {
    assert Local(z, to) < (DateOf(z, to) + 1) * DAY;
    assert WallOf(day, minute) >= (DateOf(z, to) + 2) * DAY;
    var wall := WallOf(day, minute);
    assert StartAt(z, wall) == wall - OffsetBefore(z, wall) * SECOND
           || StartAt(z, wall) == wall - OffsetAfter(z, wall) * SECOND;
    assert OffsetBefore(z, wall) - z(to) <= 86400 && OffsetAfter(z, wall) - z(to) <= 86400;
  }

  /** Searching any wider range of days finds nothing more. */
  lemma WiderSearchFindsNothing(w: MaintenanceWindow, z: Zone, from: int, to: int, lo: int, hi: int)
    requires ValidZone(z) && DatesAdvance(z) && from < to
    requires lo <= FirstDay(z, from) && DateOf(z, to) + 1 <= hi
    ensures Scan(w, z, Meeting(from, to), lo, hi) == Scan(w, z, Meeting(from, to), FirstDay(z, from), DateOf(z, to) + 1)
  {
    hide DateOf;
    hide FirstDay;
    hide DatesAdvance;
    var q := Meeting(from, to);
    WeekEarlier(z, from, to);
    hide ValidZone;
    forall x | x < FirstDay(z, from) || DateOf(z, to) + 1 <= x ensures OnDay(w, z, q, x) == [] {
      OutsideTheSearch(w, z, from, to, x);
    }
    NothingScheduled(w, z, q, lo, DateOf(z, to) + 1, hi);
    ScanFromLater(w, z, q, lo, FirstDay(z, from), DateOf(z, to) + 1);
  }

  lemma {:induction false} ScanFromLater(w: MaintenanceWindow, z: Zone, q: Query, lo: int, mid: int, hi: int)
    requires lo <= mid <= hi && forall x :: lo <= x < mid ==> OnDay(w, z, q, x) == []
    ensures Scan(w, z, q, lo, hi) == Scan(w, z, q, mid, hi)
    decreases hi - mid
  {
    if hi == mid {
      NothingScheduled(w, z, q, lo, lo, mid);
    } else {
      ScanFromLater(w, z, q, lo, mid, hi - 1);
    }
  }

  /** The list holds exactly the live occurrences meeting [from, to). */
  lemma ListedExact(w: MaintenanceWindow, z: Zone, from: int, to: int, o: Occurrence)
    requires ValidZone(z) && DatesAdvance(z) && from < to
    ensures o in Listed(w, z, from, to) <==> IsOccurrence(w, z, o) && o.start < to && from < o.end
  {
    hide DateOf;
    hide Applied;
    hide Planned;
    hide Scheduled;
    var q := Meeting(from, to);
    if !w.recurrence.Once? {
      ScanMembers(w, z, q, FirstDay(z, from), DateOf(z, to) + 1, o);
      if day :| OccursOn(w, z, day, o) && Wanted(q, o) {
        assert o in OnDay(w, z, q, day);
        if !(FirstDay(z, from) <= day < DateOf(z, to) + 1) {
          OutsideTheSearch(w, z, from, to, day);
        }
      }
    }
  }

  lemma ListedSorted(w: MaintenanceWindow, z: Zone, from: int, to: int)
    requires Narrow(z)
    ensures Sorted(Listed(w, z, from, to))
  {
    hide DateOf;
    ScanSorted(w, z, Meeting(from, to), FirstDay(z, from), DateOf(z, to) + 1);
  }

  /** o is an occurrence of w as it is searched, past the horizon of a weekly window too. */
  ghost predicate IsSearched(w: MaintenanceWindow, z: Zone, o: Occurrence) {
    if w.recurrence.Once? then IsOccurrence(w, z, o) else exists day :: OccursOn(AsSearched(w, day), z, day, o)
  }

  /** What the day after the local date of `to` would add: the only occurrences the collection can miss. */
  function Missed(w: MaintenanceWindow, z: Zone, from: int, to: int): seq<Occurrence> {
    if to <= from || w.recurrence.Once? then []
    else OnDay(AsSearched(w, DateOf(z, to) + 1), z, Meeting(from, to), DateOf(z, to) + 1)
  }

  lemma NothingMissed(w: MaintenanceWindow, z: Zone, from: int, to: int)
    requires ValidZone(z) && DatesAdvance(z)
    ensures Missed(w, z, from, to) == []
  {
    hide OnDay;
    hide AsSearched;
    if from < to {
      OutsideTheSearch(AsSearched(w, DateOf(z, to) + 1), z, from, to, DateOf(z, to) + 1);
    }
  }

  /** What is collected or missed is exactly the live occurrences, as they are searched, that meet [from, to). */
  lemma CollectedOrMissed(w: MaintenanceWindow, z: Zone, from: int, to: int, o: Occurrence)
    requires ValidZone(z) && from < to
    ensures IsSearched(w, z, o) && o.start < to && from < o.end
            <==> o in Collected(w, z, from, to) || o in Missed(w, z, from, to)
  {
    hide DateOf;
    hide Applied;
    hide Planned;
    hide Scheduled;
    hide AsSearched;
    hide ValidZone;
    hide FirstDay;
    var q, next := Meeting(from, to), DateOf(z, to) + 1;
    if !w.recurrence.Once? {
      SearchedMembers(w, z, q, FirstDay(z, from), next, o);
      if o in Missed(w, z, from, to) {
        assert OccursOn(AsSearched(w, next), z, next, o);
      }
      if day :| OccursOn(AsSearched(w, day), z, day, o) && Wanted(q, o) {
        assert o in OnDay(AsSearched(w, day), z, q, day);
        if !(FirstDay(z, from) <= day <= next) {
          OutsideTheSearch(AsSearched(w, day), z, from, to, day);
        }
      }
    }
  }

  /** In a zone whose date never turns back that is what is collected. */
  lemma CollectedExact(w: MaintenanceWindow, z: Zone, from: int, to: int, o: Occurrence)
    requires ValidZone(z) && DatesAdvance(z) && from < to
    ensures o in Collected(w, z, from, to) <==> IsSearched(w, z, o) && o.start < to && from < o.end
  {
    hide *;
    NothingMissed(w, z, from, to);
    CollectedOrMissed(w, z, from, to, o);
  }

  /** Up to the horizon the occurrences searched are those of the window. */
  lemma SearchedBeforeHorizon(w: MaintenanceWindow, z: Zone, from: int, to: int, o: Occurrence)
    requires ValidZone(z) && DatesAdvance(z) && !Drifts(w, DateOf(z, to)) && from < to && Wanted(Meeting(from, to), o)
    ensures IsSearched(w, z, o) <==> IsOccurrence(w, z, o)
  {
    hide IsSearched;
    hide IsOccurrence;
    hide DatesAdvance;
    hide ValidZone;
    CollectedExact(w, z, from, to, o);
    ListedExact(w, z, from, to, o);
    CollectedIsListed(w, z, from, to);
  }

  lemma SearchedEarlier(w: MaintenanceWindow, z: Zone, d: int, o: Occurrence, e: int, p: Occurrence)
    requires Narrow(z) && d < e
    requires OccursOn(AsSearched(w, d), z, d, o) && (OccursOn(w, z, e, p) || OccursOn(AsSearched(w, e), z, e, p))
    ensures o.start <= p.start
    ensures (forall t, u :: z(t) - z(u) < 86400) ==> o.start < p.start
  {
    hide Recurs;
    OccursStart(AsSearched(w, d), z, d, o);
    if OccursOn(w, z, e, p) {
      OccursStart(w, z, e, p);
    } else {
      OccursStart(AsSearched(w, e), z, e, p);
    }
    var a, b := WallOf(d, w.startMinute.value), WallOf(e, w.startMinute.value);
    DaysAsWalls(d, e, w.startMinute.value);
    hide *;
    StartsNondecreasing(z, a, b);
    if forall t, u :: z(t) - z(u) < 86400 {
      StartsIncrease(z, a, b);
    }
  }

  /** What is searched day by day comes in the order of the starts, strictly if the zone never jumps by a day. */
  lemma {:induction false} SearchedAscends(w: MaintenanceWindow, z: Zone, q: Query, lo: int, hi: int)
    requires Narrow(z)
    ensures Sorted(Searched(w, z, q, lo, hi))
    ensures (forall t, u :: z(t) - z(u) < 86400) ==>
              var s := Searched(w, z, q, lo, hi); forall i, j :: 0 <= i < j < |s| ==> s[i].start < s[j].start
    decreases hi - lo
  {
    hide Scheduled;
    hide Applied;
    hide Planned;
    hide AsSearched;
    hide Narrow;
    if lo < hi {
      var v := AsSearched(w, hi - 1);
      var s, last := Searched(w, z, q, lo, hi - 1), OnDay(v, z, q, hi - 1);
      SearchedAscends(w, z, q, lo, hi - 1);
      if last != [] {
        assert OccursOn(v, z, hi - 1, last[0]);
        forall i | 0 <= i < |s|
          ensures s[i].start <= last[0].start
          ensures (forall t, u :: z(t) - z(u) < 86400) ==> s[i].start < last[0].start {
          SearchedMembers(w, z, q, lo, hi - 1, s[i]);
          var day :| lo <= day < hi - 1 && OccursOn(AsSearched(w, day), z, day, s[i]);
          SearchedEarlier(w, z, day, s[i], hi - 1, last[0]);
        }
      }
    }
  }

  lemma OneDayOneOccurrence(w: MaintenanceWindow, z: Zone, d: int, e: int, o: Occurrence)
    requires forall t, u :: z(t) - z(u) < 86400
    requires OccursOn(w, z, d, o) && OccursOn(w, z, e, o)
    ensures d == e
  {
    InWindowBounds(w, d);
    var a, b := WallOf(d, w.startMinute.value), WallOf(e, w.startMinute.value);
    OccursStart(w, z, d, o);
    OccursStart(w, z, e, o);
    assert StartAt(z, a) == StartAt(z, b);
    if d < e {
      DaysAsWalls(d, e, w.startMinute.value);
    } else if e < d {
      DaysAsWalls(e, d, w.startMinute.value);
    }
    hide *;
    if a + DAY <= b {
      StartsIncrease(z, a, b);
    } else if b + DAY <= a {
      StartsIncrease(z, b, a);
    }
  }

  /** In a zone whose date may turn back, the list is complete exactly when the local day after the one at `to` adds
      nothing: that day is the only one the search can stop short of. */
  lemma ListedCompleteWhen(w: MaintenanceWindow, z: Zone, from: int, to: int)
    requires ValidZone(z) && from < to && !w.recurrence.Once?
    requires forall t, u :: z(t) - z(u) < 86400
    ensures (forall o :: IsOccurrence(w, z, o) && o.start < to && from < o.end ==> o in Listed(w, z, from, to))
            <==> OnDay(w, z, Meeting(from, to), DateOf(z, to) + 1) == []
  {
    hide DateOf;
    hide FirstDay;
    hide Applied;
    hide Planned;
    hide Scheduled;
    hide ValidZone;
    var q, next := Meeting(from, to), DateOf(z, to) + 1;
    if OnDay(w, z, q, next) == [] {
      forall o | IsOccurrence(w, z, o) && Wanted(q, o) ensures o in Listed(w, z, from, to) {
        var day :| OccursOn(w, z, day, o);
        assert o in OnDay(w, z, q, day);
        if !(FirstDay(z, from) <= day < next) {
          OutsideTheSearch(w, z, from, to, day);
        }
        ScanMembers(w, z, q, FirstDay(z, from), next, o);
      }
    } else {
      var o := OnDay(w, z, q, next)[0];
      assert OccursOn(w, z, next, o);
      if o in Listed(w, z, from, to) {
        ScanMembers(w, z, q, FirstDay(z, from), next, o);
        var day :| FirstDay(z, from) <= day < next && OccursOn(w, z, day, o);
        OneDayOneOccurrence(w, z, day, next, o);
      }
      assert IsOccurrence(w, z, o) && Wanted(q, o) && o !in Listed(w, z, from, to);
    }
  }

  // ---- the occurrence running now

  ghost predicate Covers(o: Occurrence, t: int) { o.start <= t < o.end }

  method Current(w: MaintenanceWindow, z: Zone, t: int) returns (r: Call<Option<Occurrence>>)
    requires Narrow(z) && Searchable(w)
    ensures r == if ListingNeverEnds(w, z, t, t + 1) then NeverReturns
                 else Returns(if Collected(w, z, t, t + 1) == [] then None else Some(Collected(w, z, t, t + 1)[0]))
  {
    hide Narrow;
    hide Searchable;
    hide Collected;
    hide ListingNeverEnds;
    var found := Occurrences(w, z, t, t + 1);
    if found.NeverReturns? {
      return NeverReturns;
    }
    var os := found.result;
    CollectedMeets(w, z, t, t + 1);
    for i := 0 to |os|
      invariant i == 0
    {
      assert os[i] in Collected(w, z, t, t + 1);
      if !(os[i].start > t) && os[i].end > t {
        return Returns(Some(os[i]));
      }
    }
    return Returns(None);
  }

  lemma CollectedMeets(w: MaintenanceWindow, z: Zone, from: int, to: int)
    ensures forall o :: o in Collected(w, z, from, to) ==> Wanted(Meeting(from, to), o)
  {
    hide DateOf;
    hide AsSearched;
    forall o | o in Collected(w, z, from, to) ensures Wanted(Meeting(from, to), o) {
      SearchedMembers(w, z, Meeting(from, to), FirstDay(z, from), DateOf(z, to) + 1, o);
    }
  }

  /** A running occurrence is found if there is one, and it is the one that started first. */
  lemma CurrentExact(w: MaintenanceWindow, z: Zone, t: int)
    requires ValidZone(z) && DatesAdvance(z)
    ensures var s := Listed(w, z, t, t + 1);
            if s == [] then forall o :: IsOccurrence(w, z, o) ==> !Covers(o, t)
            else IsOccurrence(w, z, s[0]) && Covers(s[0], t)
                 && forall o :: IsOccurrence(w, z, o) && Covers(o, t) ==> s[0].start <= o.start
  {
    hide DateOf;
    hide Applied;
    hide Planned;
    hide Scheduled;
    hide Listed;
    hide IsOccurrence;
    hide ValidZone;
    hide DatesAdvance;
    var s := Listed(w, z, t, t + 1);
    forall o ensures o in s <==> IsOccurrence(w, z, o) && Covers(o, t) {
      ListedExact(w, z, t, t + 1, o);
    }
    assert Narrow(z) by {
      ZoneIsNarrow(z);
    }
    ListedSorted(w, z, t, t + 1);
    if s != [] {
      assert s[0] in s;
    }
  }

  lemma ZoneIsNarrow(z: Zone)
    requires ValidZone(z)
    ensures Narrow(z)
  {
  }
}

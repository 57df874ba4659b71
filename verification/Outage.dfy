/** Whether a host is in maintenance, and until when without interruption. */
module Outage {
  import opened DaySearch
  import opened Options
  import opened Occurrences
  import opened Schedule
  import opened Window
  import opened Zone

  // How far ahead the end of an unbroken outage is looked for.
  const HORIZON: int := 32 * DAY

  /** Some occurrence of some window covers t. */
  ghost predicate InMaintenance(ws: seq<MaintenanceWindow>, z: Zone, t: int) {
    exists w, o :: w in ws && IsOccurrence(w, z, o) && Covers(o, t)
  }

  /** Likewise for the occurrences as they are searched, weekly windows past their horizon included. */
  ghost predicate InSearchedMaintenance(ws: seq<MaintenanceWindow>, z: Zone, t: int) {
    exists w, o :: w in ws && IsSearched(w, z, o) && Covers(o, t)
  }

  function Insert(s: seq<Occurrence>, o: Occurrence): seq<Occurrence> {
    if s == [] || s[|s| - 1].start <= o.start then s + [o] else Insert(s[..|s| - 1], o) + [s[|s| - 1]]
  }

  function SortByStart(s: seq<Occurrence>): seq<Occurrence> {
    if s == [] then [] else Insert(SortByStart(s[..|s| - 1]), s[|s| - 1])
  }

  lemma {:induction false} InsertSorts(s: seq<Occurrence>, o: Occurrence)
    requires Sorted(s)
    ensures Sorted(Insert(s, o)) && forall p :: p in Insert(s, o) <==> p in s || p == o
  {
    if s != [] && s[|s| - 1].start > o.start {
      var init, last := s[..|s| - 1], s[|s| - 1];
      assert s == init + [last];
      InsertSorts(init, o);
      assert forall p :: p in init ==> p.start <= last.start;
      var r := Insert(init, o);
      assert forall i :: 0 <= i < |r| ==> r[i] in r && r[i].start <= last.start;
    }
  }

  lemma {:induction false} SortSorts(s: seq<Occurrence>)
    ensures Sorted(SortByStart(s)) && forall p :: p in SortByStart(s) <==> p in s
  {
    if s != [] {
      assert s == s[..|s| - 1] + [s[|s| - 1]];
      SortSorts(s[..|s| - 1]);
      InsertSorts(SortByStart(s[..|s| - 1]), s[|s| - 1]);
    }
  }

  ghost predicate AllSearchable(ws: seq<MaintenanceWindow>) {
    forall w :: w in ws ==> Searchable(w)
  }

  ghost predicate SomeNeverEnds(ws: seq<MaintenanceWindow>, z: Zone, from: int, to: int) {
    exists w :: w in ws && ListingNeverEnds(w, z, from, to)
  }

  ghost predicate CollectedOfSome(ws: seq<MaintenanceWindow>, z: Zone, from: int, to: int, o: Occurrence) {
    exists w :: w in ws && o in Collected(w, z, from, to)
  }

  /** The occurrences of all windows that are collected for [from, to), unless collecting those of one never ends. */
  method Gather(ws: seq<MaintenanceWindow>, z: Zone, from: int, to: int) returns (r: Call<seq<Occurrence>>)
    requires Narrow(z) && AllSearchable(ws)
    ensures r.NeverReturns? <==> SomeNeverEnds(ws, z, from, to)
    ensures r.Returns? ==> forall o :: o in r.result <==> CollectedOfSome(ws, z, from, to, o)
  {
    hide Collected;
    hide Searchable;
    hide ListingNeverEnds;
    hide Narrow;
    var all: seq<Occurrence> := [];
    for i := 0 to |ws|
      invariant !SomeNeverEnds(ws[..i], z, from, to)
      invariant forall o :: o in all <==> CollectedOfSome(ws[..i], z, from, to, o)
    {
      assert ws[i] in ws;
      var os := Occurrences.Occurrences(ws[i], z, from, to);
      if os.NeverReturns? {
        return NeverReturns;
      }
      assert ws[..i + 1] == ws[..i] + [ws[i]];
      forall o ensures CollectedOfSome(ws[..i + 1], z, from, to, o)
                       <==> CollectedOfSome(ws[..i], z, from, to, o) || o in os.result {
      }
      all := all + os.result;
    }
    assert ws[..|ws|] == ws;
    return Returns(all);
  }

  ghost predicate CoveredBy(all: seq<Occurrence>, u: int) {
    exists o :: o in all && Covers(o, u)
  }

  /** The unbroken stretch of a sorted list of occurrences that starts at t. */
  method Stretch(all: seq<Occurrence>, t: int) returns (r: Option<int>)
    requires Sorted(all)
    ensures r.Some? <==> CoveredBy(all, t)
    ensures r.Some? ==> t < r.value && !CoveredBy(all, r.value) && forall u :: t <= u < r.value ==> CoveredBy(all, u)
  {
    var until, active := t, false;
    for i := 0 to |all|
      invariant !active ==> forall k :: 0 <= k < i ==> !Covers(all[k], t)
      invariant active ==> t < until && forall u :: t <= u < until ==> CoveredBy(all, u)
    {
      var o := all[i];
      if !(o.start > t) && o.end > t && (!active || o.end > until) {
        forall u | t <= u < o.end ensures CoveredBy(all, u) {
          assert o in all && Covers(o, u);
        }
        until, active := o.end, true;
      }
    }
    if !active {
      return None;
    }
    var i := 0;
    while i < |all|
      invariant 0 <= i <= |all|
      invariant t < until && forall u :: t <= u < until ==> CoveredBy(all, u)
      invariant forall k :: 0 <= k < i ==> all[k].end <= until
    {
      var o := all[i];
      if o.start > until {
        break;
      }
      if o.end > until {
        forall u | until <= u < o.end ensures CoveredBy(all, u) {
          assert o in all && Covers(o, u);
        }
        until := o.end;
      }
      i := i + 1;
    }
    return Some(until);
  }

  /** Active exactly when t is covered; the end is the first uncovered instant, or the horizon when nothing before it is
      uncovered. */
  ghost predicate IsOutage(covered: int -> bool, t: int, until: Option<int>) {
    && (until.Some? <==> covered(t))
    && (until.Some? ==>
          && t < until.value <= t + 2_764_800_000_000_000
          && (forall u :: t <= u < until.value ==> covered(u))
          && (until.value == t + 2_764_800_000_000_000 || !covered(until.value)))
  }

  /** The occurrence of a start day, neither cut nor skipped: from the instant the local clock first shows the start
      minute until the duration has passed. */
  ghost predicate Timely(w: MaintenanceWindow, z: Zone, day: int, u: int, end: int) {
    && Schedulable(w) && w.overrides == [] && w.endedAt.None?
    && StartsOn(w, day) && FirstShows(z, u, day, w.startMinute.value)
    && end == u + w.durationMinutes.value * 60_000_000_000
  }

  /** During such an occurrence the answer is an outage that lasts at least as long, or to the horizon. */
  ghost predicate OutageOnTime(ws: seq<MaintenanceWindow>, z: Zone, t: int, until: Option<int>) {
    forall w, day, u, end :: w in ws && Timely(w, z, day, u, end) && u <= t < end ==>
      until.Some? && (until.value >= end || until.value == t + 2_764_800_000_000_000)
  }

  lemma TimelyIsMaintenance(ws: seq<MaintenanceWindow>, w: MaintenanceWindow, z: Zone, day: int, u: int, end: int,
                            t: int)
    requires ValidZone(z) && w in ws && Timely(w, z, day, u, end) && u <= t < end
    ensures InMaintenance(ws, z, t)
  {
    hide ValidZone;
    hide StartsOn;
    hide FirstShows;
    var o := From(w, u);
    OccurrenceExact(w, z, day, u, o);
    hide OccursOn;
    assert IsOccurrence(w, z, o) && Covers(o, t);
  }

  lemma OutageCoversTheTimely(ws: seq<MaintenanceWindow>, z: Zone, t: int, until: Option<int>)
    requires ValidZone(z) && IsOutage(u => InMaintenance(ws, z, u), t, until)
    ensures OutageOnTime(ws, z, t, until)
  {
    hide ValidZone;
    hide Timely;
    hide InMaintenance;
    forall w, day, u, end | w in ws && Timely(w, z, day, u, end) && u <= t < end
      ensures until.Some? && (until.value >= end || until.value == t + 2_764_800_000_000_000) {
      TimelyIsMaintenance(ws, w, z, day, u, end, t);
      if until.value < end {
        TimelyIsMaintenance(ws, w, z, day, u, end, until.value);
      }
    }
  }

  /** No weekly window has been searched past its horizon. */
  ghost predicate Undrifted(ws: seq<MaintenanceWindow>, z: Zone, to: int) {
    forall w :: w in ws ==> !Drifts(w, DateOf(z, to))
  }

  /** An occurrence that the collection for [from, to) misses covers u. */
  ghost predicate MissedAt(ws: seq<MaintenanceWindow>, z: Zone, from: int, to: int, u: int) {
    exists w, o :: w in ws && o in Missed(w, z, from, to) && Covers(o, u)
  }

  /** The instant on which an answer can be wrong: t itself if it is said to be free, else the end given. */
  function Verge(t: int, until: Option<int>): int { if until.Some? then until.value else t }

  /** Whether t is in maintenance and until when without interruption; never answered if the occurrences of some
      window cannot be collected. In a zone whose date may turn back it is right exactly when nothing missed covers
      the verge. */
  method ActiveAt(ws: seq<MaintenanceWindow>, z: Zone, t: int) returns (r: Call<Option<int>>)
    requires ValidZone(z) && AllSearchable(ws)
    ensures r.NeverReturns? <==> SomeNeverEnds(ws, z, t, t + HORIZON)
    ensures r.Returns? ==>
              (IsOutage(u => InSearchedMaintenance(ws, z, u), t, r.result)
               <==> r.result == Some(t + HORIZON) || !MissedAt(ws, z, t, t + HORIZON, Verge(t, r.result)))
    ensures r.Returns? && DatesAdvance(z) ==> IsOutage(u => InSearchedMaintenance(ws, z, u), t, r.result)
    ensures r.Returns? && DatesAdvance(z) && Undrifted(ws, z, t + HORIZON) ==>
              IsOutage(u => InMaintenance(ws, z, u), t, r.result) && OutageOnTime(ws, z, t, r.result)
  {
    hide AllSearchable;
    hide DatesAdvance;
    hide SomeNeverEnds;
    hide Undrifted;
    hide Covers;
    ZoneIsNarrow(z);
    hide ValidZone;
    hide Narrow;
    var found := Gather(ws, z, t, t + HORIZON);
    if found.NeverReturns? {
      return NeverReturns;
    }
    SortSorts(found.result);
    var all := SortByStart(found.result);
    var until := Stretch(all, t);
    if until.Some? && until.value > t + HORIZON {
      until := Some(t + HORIZON);
    }
    OutageOfCollected(ws, z, t, all, until);
    return Returns(until);
  }

  /** What the stretch of the collected occurrences says of the maintenance of the windows. */
  lemma OutageOfCollected(ws: seq<MaintenanceWindow>, z: Zone, t: int, all: seq<Occurrence>, until: Option<int>)
    requires ValidZone(z)
    requires forall o :: o in all <==> CollectedOfSome(ws, z, t, t + HORIZON, o)
    requires until.Some? <==> CoveredBy(all, t)
    requires until.Some? ==> t < until.value <= t + HORIZON && forall u :: t <= u < until.value ==> CoveredBy(all, u)
    requires until.Some? ==> until.value == t + HORIZON || !CoveredBy(all, until.value)
    ensures IsOutage(u => InSearchedMaintenance(ws, z, u), t, until)
            <==> until == Some(t + HORIZON) || !MissedAt(ws, z, t, t + HORIZON, Verge(t, until))
    ensures DatesAdvance(z) ==> IsOutage(u => InSearchedMaintenance(ws, z, u), t, until)
    ensures DatesAdvance(z) && Undrifted(ws, z, t + HORIZON) ==>
              IsOutage(u => InMaintenance(ws, z, u), t, until) && OutageOnTime(ws, z, t, until)
  {
    hide ValidZone;
    hide DatesAdvance;
    hide Undrifted;
    hide CoveredBy;
    hide CollectedOfSome;
    hide InSearchedMaintenance;
    hide InMaintenance;
    hide MissedAt;
    forall u | t <= u < t + HORIZON
      ensures InSearchedMaintenance(ws, z, u) <==> CoveredBy(all, u) || MissedAt(ws, z, t, t + HORIZON, u) {
      CoveredOrMissed(ws, z, t, t + HORIZON, all, u);
    }
    if DatesAdvance(z) {
      NeverMissed(ws, z, t, t + HORIZON);
      if Undrifted(ws, z, t + HORIZON) {
        forall u | t <= u < t + HORIZON ensures InSearchedMaintenance(ws, z, u) <==> InMaintenance(ws, z, u) {
          MaintenanceAsSearched(ws, z, t + HORIZON, u);
        }
        OutageCoversTheTimely(ws, z, t, until);
      }
    }
  }

  lemma NeverMissed(ws: seq<MaintenanceWindow>, z: Zone, from: int, to: int)
    requires ValidZone(z) && DatesAdvance(z)
    ensures forall u :: !MissedAt(ws, z, from, to, u)
  {
    hide ValidZone;
    hide DatesAdvance;
    hide Missed;
    forall w ensures Missed(w, z, from, to) == [] {
      NothingMissed(w, z, from, to);
    }
  }

  lemma CoveredOrMissed(ws: seq<MaintenanceWindow>, z: Zone, from: int, to: int, all: seq<Occurrence>, u: int)
    requires ValidZone(z) && from <= u < to
    requires forall o :: o in all <==> CollectedOfSome(ws, z, from, to, o)
    ensures InSearchedMaintenance(ws, z, u) <==> CoveredBy(all, u) || MissedAt(ws, z, from, to, u)
  {
    hide ValidZone;
    hide IsSearched;
    hide Collected;
    hide Missed;
    forall w, o | Covers(o, u)
      ensures IsSearched(w, z, o) <==> o in Collected(w, z, from, to) || o in Missed(w, z, from, to) {
      CollectedOrMissed(w, z, from, to, o);
    }
    if w, o :| w in ws && IsSearched(w, z, o) && Covers(o, u) {
      assert o in Collected(w, z, from, to) ==> CollectedOfSome(ws, z, from, to, o) && o in all;
    }
  }

  /** Before every horizon the occurrences searched are those of the windows. */
  lemma MaintenanceAsSearched(ws: seq<MaintenanceWindow>, z: Zone, to: int, u: int)
    requires ValidZone(z) && DatesAdvance(z) && Undrifted(ws, z, to) && u < to
    ensures InSearchedMaintenance(ws, z, u) <==> InMaintenance(ws, z, u)
  {
    hide IsSearched;
    hide IsOccurrence;
    hide DatesAdvance;
    hide ValidZone;
    hide Drifts;
    forall w, o | w in ws && Covers(o, u) ensures IsSearched(w, z, o) <==> IsOccurrence(w, z, o) {
      SearchedBeforeHorizon(w, z, u, to, o);
    }
  }

  /** Any two answers allowed by the contract of ActiveAt agree. */
  lemma OutageEndUnique(ws: seq<MaintenanceWindow>, z: Zone, t: int, a: int, b: int)
    requires forall e :: e in [a, b] ==> t < e <= t + HORIZON && (e == t + HORIZON || !InMaintenance(ws, z, e))
    requires forall e, u :: e in [a, b] && t <= u < e ==> InMaintenance(ws, z, u)
    ensures a == b
  {
    assert a in [a, b] && b in [a, b];
  }
}

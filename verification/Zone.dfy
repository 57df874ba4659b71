/** Instants, time zones, and the instant at which a wall-clock time happens. */
module Zone {

  // Instants and durations are counted in nanoseconds, zone offsets in seconds.
  const SECOND: int := 1_000_000_000
  const MINUTE: int := 60 * SECOND
  const HOUR: int := 60 * MINUTE
  const DAY: int := 24 * HOUR

  /** The offset from UTC, in seconds, in force at each instant. */
  type Zone = int -> int

  /** The local clock at t, read as if it were UTC. */
  function Local(z: Zone, t: int): int { t + z(t) * SECOND }

  function DateOf(z: Zone, t: int): int { Local(z, t) / DAY }

  function WallOf(day: int, minute: int): int { day * DAY + minute * MINUTE }

  ghost predicate WholeMinutes(z: Zone) {
    forall t :: z(t) % 60 == 0
  }

  /** Offsets stay within a day of UTC and within a day of each other. */
  ghost predicate Narrow(z: Zone) {
    && (forall t :: -86400 <= z(t) <= 86400)
    && (forall t, u :: z(t) - z(u) <= 86400)
  }

  /** At most one offset change in any 96 hours. */
  ghost predicate RareChanges(z: Zone) {
    forall a, b, c :: a <= b <= c <= a + 96 * HOUR ==> z(a) == z(b) || z(b) == z(c)
  }

  ghost predicate ValidZone(z: Zone) {
    WholeMinutes(z) && Narrow(z) && RareChanges(z)
  }

  /** The local calendar never turns back to an earlier date. */
  ghost predicate DatesAdvance(z: Zone) {
    forall t, u :: t <= u ==> DateOf(z, t) <= DateOf(z, u)
  }

  /** The year, day, hour and minute shown at c are those of wall. */
  predicate Reads(z: Zone, c: int, wall: int) {
    Local(z, c) / MINUTE == wall / MINUTE
  }

  function OffsetBefore(z: Zone, wall: int): int { z(wall - 48 * HOUR) }

  function OffsetAfter(z: Zone, wall: int): int { z(wall + 48 * HOUR) }

  /** The instant chosen for a wall-clock time. */
  function StartAt(z: Zone, wall: int): int {
    var c := wall - OffsetBefore(z, wall) * SECOND;
    var e := wall - OffsetAfter(z, wall) * SECOND;
    if Reads(z, e, wall) && (!Reads(z, c, wall) || e < c) then e else c
  }

  method WallInstant(day: int, minute: int, z: Zone) returns (best: int)
    ensures best == StartAt(z, WallOf(day, minute))
            == StartAt(z, day * 86_400_000_000_000 + minute * 60_000_000_000)
  {
    var wall := day * DAY + minute * MINUTE;
    var before := z(wall - 48 * HOUR);
    var after := z(wall + 48 * HOUR);
    var offsets := [before, after];
    var found := false;
    best := 0;
    for i := 0 to 2
      invariant i == 0 ==> !found
      invariant i == 1 ==> found == Reads(z, wall - before * SECOND, wall)
      invariant i == 1 && found ==> best == wall - before * SECOND
      invariant i == 2 ==> found == (Reads(z, wall - before * SECOND, wall) || Reads(z, wall - after * SECOND, wall))
      invariant i == 2 && found ==> best == StartAt(z, wall)
    {
      var c := wall - offsets[i] * SECOND;
      if Reads(z, c, wall) {
        if !found || c < best {
          best, found := c, true;
        }
      }
    }
    if !found {
      best := wall - before * SECOND;
    }
  }

  lemma ReadsExactly(z: Zone, wall: int, off: int)
    requires WholeMinutes(z) && wall % MINUTE == 0 && off % 60 == 0
    ensures Reads(z, wall - off * SECOND, wall) <==> z(wall - off * SECOND) == off
  {
    var u := wall - off * SECOND;
    var w, k := wall / MINUTE, (z(u) - off) / 60;
    assert z(u) - off == 60 * k;
    assert Local(z, u) == wall + (z(u) - off) * SECOND == MINUTE * (w + k);
  }

  /** Any instant showing wall uses one of the two sampled offsets. */
  lemma SampledOffset(z: Zone, wall: int, u: int)
    requires ValidZone(z) && Local(z, u) == wall
    ensures z(u) == OffsetBefore(z, wall) || z(u) == OffsetAfter(z, wall)
  {
    assert wall - 48 * HOUR <= u <= wall + 48 * HOUR;
  }

  /** When some instant shows the wall time, the earliest such instant is chosen. */
  lemma StartIsEarliest(z: Zone, wall: int, u: int)
    requires ValidZone(z) && wall % MINUTE == 0 && Local(z, u) == wall
    ensures Local(z, StartAt(z, wall)) == wall && StartAt(z, wall) <= u
  {
    SampledOffset(z, wall, u);
    ReadsExactly(z, wall, OffsetBefore(z, wall));
    ReadsExactly(z, wall, OffsetAfter(z, wall));
  }

  /** The first instant after lo with another offset than at lo. */
  ghost function ChangeAfter(z: Zone, lo: int, hi: int): (t: int)
    requires lo <= hi && z(lo) != z(hi)
    ensures lo < t <= hi && z(t) != z(lo)
    ensures forall u :: lo <= u < t ==> z(u) == z(lo)
    decreases hi - lo
  {
    if z(lo + 1) != z(lo) then lo + 1 else ChangeAfter(z, lo + 1, hi)
  }

  /** When the wall time is skipped, it lies in the local gap of one forward change at t, and the start is moved on by
      exactly that gap. */
  lemma StartInGap(z: Zone, wall: int) returns (t: int)
    requires ValidZone(z) && wall % MINUTE == 0
    requires forall u :: Local(z, u) != wall
    ensures wall - 48 * HOUR < t <= wall + 48 * HOUR
    ensures forall u :: wall - 48 * HOUR <= u < t ==> z(u) == OffsetBefore(z, wall)
    ensures forall u :: t <= u <= wall + 48 * HOUR ==> z(u) == OffsetAfter(z, wall)
    ensures t + OffsetBefore(z, wall) * SECOND <= wall < t + OffsetAfter(z, wall) * SECOND
    ensures Local(z, StartAt(z, wall)) == wall + (OffsetAfter(z, wall) - OffsetBefore(z, wall)) * SECOND
  {
    var lo, hi := wall - 48 * HOUR, wall + 48 * HOUR;
    var c, e := wall - z(lo) * SECOND, wall - z(hi) * SECOND;
    assert Local(z, c) != wall && Local(z, e) != wall;
    assert lo <= c <= hi && lo <= e <= hi;
    t := ChangeAfter(z, lo, hi);
    SameOnceChanged(z, lo, t, hi);
    UnreadStart(z, wall);
  }

  /** After the one change within 96 hours the offset stays. */
  lemma SameOnceChanged(z: Zone, lo: int, t: int, hi: int)
    requires RareChanges(z) && lo <= t <= hi <= lo + 96 * HOUR && z(t) != z(lo)
    ensures forall u :: t <= u <= hi ==> z(u) == z(hi)
  {
    forall u | t <= u <= hi ensures z(u) == z(hi) {
      assert lo <= t <= u <= lo + 96 * HOUR;
      assert z(lo) == z(t) || z(t) == z(u);
      assert z(lo) == z(t) || z(t) == z(hi);
    }
  }

  /** A wall time that neither sampled offset shows starts by the earlier one. */
  lemma UnreadStart(z: Zone, wall: int)
    requires WholeMinutes(z) && wall % MINUTE == 0
    requires Local(z, wall - OffsetAfter(z, wall) * SECOND) != wall
    ensures StartAt(z, wall) == wall - OffsetBefore(z, wall) * SECOND
  {
    ReadsExactly(z, wall, OffsetAfter(z, wall));
  }

  /** The local clock at the start never lags behind the wall time asked for. */
  lemma StartNotBefore(z: Zone, wall: int)
    requires ValidZone(z) && wall % MINUTE == 0
    ensures Local(z, StartAt(z, wall)) >= wall
  {
    if u :| Local(z, u) == wall {
      StartIsEarliest(z, wall, u);
    } else {
      var t := StartInGap(z, wall);
    }
  }

  lemma StartsNondecreasing(z: Zone, w: int, v: int)
    requires Narrow(z) && w + DAY <= v
    ensures StartAt(z, w) <= StartAt(z, v)
  {
    assert StartAt(z, w) == w - OffsetBefore(z, w) * SECOND || StartAt(z, w) == w - OffsetAfter(z, w) * SECOND;
    assert StartAt(z, v) == v - OffsetBefore(z, v) * SECOND || StartAt(z, v) == v - OffsetAfter(z, v) * SECOND;
  }

  /** When every jump is shorter than a day, the same minute on successive days never starts at the same instant. */
  lemma StartsIncrease(z: Zone, w: int, v: int)
    requires forall t, u :: z(t) - z(u) < 86400
    requires w + DAY <= v
    ensures StartAt(z, w) < StartAt(z, v)
  {
    assert StartAt(z, w) == w - OffsetBefore(z, w) * SECOND || StartAt(z, w) == w - OffsetAfter(z, w) * SECOND;
    assert StartAt(z, v) == v - OffsetBefore(z, v) * SECOND || StartAt(z, v) == v - OffsetAfter(z, v) * SECOND;
  }

  /** The zone jumps over a whole day at this wall time: neither offset shows it. */
  predicate SkipsTheDay(z: Zone, wall: int) {
    && OffsetAfter(z, wall) - OffsetBefore(z, wall) == 86400
    && !Reads(z, wall - OffsetBefore(z, wall) * SECOND, wall)
    && !Reads(z, wall - OffsetAfter(z, wall) * SECOND, wall)
  }

  /** The same minute of two successive days starts at one instant exactly when the zone jumps over
      the first of them. */
  lemma EqualStartsExactly(z: Zone, wall: int)
    requires ValidZone(z) && wall % MINUTE == 0
    ensures StartAt(z, wall) == StartAt(z, wall + DAY) <==> SkipsTheDay(z, wall)
  {
    hide StartAt;
    hide Reads;
    NextWallIsWhole(wall);
    if StartAt(z, wall) == StartAt(z, wall + DAY) {
      StartOfNextDay(z, wall);
    }
    if SkipsTheDay(z, wall) {
      StartOverTheGap(z, wall);
    }
  }

  lemma NextWallIsWhole(wall: int)
    requires wall % MINUTE == 0
    ensures (wall + DAY) % MINUTE == 0
  {
  }

  lemma StartOfNextDay(z: Zone, wall: int)
    requires ValidZone(z) && wall % MINUTE == 0 && (wall + DAY) % MINUTE == 0
    requires StartAt(z, wall) == StartAt(z, wall + DAY)
    ensures SkipsTheDay(z, wall)
  {
    hide StartAt;
    StartNotBefore(z, wall + DAY);
    forall u ensures Local(z, u) != wall {
      if Local(z, u) == wall {
        StartIsEarliest(z, wall, u);
        assert false;
      }
    }
    hide Reads;
    var t := StartInGap(z, wall);
    NeitherReads(z, wall);
  }

  /** A wall time that no instant shows is shown by neither offset. */
  lemma NeitherReads(z: Zone, wall: int)
    requires WholeMinutes(z) && wall % MINUTE == 0
    requires forall u :: Local(z, u) != wall
    ensures !Reads(z, wall - OffsetBefore(z, wall) * SECOND, wall)
    ensures !Reads(z, wall - OffsetAfter(z, wall) * SECOND, wall)
  {
    var b, a := OffsetBefore(z, wall), OffsetAfter(z, wall);
    ReadsExactly(z, wall, b);
    ReadsExactly(z, wall, a);
    hide Reads;
    assert Local(z, wall - b * SECOND) != wall && Local(z, wall - a * SECOND) != wall;
  }

  lemma StartOverTheGap(z: Zone, wall: int)
    requires ValidZone(z) && wall % MINUTE == 0 && (wall + DAY) % MINUTE == 0 && SkipsTheDay(z, wall)
    ensures StartAt(z, wall) == StartAt(z, wall + DAY)
  {
    forall u ensures Local(z, u) != wall {
      if Local(z, u) == wall {
        SampledOffset(z, wall, u);
        ReadsExactly(z, wall, OffsetBefore(z, wall));
        ReadsExactly(z, wall, OffsetAfter(z, wall));
        assert false;
      }
    }
    var t := StartInGap(z, wall);
    hide Reads;
    StartIsEarliest(z, wall + DAY, StartAt(z, wall));
    hide StartAt;
    StartsNondecreasing(z, wall, wall + DAY);
  }

  /** Starts more than a day apart are never equal. */
  lemma StartsApart(z: Zone, wall: int, later: int)
    requires ValidZone(z) && wall % MINUTE == 0 && later % MINUTE == 0 && wall + DAY < later
    ensures StartAt(z, wall) < StartAt(z, later)
  {
    StartNotBefore(z, later);
    assert StartAt(z, wall) == wall - OffsetBefore(z, wall) * SECOND
           || StartAt(z, wall) == wall - OffsetAfter(z, wall) * SECOND;
    hide StartAt;
    assert z(StartAt(z, wall)) - OffsetBefore(z, wall) <= 86400 && z(StartAt(z, wall)) - OffsetAfter(z, wall) <= 86400;
    assert Local(z, StartAt(z, wall)) <= wall + DAY < later;
    StartsNondecreasing(z, wall, later);
  }

  /** A zone that skips the whole of day 0, as Samoa skipped December 30, 2011. */
  function SkipsADay(t: int): int { if t < 10 * HOUR then -36000 else 50400 }

  /** A jump of a full day makes two successive days start at one instant. */
  lemma EqualStartsAcrossASkippedDay()
    ensures ValidZone(SkipsADay)
    ensures StartAt(SkipsADay, WallOf(0, 120)) == StartAt(SkipsADay, WallOf(1, 120))
  {
    SkipsADayIsValid();
    hide ValidZone;
  }

  lemma SkipsADayIsValid()
    ensures ValidZone(SkipsADay)
  {
  }

  /** Nothing that starts two or more local days before a week before `from` can still run at `from`. */
  lemma LookBack(z: Zone, from: int, day: int, minute: int)
    requires Narrow(z) && minute < 1440
    requires day < DateOf(z, from - 7 * DAY) - 1
    ensures StartAt(z, WallOf(day, minute)) + 7 * DAY <= from
  {
    var wall := WallOf(day, minute);
    assert Local(z, from - 7 * DAY) >= DateOf(z, from - 7 * DAY) * DAY;
    assert wall < (day + 1) * DAY;
    assert StartAt(z, wall) == wall - OffsetBefore(z, wall) * SECOND
           || StartAt(z, wall) == wall - OffsetAfter(z, wall) * SECOND;
    assert z(from - 7 * DAY) - OffsetBefore(z, wall) <= 86400;
    assert z(from - 7 * DAY) - OffsetAfter(z, wall) <= 86400;
  }

  /** A day that starts before `to` is not later than the local date at `to`. */
  lemma LookAhead(z: Zone, to: int, day: int, minute: int)
    requires ValidZone(z) && DatesAdvance(z) && 0 <= minute
    requires StartAt(z, WallOf(day, minute)) <= to
    ensures day <= DateOf(z, to)
  {
    hide ValidZone;
    hide StartAt;
    hide DateOf;
    hide Local;
    hide WallOf;
    var wall := WallOf(day, minute);
    WallInDay(day, minute);
    StartNotBefore(z, wall);
    DateAtLeast(z, StartAt(z, wall), day);
  }

  lemma WallInDay(day: int, minute: int)
    requires 0 <= minute
    ensures WallOf(day, minute) % MINUTE == 0 && WallOf(day, minute) >= day * DAY
  {
    assert WallOf(day, minute) == MINUTE * (1440 * day + minute);
  }

  lemma DateAtLeast(z: Zone, t: int, day: int)
    requires Local(z, t) >= day * DAY
    ensures DateOf(z, t) >= day
  {
  }
}

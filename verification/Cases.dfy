/** Windows that can be stored, and what the code does with them at the end of its reach. */
module Cases {
  import opened DaySearch
  import opened Occurrences
  import opened Options
  import opened Outage
  import opened Schedule
  import opened StartDays
  import opened Upcoming
  import opened WeeklySearch
  import opened Window
  import opened Zone

  // Monday, January 1, 2024.
  const NEW_YEAR: int := 738_885

  /** Every third Monday from that day on, an hour at midnight, ended before anything. */
  const ThirdMondays: MaintenanceWindow := MaintenanceWindow(
    1, "third", Weekly, None, None, Some(0), Some(60), 3, Some(1), None, None, None, Some(NEW_YEAR), None,
    Some(NEW_YEAR * DAY), [1], [], [])

  lemma ThirdMondaysNeverAnswer(z: Zone)
    ensures Validate(ThirdMondays).None? && WalksIntoARut(ThirdMondays, z, NEW_YEAR * DAY, 1)
  {
    EndedSeriesNeverAnswers(ThirdMondays, z, NEW_YEAR * DAY, 1);
  }

  /** The last of those Mondays before the horizon. */
  const LAST_MONDAY: int := NEW_YEAR + 7 * 15_249

  lemma LastMondayIsLast()
    ensures Schedulable(ThirdMondays) && Scheduled(ThirdMondays, LAST_MONDAY)
    ensures Blocked(ThirdMondays, LAST_MONDAY + 1)
  {
    var w := ThirdMondays;
    WeekCountExact(w, NEW_YEAR);
    RecursWeekly(w, LAST_MONDAY);
    forall y | LAST_MONDAY < y < Horizon(w) ensures !Recurs(w, y) {
      RecursWeekly(w, y);
    }
  }

  /** Listing the occurrences of a range that reaches it never ends. */
  lemma ThirdMondaysNeverListed()
    ensures ListingNeverEnds(ThirdMondays, Utc, LAST_MONDAY * DAY, LAST_MONDAY * DAY + 1)
  {
    LastMondayIsLast();
    hide Blocked;
    hide Scheduled;
  }

  // ---- a daily series at the end of its reach

  /** Every day from then on, an hour at midnight. */
  const Nightly: MaintenanceWindow := MaintenanceWindow(
    1, "nightly", Daily, None, None, Some(0), Some(60), 1, None, None, None, None, Some(NEW_YEAR), None, None,
    [1], [], [])

  function Utc(t: int): int { 0 }

  // The last day in reach, just before it begins.
  const LAST_DAY: int := NEW_YEAR + MAX_DAYS_APART
  const EVE: int := LAST_DAY * DAY - 1

  /** Asked for two occurrences on the eve of the last day in reach, Next answers that day twice. */
  lemma LastDayTwice()
    ensures Validate(Nightly).None? && ValidZone(Utc) && Repeats(Nightly, Utc, EVE, 2)
    ensures var o := Occurrence(1, LAST_DAY * DAY, LAST_DAY * DAY + 60 * MINUTE);
            forall stop, again, out :: Walked(Nightly, Utc, EVE, 2, stop, again, out) ==> out == [o, o]
  {
    EveOfTheLastDay();
    NightlyWalk();
    NightlyRepeats();
    var o := Occurrence(1, LAST_DAY * DAY, LAST_DAY * DAY + 60 * MINUTE);
    hide *;
    forall stop, again, out | Walked(Nightly, Utc, EVE, 2, stop, again, out) ensures out == [o, o] {
      NextDetermined(Nightly, Utc, EVE, 2, LAST_DAY + 1, 1, [o, o], stop, again, out);
    }
  }

  lemma EveOfTheLastDay()
    ensures Validate(Nightly).None? && ValidZone(Utc) && Schedulable(Nightly)
    ensures FirstAfter(Utc, EVE) == LAST_DAY - 2 && LastDaily(Nightly) == LAST_DAY
  {
  }

  lemma NightlyWalk()
    ensures var o := Occurrence(1, LAST_DAY * DAY, LAST_DAY * DAY + 60 * MINUTE);
            && Searched(Nightly, Utc, After(EVE), LAST_DAY - 2, LAST_DAY + 1) == [o]
            && OnDay(Nightly, Utc, After(EVE), LAST_DAY) == [o]
    ensures ServedIn(Nightly, LAST_DAY - 2, LAST_DAY + 1) == 3
  {
    NightlyDays();
    hide OnDay;
    hide Served;
    hide AsSearched;
    var w, z, first, q := Nightly, Utc, LAST_DAY - 2, After(EVE);
    assert AsSearched(w, first) == w && AsSearched(w, first + 1) == w && AsSearched(w, first + 2) == w;
    assert Searched(w, z, q, first, first) == [];
    assert Searched(w, z, q, first, first + 1) == [];
    assert Searched(w, z, q, first, first + 2) == [];
    assert ServedIn(w, first, first) == 0;
    assert ServedIn(w, first, first + 1) == 1;
    assert ServedIn(w, first, first + 2) == 2;
  }

  lemma NightlyRepeats()
    ensures Repeats(Nightly, Utc, EVE, 2)
    ensures var o := Occurrence(1, LAST_DAY * DAY, LAST_DAY * DAY + 60 * MINUTE);
            Walked(Nightly, Utc, EVE, 2, LAST_DAY + 1, 1, [o, o])
  {
    EveOfTheLastDay();
    NightlyWalk();
    NightlyDays();
    hide OnDay;
    hide Served;
    hide FirstAfter;
    hide LastDaily;
    hide Searched;
    hide ServedIn;
    var o := Occurrence(1, LAST_DAY * DAY, LAST_DAY * DAY + 60 * MINUTE);
    assert Times(0, [o]) == [] && Times(1, [o]) == [o];
  }

  lemma NightlyDays()
    ensures forall day :: NEW_YEAR <= day ==> Scheduled(Nightly, day) && Served(Nightly, day)
    ensures forall day :: NEW_YEAR <= day ==>
              OnDay(Nightly, Utc, After(EVE), day)
              == if day < LAST_DAY then [] else [Occurrence(1, day * DAY, day * DAY + 60 * MINUTE)]
  {
    forall day | NEW_YEAR <= day
      ensures Scheduled(Nightly, day) && Served(Nightly, day)
      ensures OnDay(Nightly, Utc, After(EVE), day)
              == if day < LAST_DAY then [] else [Occurrence(1, day * DAY, day * DAY + 60 * MINUTE)] {
      var o := Occurrence(1, day * DAY, day * DAY + 60 * MINUTE);
      assert Planned(Nightly, day, Utc) == o;
      AppliedExact(Nightly, o, o);
    }
  }

  lemma LastDayIsLast()
    ensures Schedulable(Nightly) && Scheduled(Nightly, LAST_DAY) && Blocked(Nightly, LAST_DAY + 1)
  {
    EveOfTheLastDay();
    NightlyDays();
    hide RoundUp;
    hide LastDaily;
  }

  /** Neither listing its occurrences on the last day in reach nor asking then whether it is active ever ends. */
  lemma NightlyNeverListed()
    ensures ListingNeverEnds(Nightly, Utc, LAST_DAY * DAY, LAST_DAY * DAY + 1)
    ensures AllSearchable([Nightly]) && SomeNeverEnds([Nightly], Utc, LAST_DAY * DAY, LAST_DAY * DAY + HORIZON)
  {
    LastDayIsLast();
    hide Blocked;
    hide Scheduled;
    assert Nightly in [Nightly];
    assert ListingNeverEnds(Nightly, Utc, LAST_DAY * DAY, LAST_DAY * DAY + HORIZON);
  }

  // ---- a series that starts late in the evening

  /** Every day from then on, an hour from 22:00. */
  const Evening: MaintenanceWindow := MaintenanceWindow(
    1, "evening", Daily, None, None, Some(1320), Some(60), 1, None, None, None, None, Some(738_885), None, None,
    [1], [], [])

  function EveningOf(day: int): int { day * 86_400_000_000_000 + 79_200_000_000_000 }

  lemma EveningStarts(day: int, o: Occurrence)
    ensures Schedulable(Evening) && ValidZone(Utc)
    ensures OccursOn(Evening, Utc, day, o)
            <==> 738_885 <= day && o == Occurrence(1, EveningOf(day), EveningOf(day) + 3_600_000_000_000)
  {
    var u := EveningOf(day);
    EveOfTheLastDay();
    assert FirstShows(Utc, u, day, 1320);
    OccurrenceExact(Evening, Utc, day, u, o);
    assert StartsOn(Evening, day) <==> 738_885 <= day;
    AppliedExact(Evening, From(Evening, u), o);
  }

  lemma EveningMaintenance(t: int)
    ensures InMaintenance([Evening], Utc, t)
            <==> exists day :: 738_885 <= day && EveningOf(day) <= t < EveningOf(day) + 3_600_000_000_000
  {
    forall day, o ensures OccursOn(Evening, Utc, day, o)
                          <==> 738_885 <= day
                               && o == Occurrence(1, EveningOf(day), EveningOf(day) + 3_600_000_000_000) {
      EveningStarts(day, o);
    }
    hide OccursOn;
    hide EveningOf;
    if InMaintenance([Evening], Utc, t) {
      var w, o :| w in [Evening] && IsOccurrence(w, Utc, o) && Covers(o, t);
      var day :| OccursOn(Evening, Utc, day, o);
    }
    if day :| 738_885 <= day && EveningOf(day) <= t < EveningOf(day) + 3_600_000_000_000 {
      var o := Occurrence(1, EveningOf(day), EveningOf(day) + 3_600_000_000_000);
      assert Evening in [Evening] && OccursOn(Evening, Utc, day, o);
      assert IsOccurrence(Evening, Utc, o) && Covers(o, t);
    }
  }

  /** On January 1, 2024, at 22:30, the outage ends at 23:00; half an hour after midnight there is none. */
  lemma EveningOutage(r: Option<int>)
    ensures var midnight := 738_885 * 86_400_000_000_000;
            && (IsOutage(u => InMaintenance([Evening], Utc, u), midnight + 81_000_000_000_000, r) ==>
                  r == Some(midnight + 82_800_000_000_000))
            && (IsOutage(u => InMaintenance([Evening], Utc, u), midnight + 1_800_000_000_000, r) ==> r == None)
  {
    var midnight := 738_885 * 86_400_000_000_000;
    forall t | midnight <= t < midnight + 86_400_000_000_000
      ensures InMaintenance([Evening], Utc, t)
              <==> midnight + 79_200_000_000_000 <= t < midnight + 82_800_000_000_000 {
      EveningMaintenance(t);
      assert EveningOf(738_885) == midnight + 79_200_000_000_000;
    }
    hide InMaintenance;
    var covered := u => InMaintenance([Evening], Utc, u);
    assert !covered(midnight + 82_800_000_000_000) && !covered(midnight + 1_800_000_000_000);
    assert covered(midnight + 81_000_000_000_000);
    assert forall u :: midnight + 79_200_000_000_000 <= u < midnight + 82_800_000_000_000 ==> covered(u);
  }
}

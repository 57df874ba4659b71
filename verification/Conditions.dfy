/** How one evaluation moves a key between idle, waiting and firing, and what that amounts to over a history of
    reports. */
module Conditions {
  import opened AlertDb
  import opened Options

  datatype Threshold = Threshold(warning: real, critical: real, seconds: Option<int>)

  // Durations are counted in nanoseconds.
  function DurationOf(seconds: Option<int>): int {
    if seconds.None? then 0 else seconds.value * 1_000_000_000
  }

  function LevelFor(value: real, t: Threshold): Option<Level> {
    if value >= t.critical then Some(Critical) else if value >= t.warning then Some(Warning) else None
  }

  /** The condition holds at this evaluation: wait until it has lasted d, then fire; once firing
      only the level moves. */
  function Sustain(phase: Phase, now: int, level: Level, d: int): Phase {
    if phase.Firing? || d <= 0 then Firing(level)
    else
      var since := if phase.Waiting? then phase.since else now;
      if now - since >= d then Firing(level) else Waiting(since)
  }

  function ThresholdStep(phase: Phase, now: int, value: real, t: Threshold): Phase {
    match LevelFor(value, t)
    case None => Idle
    case Some(level) => Sustain(phase, now, level, DurationOf(t.seconds))
  }

  /** The state of one subject in a report: nothing known (keep), no problem (no level), or a problem, possibly with the
      instant it began. */
  datatype Condition = Condition(level: Option<Level>, duration: int, since: Option<int>, keep: bool)

  const Keep: Condition := Condition(None, 0, None, true)
  const Fine: Condition := Condition(None, 0, None, false)

  function ConditionStep(phase: Phase, now: int, c: Condition): Phase {
    if c.keep then phase
    else match c.level
      case None => Idle
      case Some(level) =>
        if phase.Firing? then Firing(level)
        else if c.since.Some? then if now - c.since.value < c.duration then phase else Firing(level)
        else Sustain(phase, now, level, c.duration)
  }

  // ---- duration conditions in closed form

  /** One evaluation: its instant and the level reached, none when below the warning level or gone from the list. */
  datatype Sample = Sample(now: int, level: Option<Level>)

  function PhaseAfter(samples: seq<Sample>, d: int): Phase {
    if samples == [] then Idle
    else
      var last := samples[|samples| - 1];
      if last.level.None? then Idle else Sustain(PhaseAfter(samples[..|samples| - 1], d), last.now, last.level.value, d)
  }

  /** Where the unbroken run of evaluations with a level that ends the history begins. */
  function RunStart(samples: seq<Sample>): (start: nat)
    requires samples != [] && samples[|samples| - 1].level.Some?
    ensures start < |samples| && (forall i :: start <= i < |samples| ==> samples[i].level.Some?)
    ensures start == 0 || samples[start - 1].level.None?
  {
    var n := |samples| - 1;
    if n == 0 || samples[n - 1].level.None? then n else RunStart(samples[..n])
  }

  ghost predicate Chronological(samples: seq<Sample>) {
    forall i, j :: 0 <= i <= j < |samples| ==> samples[i].now <= samples[j].now
  }

  /** Firing exactly when the current unbroken run has lasted d since its first evaluation. */
  function SinceRunStart(samples: seq<Sample>, d: int): Phase
    requires samples != []
  {
    var last := samples[|samples| - 1];
    if last.level.None? then Idle
    else
      var begun := samples[RunStart(samples)].now;
      if last.now - begun >= d then Firing(last.level.value) else Waiting(begun)
  }

  lemma {:induction false} DurationClosedForm(samples: seq<Sample>, d: int)
    requires samples != [] && Chronological(samples)
    ensures PhaseAfter(samples, d) == SinceRunStart(samples, d)
  {
    var n := |samples| - 1;
    if n > 0 {
      var init := samples[..n];
      assert Chronological(init) by {
        assert forall i :: 0 <= i < n ==> init[i] == samples[i];
      }
      DurationClosedForm(init, d);
      if samples[n].level.Some? && samples[n - 1].level.Some? {
        assert samples[n - 1].now <= samples[n].now;
      }
    }
  }

  // ---- mounts that vanish

  const MISSING_MOUNT_REPORTS: int := 3

  /** Listed in none of the last three reports. */
  predicate GoneThreeTimes(reports: seq<set<string>>, m: string) {
    |reports| >= 3 && forall i :: |reports| - 3 <= i < |reports| ==> m !in reports[i]
  }

  /** One evaluation of a mount against the non-empty reports up to now. */
  predicate MissingStep(wasOpen: bool, expected: bool, reports: seq<set<string>>, m: string)
    requires reports != []
  {
    expected && m !in reports[|reports| - 1] && (wasOpen || GoneThreeTimes(reports, m))
  }

  predicate MissingAfter(reports: seq<set<string>>, expected: bool, m: string) {
    reports != [] && MissingStep(MissingAfter(reports[..|reports| - 1], expected, m), expected, reports, m)
  }

  lemma {:induction false} MissingClosedForm(reports: seq<set<string>>, expected: bool, m: string)
    ensures MissingAfter(reports, expected, m) <==> expected && GoneThreeTimes(reports, m)
  {
    if reports != [] {
      var init := reports[..|reports| - 1];
      MissingClosedForm(init, expected, m);
      if expected && GoneThreeTimes(init, m) && m !in reports[|reports| - 1] {
        forall i | |reports| - 3 <= i < |reports| - 1 ensures m !in reports[i] {
          assert m !in init[i];
        }
      }
      if GoneThreeTimes(reports, m) {
        assert m !in reports[|reports| - 1];
      }
    }
  }

  // ---- file systems that turn read-only

  /** One evaluation of a mount whose state is known now; `previous` is its state in the report before, if known. */
  predicate ReadOnlyStep(wasOpen: bool, readOnly: bool, previous: Option<bool>) {
    readOnly && (wasOpen || previous == Some(false))
  }

  predicate ReadOnlyAfter(states: seq<bool>) {
    states != [] &&
    var n := |states| - 1;
    ReadOnlyStep(ReadOnlyAfter(states[..n]), states[n], if n == 0 then None else Some(states[n - 1]))
  }

  /** Known in every report, a mount's alert is open exactly when it is read-only now and was once writable. */
  lemma {:induction false} ReadOnlyClosedForm(states: seq<bool>)
    ensures ReadOnlyAfter(states)
            <==> states != [] && states[|states| - 1] && exists i :: 0 <= i < |states| && !states[i]
  {
    if states != [] {
      var n := |states| - 1;
      var init := states[..n];
      ReadOnlyClosedForm(init);
      if i :| 0 <= i < |states| && !states[i] {
        if states[n] {
          assert !init[i];
          assert n > 0;
        }
      }
      if j :| 0 <= j < |init| && !init[j] {
        assert !states[j];
      }
      if n > 0 && !states[n - 1] {
        assert !states[n - 1];
      }
    }
  }
}

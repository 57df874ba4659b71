/** Alerts about the machine itself: processes killed for lack of memory, and its clock. */
module Signals {
  import opened AlertDb
  import opened Conditions
  import opened Engine
  import opened Lifecycle
  import opened Mounts
  import opened Options
  import opened Status

  const OOM_KILL: string := "oom_kill"
  const TIME_SYNC: string := "time_sync"
  const UNSYNCED: string := "unsynced"
  const SOURCE: string := "source"
  const OFFSET: string := "offset"

  // ---- kills

  /** What a report says of the kill counter, if it is known: whether it rose, and when it last did. */
  datatype Kills = Kills(rose: bool, lastRise: Option<int>)

  /** One report: a rise fires at once, and the alert lasts until a duration has passed without another. */
  function KillStep(phase: Phase, now: int, kills: Kills, level: Level, d: int): Phase {
    if kills.rose then Firing(level)
    else if !phase.Firing? then phase
    else if kills.lastRise.None? || now - kills.lastRise.value >= d then Idle
    else Firing(level)
  }

  method EvaluateKills(e: Engine, st: HostState, rule: Rule, kills: Option<Kills>)
    requires e.InStep(st)
    modifies e.store, st`active, st`pending
    ensures e.InStep(st) && OnlyKind(old(e.store.db), e.store.db, st.host, "oom_kill")
    ensures !e.store.faulty && rule.level.None? ==> forall s :: PhaseAt(e.store.db, Key(st.host, "oom_kill", s)) == Idle
    ensures rule.level.Some? && kills.None? ==> e.store.db == old(e.store.db)
    ensures !e.store.faulty && rule.level.Some? && kills.Some?
            && Key(st.host, "oom_kill", "") !in old(e.store.db).waiting ==>
              var k := Key(st.host, "oom_kill", "");
              && PhaseAt(e.store.db, k)
                 == (if kills.value.rose then Firing(rule.level.value)
                     else if !PhaseAt(old(e.store.db), k).Firing? then PhaseAt(old(e.store.db), k)
                     else if kills.value.lastRise.Some?
                          && e.now - kills.value.lastRise.value
                             < (if rule.seconds.Some? then rule.seconds.value * 1_000_000_000 else 0)
                     then Firing(rule.level.value) else Idle)
              && e.store.db.waiting == old(e.store.db.waiting)
    ensures !e.store.faulty ==> KindTold(e.env, old(e.store.db), e.store.db, st.host, "oom_kill", {})
    ensures !e.store.faulty && Exclusive(old(e.store.db))
            && Key(st.host, "oom_kill", "") !in old(e.store.db).waiting ==>
              Exclusive(e.store.db)
    ensures e.Calm() && Sound(old(e.store.db)) ==> Sound(e.store.db)
  {
    hide Told;
    hide KindTold;
    SameAsItself(e.store.db);
    NothingToldYet(e.env, e.store.db, st.host, OOM_KILL, {});
    NothingToldYet(e.env, e.store.db, st.host, OOM_KILL, {""});
    if rule.level.None? {
      ResolveAll(e, st, OOM_KILL);
      return;
    }
    if kills.None? {
      return;
    }
    ghost var db0, k := e.store.db, Key(st.host, OOM_KILL, "");
    KillReported(e, st, rule.level.value, DurationOf(rule.seconds), kills.value);
    if !e.store.faulty {
      ToldStep(e.env, db0, db0, e.store.db, k, {""});
      assert {""} - {""} == {};
    }
    OnlyKindStep(db0, db0, e.store.db, k);
  }

  method KillReported(e: Engine, st: HostState, level: Level, d: int, kills: Kills)
    requires e.InStep(st)
    modifies e.store, st`active, st`pending
    ensures e.InStep(st) && SameBut(old(e.store.db), e.store.db, Key(st.host, OOM_KILL, ""))
    ensures !e.store.faulty && Key(st.host, OOM_KILL, "") !in old(e.store.db).waiting ==>
              var k := Key(st.host, OOM_KILL, "");
              && PhaseAt(e.store.db, k) == KillStep(PhaseAt(old(e.store.db), k), e.now, kills, level, d)
              && e.store.db.waiting == old(e.store.db.waiting)
    ensures !e.store.faulty ==> Told(e.env, old(e.store.db), e.store.db, Key(st.host, OOM_KILL, ""))
    ensures !e.store.faulty && Exclusive(old(e.store.db)) && Key(st.host, OOM_KILL, "") !in old(e.store.db).waiting ==>
              Exclusive(e.store.db)
    ensures e.Calm() && Sound(old(e.store.db)) ==> Sound(e.store.db)
  {
    var k := Key(st.host, OOM_KILL, "");
    var isActive := k in st.active;
    NothingTold(e.env, e.store.db, k);
    hide Told;
    ghost var db0 := e.store.db;
    if !e.store.faulty {
      assert Complete(st.active, st.pending, e.store.db, k) && Backed(st.active, e.store.db, k);
    }
    if kills.rose && isActive {
      e.Adjust(st, k, level, None, None);
    } else if kills.rose {
      OpenAtOnce(e, st, k, level);
    } else if isActive {
      if kills.lastRise.None? || e.now - kills.lastRise.value >= d {
        e.Drop(st, k, None, None);
      } else {
        e.Adjust(st, k, level, None, None);
      }
    }
    ExclusiveStill(db0, e.store.db, k);
  }

  /** Open an alert whatever waiting record there is. */
  method OpenAtOnce(e: Engine, st: HostState, k: Key, level: Level)
    requires e.InStep(st) && k !in st.active && k.host == st.host && !NeverWaits(k.kind)
    modifies e.store, st`active
    ensures e.InStep(st) && SameBut(old(e.store.db), e.store.db, k) && e.store.db.waiting == old(e.store.db.waiting)
    ensures !e.store.faulty ==> PhaseAt(e.store.db, k) == Firing(level)
    ensures !e.store.faulty ==> Told(e.env, old(e.store.db), e.store.db, k)
    ensures e.Calm() && Sound(old(e.store.db)) ==> Sound(e.store.db)
  {
    ghost var db0, active0 := e.store.db, st.active;
    if !e.store.faulty {
      assert Complete(st.active, st.pending, db0, k);
    }
    e.OpenAlert(st, k, level, None, None);
    OthersStillComplete(active0, st.pending, db0, st.active, st.pending, e.store.db, k);
  }

  /** Reports that know the counter: when each came, and whether it had risen. */
  datatype KillSample = KillSample(now: int, rose: bool)

  function LastRise(samples: seq<KillSample>): Option<int> {
    if samples == [] then None
    else
      var last := samples[|samples| - 1];
      if last.rose then Some(last.now) else LastRise(samples[..|samples| - 1])
  }

  function AfterKills(samples: seq<KillSample>, level: Level, d: int): Phase {
    if samples == [] then Idle
    else
      var last := samples[|samples| - 1];
      KillStep(AfterKills(samples[..|samples| - 1], level, d), last.now, Kills(last.rose, LastRise(samples)), level, d)
  }

  /** Over any run of reports the alert is active exactly when the counter rose in the last of them or less than the
      rule's duration before it. */
  lemma KillsClosedForm(samples: seq<KillSample>, level: Level, d: int)
    requires samples != [] && forall i, j :: 0 <= i <= j < |samples| ==> samples[i].now <= samples[j].now
    ensures var last := samples[|samples| - 1];
            AfterKills(samples, level, d)
            == if last.rose || exists i :: 0 <= i < |samples| && samples[i].rose && last.now - samples[i].now < d
               then Firing(level) else Idle
  {
    KillsFold(samples, level, d);
    var i := LastRiseExact(samples);
    hide LastRise;
    hide AfterKills;
  }

  lemma {:induction false} LastRiseExact(samples: seq<KillSample>) returns (i: int)
    ensures if LastRise(samples).Some?
            then 0 <= i < |samples| && samples[i].rose && samples[i].now == LastRise(samples).value
            else i == -1
    ensures forall j :: i < j < |samples| ==> !samples[j].rose
  {
    if samples == [] {
      i := -1;
    } else if samples[|samples| - 1].rose {
      i := |samples| - 1;
    } else {
      i := LastRiseExact(samples[..|samples| - 1]);
    }
  }

  lemma {:induction false} KillsFold(samples: seq<KillSample>, level: Level, d: int)
    requires samples != [] && forall i, j :: 0 <= i <= j < |samples| ==> samples[i].now <= samples[j].now
    ensures var last := samples[|samples| - 1];
            AfterKills(samples, level, d)
            == if last.rose || (LastRise(samples).Some? && last.now - LastRise(samples).value < d) then Firing(level)
                else Idle
  {
    var n := |samples| - 1;
    if n > 0 {
      var init := samples[..n];
      assert forall i :: 0 <= i < n ==> init[i] == samples[i];
      KillsFold(init, level, d);
    }
  }

  // ---- the clock: three subjects of one kind, judged apart

  /** What is known of the clock: whether it is synchronized, and whether its source has a problem. */
  datatype Clock = Clock(synced: Option<bool>, sourceProblem: Option<bool>)

  /** The two state subjects move by their own rules and the offset subject stays: a rule turned off closes, nothing
      known changes nothing, and a source is only a problem while the clock counts as synchronized. */
  method EvaluateTimeSync(e: Engine, st: HostState, unsynced: Rule, source: Rule, c: Clock)
    requires e.InStep(st)
    modifies e.store, st`active, st`pending
    ensures e.InStep(st) && OnlyKind(old(e.store.db), e.store.db, st.host, "time_sync")
    ensures !e.store.faulty ==>
              forall s: string :: var k := Key(st.host, "time_sync", s); var phase := PhaseAt(old(e.store.db), k);
                PhaseAt(e.store.db, k) ==
                  if s == "unsynced" then
                    if unsynced.level.None? then Idle else if c.synced.None? then phase
                    else if c.synced.value then Idle else HoldStep(phase, e.now, unsynced)
                  else if s == "source" then
                    if source.level.None? then Idle else if c.sourceProblem.None? || c.synced.None? then phase
                    else if c.synced.value && c.sourceProblem.value then HoldStep(phase, e.now, source) else Idle
                  else phase
    ensures !e.store.faulty ==> KindTold(e.env, old(e.store.db), e.store.db, st.host, "time_sync", {})
    ensures !e.store.faulty && Exclusive(old(e.store.db)) ==> Exclusive(e.store.db)
    ensures e.Calm() && Sound(old(e.store.db)) ==> Sound(e.store.db)
  {
    hide Told;
    hide KindTold;
    assert |UNSYNCED| != |SOURCE|;
    forall phase, rule: Rule | rule.level.Some?
      ensures ConditionStep(phase, e.now, Holds(rule)) == HoldStep(phase, e.now, rule) {
      HoldsStep(phase, e.now, rule);
    }
    var conds: map<string, Condition> := map[];
    if unsynced.level.None? {
      conds := conds[UNSYNCED := Fine];
    } else if c.synced.Some? {
      conds := conds[UNSYNCED := if !c.synced.value then Holds(unsynced) else Fine];
    }
    if source.level.None? {
      conds := conds[SOURCE := Fine];
    } else if c.sourceProblem.Some? && c.synced.Some? {
      conds := conds[SOURCE := if c.synced.value && c.sourceProblem.value then Holds(source) else Fine];
    }
    Reconcile(e, st, TIME_SYNC, conds, false);
  }

  function Abs(x: real): (r: real)
    ensures 0.0 <= r && (r == x || r == -x)
  {
    if x < 0.0 then -x else x
  }

  /** The offset subject moves by its threshold, on the size of the offset, and the state subjects stay. */
  method EvaluateTimeOffset(e: Engine, st: HostState, threshold: Option<Threshold>, offset: Option<real>)
    requires e.InStep(st)
    modifies e.store, st`active, st`pending
    ensures e.InStep(st) && SameBut(old(e.store.db), e.store.db, Key(st.host, "time_sync", "offset"))
    ensures threshold.Some? && offset.None? ==> e.store.db == old(e.store.db)
    ensures !e.store.faulty && (threshold.None? || offset.Some?) ==>
              var k := Key(st.host, "time_sync", "offset");
              PhaseAt(e.store.db, k) == if threshold.None? then Idle
                                        else ThresholdStep(PhaseAt(old(e.store.db), k), e.now, Abs(offset.value),
                                                           threshold.value)
    ensures !e.store.faulty ==> Told(e.env, old(e.store.db), e.store.db, Key(st.host, "time_sync", "offset"))
    ensures !e.store.faulty && Exclusive(old(e.store.db)) ==> Exclusive(e.store.db)
    ensures e.Calm() && Sound(old(e.store.db)) ==> Sound(e.store.db)
  {
    NothingTold(e.env, e.store.db, Key(st.host, TIME_SYNC, OFFSET));
    hide Told;
    if threshold.None? {
      e.ReconcileOne(st, Key(st.host, TIME_SYNC, OFFSET), Fine);
      return;
    }
    if offset.None? {
      SameAsItself(e.store.db);
      return;
    }
    e.ApplyThreshold(st, Key(st.host, TIME_SYNC, OFFSET), Abs(offset.value), threshold.value);
  }
}

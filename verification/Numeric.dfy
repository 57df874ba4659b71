/** Values per subject judged against thresholds, possibly with a duration. */
module Numeric {
  import opened AlertDb
  import opened Conditions
  import opened Engine
  import opened Lifecycle
  import opened Options
  import opened Status

  function AsCondition(value: real, t: Threshold): Condition {
    Condition(LevelFor(value, t), DurationOf(t.seconds), None, false)
  }

  /** The subjects that have a value and a threshold. */
  function Judged(values: map<string, real>, thresholds: SubjectThresholds): map<string, Condition> {
    map s | s in values && thresholds.For(s).Some? :: AsCondition(values[s], thresholds.For(s).value)
  }

  method JudgeListed(e: Engine, st: HostState, kind: string, thresholds: SubjectThresholds, values: map<string, real>)
    requires e.InStep(st) && !NeverWaits(kind)
    modifies e.store, st`active, st`pending
    ensures e.InStep(st) && OnlyKind(old(e.store.db), e.store.db, st.host, kind)
    ensures !e.store.faulty ==>
              Stepped(old(e.store.db), e.store.db, st.host, kind, Judged(values, thresholds), {}, e.now)
    ensures Untouched(old(e.store.db), e.store.db, st.host, kind, Judged(values, thresholds), {})
    ensures !e.store.faulty ==> KindTold(e.env, old(e.store.db), e.store.db, st.host, kind, {})
    ensures !e.store.faulty && Exclusive(old(e.store.db)) ==> Exclusive(e.store.db)
    ensures e.Calm() && Sound(old(e.store.db)) ==> Sound(e.store.db)
  {
    hide Valid;
    hide Backed;
    hide Complete;
    hide PhaseAt;
    hide ThresholdStep;
    hide ConditionStep;
    hide Sound;
    hide Exclusive;
    hide Untouched;
    hide Stepped;
    hide Same;
    hide SameBut;
    hide Told;
    hide KindTold;
    ghost var db0, conds := e.store.db, Judged(values, thresholds);
    var todo := values.Keys;
    assert conds.Keys * todo == conds.Keys;
    NothingToldYet(e.env, db0, st.host, kind, todo);
    NothingDone(db0, st.host, kind, conds, e.now);
    while todo != {}
      invariant todo <= values.Keys
      invariant e.InStep(st) && OnlyKind(db0, e.store.db, st.host, kind)
      invariant Untouched(db0, e.store.db, st.host, kind, conds, conds.Keys * todo)
      invariant !e.store.faulty ==> Stepped(db0, e.store.db, st.host, kind, conds, conds.Keys * todo, e.now)
      invariant !e.store.faulty ==> KindTold(e.env, db0, e.store.db, st.host, kind, todo)
      invariant !e.store.faulty && Exclusive(db0) ==> Exclusive(e.store.db)
      invariant e.Calm() && Sound(db0) ==> Sound(e.store.db)
      decreases todo
    {
      var s :| s in todo;
      var t := thresholds.For(s);
      if t.Some? {
        ghost var db1 := e.store.db;
        JudgedStep(PhaseAt(db1, Key(st.host, kind, s)), e.now, values[s], t.value);
        e.ApplyThreshold(st, Key(st.host, kind, s), values[s], t.value);
        OnlyKindStep(db0, db1, e.store.db, Key(st.host, kind, s));
        if !e.store.faulty {
          ToldStep(e.env, db0, db1, e.store.db, Key(st.host, kind, s), todo);
        }
        OneMore(db0, db1, e.store.db, st.host, kind, conds, conds.Keys * todo, s, e.now);
      }
      assert conds.Keys * (todo - {s}) == conds.Keys * todo - {s};
      if t.None? {
        assert conds.Keys * (todo - {s}) == conds.Keys * todo;
        if !e.store.faulty {
          ToldSkip(e.env, db0, e.store.db, st.host, kind, todo, todo - {s});
        }
      }
      todo := todo - {s};
    }
    assert conds.Keys * todo == {};
  }

  lemma JudgedStep(p: Phase, now: int, value: real, t: Threshold)
    ensures ThresholdStep(p, now, value, t) == ConditionStep(p, now, AsCondition(value, t))
  {
  }

  /** Without any threshold the kind is cleared; without data nothing changes; otherwise every judged subject takes its
      step and the others are closed. */
  method EvaluateSubjects(e: Engine, st: HostState, kind: string, thresholds: SubjectThresholds,
                          values: Option<map<string, real>>)
    requires e.InStep(st) && !NeverWaits(kind)
    modifies e.store, st`active, st`pending
    ensures e.InStep(st) && OnlyKind(old(e.store.db), e.store.db, st.host, kind)
    ensures !thresholds.Empty() && values.None? ==> e.store.db == old(e.store.db)
    ensures !e.store.faulty && (thresholds.Empty() || values.Some?) ==>
              Reconciled(old(e.store.db), e.store.db, st.host, kind,
                         if thresholds.Empty() then map[] else Judged(values.value, thresholds), true, e.now)
    ensures !e.store.faulty ==> KindTold(e.env, old(e.store.db), e.store.db, st.host, kind, {})
    ensures !e.store.faulty && Exclusive(old(e.store.db)) ==> Exclusive(e.store.db)
    ensures e.Calm() && Sound(old(e.store.db)) ==> Sound(e.store.db)
  {
    hide Told;
    hide KindTold;
    NothingToldYet(e.env, e.store.db, st.host, kind, {});
    if thresholds.Empty() {
      Reconcile(e, st, kind, map[], true);
      return;
    }
    if values.None? {
      return;
    }
    ghost var db0 := e.store.db;
    JudgeListed(e, st, kind, thresholds, values.value);
    ghost var db1 := e.store.db;
    var evaluated := map s | s in values.value && thresholds.For(s).Some? :: Keep;
    Reconcile(e, st, kind, evaluated, true);
    OnlyKindTrans(db0, db1, e.store.db, st.host, kind);
    if !e.store.faulty {
      KeptAsJudged(e.env, db0, db1, e.store.db, st.host, kind, Judged(values.value, thresholds), evaluated);
    }
    KeepJudged(db0, db1, e.store.db, st.host, kind, Judged(values.value, thresholds), evaluated, e.now);
  }

  /** Judging tells of the subjects judged, closing of the others. */
  lemma KeptAsJudged(env: Env, a: Db, b: Db, c: Db, host: int, kind: string, conds: map<string, Condition>,
                     evaluated: map<string, Condition>)
    requires evaluated.Keys == conds.Keys && forall s :: s in evaluated ==> evaluated[s] == Keep
    requires Untouched(a, b, host, kind, conds, {}) && KindTold(env, a, b, host, kind, {})
    requires KindTold(env, b, c, host, kind, {})
    requires forall s :: s in evaluated && evaluated[s].keep ==> Same(b, c, Key(host, kind, s))
    ensures KindTold(env, a, c, host, kind, {})
  {
    hide Same;
    hide Told;
    ToldInTwo(env, a, b, c, host, kind, evaluated.Keys);
  }

  lemma KeepJudged(db0: Db, db1: Db, db2: Db, host: int, kind: string, conds: map<string, Condition>,
                   evaluated: map<string, Condition>, now: int)
    requires evaluated.Keys == conds.Keys && forall s :: s in evaluated ==> evaluated[s] == Keep
    ensures Stepped(db0, db1, host, kind, conds, {}, now) && Reconciled(db1, db2, host, kind, evaluated, true, now)
            ==> Reconciled(db0, db2, host, kind, conds, true, now)
  {
  }
}

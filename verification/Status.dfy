/** Alerts about states rather than values: one condition per subject of a report. */
module Status {
  import opened AlertDb
  import opened Conditions
  import opened Engine
  import opened Lifecycle
  import opened Options

  /** Nothing changes for keys of other hosts or kinds. */
  ghost predicate OnlyKind(db: Db, d: Db, host: int, kind: string) {
    forall k: Key :: k.host != host || k.kind != kind ==> Same(db, d, k)
  }

  lemma OnlyKindStep(db: Db, d: Db, e: Db, k: Key)
    requires OnlyKind(db, d, k.host, k.kind) && SameBut(d, e, k)
    ensures OnlyKind(db, e, k.host, k.kind)
  {
    forall o: Key | o.host != k.host || o.kind != k.kind ensures Same(db, e, o) {
      assert Same(db, d, o) && Same(d, e, o);
    }
  }

  /** The phase of every subject after its condition has been applied. */
  ghost predicate Reconciled(db: Db, d: Db, host: int, kind: string, conds: map<string, Condition>,
                             closeMissing: bool, now: int) {
    forall s: string :: var k := Key(host, kind, s);
      PhaseAt(d, k) == if s in conds then ConditionStep(PhaseAt(db, k), now, conds[s])
                       else if closeMissing then Idle else PhaseAt(db, k)
  }

  /** Every subject of a kind has been told of by the rules, except those still to do, about which nothing changed. */
  ghost predicate KindTold(env: Env, db: Db, d: Db, host: int, kind: string, todo: set<string>) {
    forall s: string :: var k := Key(host, kind, s); if s in todo then Same(db, d, k) else Told(env, db, d, k)
  }

  lemma NothingToldYet(env: Env, db: Db, host: int, kind: string, todo: set<string>)
    ensures KindTold(env, db, db, host, kind, todo)
  {
    forall k: Key ensures Same(db, db, k) && Told(env, db, db, k) {
      NothingTold(env, db, k);
    }
  }

  lemma ToldStep(env: Env, db: Db, d: Db, e: Db, k: Key, todo: set<string>)
    requires KindTold(env, db, d, k.host, k.kind, todo) && k.subject in todo && SameBut(d, e, k)
    ensures Told(env, d, e, k) ==> KindTold(env, db, e, k.host, k.kind, todo - {k.subject})
  {
    hide Same;
    hide Told;
    forall s: string | s != k.subject || Told(env, d, e, k)
      ensures var o := Key(k.host, k.kind, s);
              if s in todo && s != k.subject then Same(db, e, o) else Told(env, db, e, o) {
      var o := Key(k.host, k.kind, s);
      SameTold(env, db, d, e, o);
      assert s == k.subject ==> o == k;
      assert s in todo ==> Same(db, d, o);
      assert s != k.subject ==> Same(d, e, o);
      if s in todo && s != k.subject {
        SameTrans(db, d, e, o);
      }
    }
  }

  lemma SameTrans(a: Db, b: Db, c: Db, k: Key)
    requires Same(a, b, k) && Same(b, c, k)
    ensures Same(a, c, k)
  {
  }

  /** What nothing changed about has been told of, too. */
  lemma ToldSkip(env: Env, db: Db, d: Db, host: int, kind: string, todo: set<string>, less: set<string>)
    requires KindTold(env, db, d, host, kind, todo) && less <= todo
    ensures KindTold(env, db, d, host, kind, less)
  {
    hide Same;
    hide Told;
    forall s: string | s !in less ensures Told(env, db, d, Key(host, kind, s)) {
      SameTold(env, db, d, d, Key(host, kind, s));
    }
  }

  /** First the subjects kept are told of, then the others. */
  lemma ToldInTwo(env: Env, a: Db, b: Db, c: Db, host: int, kind: string, kept: set<string>)
    requires KindTold(env, a, b, host, kind, {}) && KindTold(env, b, c, host, kind, kept)
    requires forall s: string :: s !in kept ==> Same(a, b, Key(host, kind, s))
    ensures KindTold(env, a, c, host, kind, {})
  {
    hide Same;
    hide Told;
    forall s: string ensures Told(env, a, c, Key(host, kind, s)) {
      SameTold(env, a, b, c, Key(host, kind, s));
      assert s in kept ==> Told(env, a, b, Key(host, kind, s)) && Same(b, c, Key(host, kind, s));
      assert s !in kept ==> Same(a, b, Key(host, kind, s)) && Told(env, b, c, Key(host, kind, s));
    }
  }

  /** First the others are told of, then the subjects kept. */
  lemma OthersToldFirst(env: Env, a: Db, b: Db, c: Db, host: int, kind: string, kept: set<string>)
    requires KindTold(env, a, b, host, kind, kept) && KindTold(env, b, c, host, kind, {})
    requires forall s: string :: s !in kept ==> Same(b, c, Key(host, kind, s))
    ensures KindTold(env, a, c, host, kind, {})
  {
    hide Same;
    hide Told;
    forall s: string ensures Told(env, a, c, Key(host, kind, s)) {
      SameTold(env, a, b, c, Key(host, kind, s));
      assert s in kept ==> Same(a, b, Key(host, kind, s)) && Told(env, b, c, Key(host, kind, s));
      assert s !in kept ==> Told(env, a, b, Key(host, kind, s)) && Same(b, c, Key(host, kind, s));
    }
  }

  lemma ToldThenCleared(env: Env, a: Db, b: Db, c: Db, host: int, kind: string)
    requires KindTold(env, a, b, host, kind, {}) && c == b.(waiting := c.waiting)
    ensures KindTold(env, a, c, host, kind, {})
  {
    forall s: string ensures Told(env, a, c, Key(host, kind, s)) {
      assert Told(env, a, b, Key(host, kind, s));
      WaitingTold(env, b, c, Key(host, kind, s));
    }
  }

  /** Resolve the active alerts of a kind whose subject is not kept. */
  method CloseOthers(e: Engine, st: HostState, kind: string, kept: set<string>)
    requires e.InStep(st) && !NeverWaits(kind)
    modifies e.store, st`active, st`pending
    ensures e.InStep(st) && OnlyKind(old(e.store.db), e.store.db, st.host, kind)
    ensures e.store.db.waiting == old(e.store.db.waiting)
    ensures forall s :: s in kept ==> Same(old(e.store.db), e.store.db, Key(st.host, kind, s))
    ensures !e.store.faulty ==> forall s :: s !in kept ==> Key(st.host, kind, s) !in e.store.db.active
    ensures !e.store.faulty ==> KindTold(e.env, old(e.store.db), e.store.db, st.host, kind, kept)
    ensures !e.store.faulty && Exclusive(old(e.store.db)) ==> Exclusive(e.store.db)
    ensures e.Calm() && Sound(old(e.store.db)) ==> Sound(e.store.db)
  {
    hide Same;
    hide Valid;
    hide Sound;
    hide Exclusive;
    hide SameBut;
    hide Backed;
    hide PhaseAt;
    hide Told;
    hide KindTold;
    ghost var db0 := e.store.db;
    SameAsItself(db0);
    var todo := set k | k in st.active && k.kind == kind && k.subject !in kept;
    ghost var left := kept + set k | k in todo :: k.subject;
    NothingToldYet(e.env, db0, st.host, kind, left);
    while todo != {}
      invariant kept <= left && forall k :: k in todo ==> k.subject in left
      invariant !e.store.faulty ==> KindTold(e.env, db0, e.store.db, st.host, kind, left)
      invariant e.InStep(st) && OnlyKind(db0, e.store.db, st.host, kind) && e.store.db.waiting == db0.waiting
      invariant todo == set k | k in st.active && k.kind == kind && k.subject !in kept
      invariant forall s :: s in kept ==> Same(db0, e.store.db, Key(st.host, kind, s))
      invariant !e.store.faulty && Exclusive(db0) ==> Exclusive(e.store.db)
      invariant e.Calm() && Sound(db0) ==> Sound(e.store.db)
      decreases todo
    {
      var k :| k in todo;
      ghost var db1 := e.store.db;
      e.Drop(st, k, None, None);
      OnlyKindStep(db0, db1, e.store.db, k);
      SameStays(db0, db1, e.store.db, k, kept);
      if !e.store.faulty {
        ToldStep(e.env, db0, db1, e.store.db, k, left);
      }
      todo, left := todo - {k}, left - {k.subject};
    }
    if !e.store.faulty {
      ToldSkip(e.env, db0, e.store.db, st.host, kind, left, kept);
    }
    if !e.store.faulty {
      forall s | s !in kept ensures Key(st.host, kind, s) !in e.store.db.active {
        var k := Key(st.host, kind, s);
        assert k !in todo && k !in st.active;
        assert Complete(st.active, st.pending, e.store.db, k);
      }
    }
  }

  lemma SameAsItself(db: Db)
    ensures forall k :: Same(db, db, k)
  {
  }

  lemma SameStays(db: Db, d: Db, e: Db, k: Key, kept: set<string>)
    requires SameBut(d, e, k) && k.subject !in kept
    requires forall s :: s in kept ==> Same(db, d, Key(k.host, k.kind, s))
    ensures forall s :: s in kept ==> Same(db, e, Key(k.host, k.kind, s))
  {
    forall s | s in kept ensures Same(db, e, Key(k.host, k.kind, s)) {
      assert Same(db, d, Key(k.host, k.kind, s)) && Same(d, e, Key(k.host, k.kind, s));
    }
  }

  /** Clear the waiting records of a kind whose subject is not kept. */
  method ClearOthers(e: Engine, st: HostState, kind: string, kept: set<string>)
    requires e.InStep(st) && !NeverWaits(kind)
    modifies e.store, st`active, st`pending
    ensures e.InStep(st) && OnlyKind(old(e.store.db), e.store.db, st.host, kind)
    ensures forall s :: s in kept ==> Same(old(e.store.db), e.store.db, Key(st.host, kind, s))
    ensures e.store.db == old(e.store.db).(waiting := e.store.db.waiting)
    ensures forall k: Key :: AlertAt(e.store.db, k) == AlertAt(old(e.store.db), k)
    ensures !e.store.faulty ==> forall s :: s !in kept ==> Key(st.host, kind, s) !in e.store.db.waiting
    ensures !e.store.faulty && Exclusive(old(e.store.db)) ==> Exclusive(e.store.db)
    ensures e.Calm() && Sound(old(e.store.db)) ==> Sound(e.store.db)
  {
    hide Same;
    hide SameBut;
    hide Valid;
    ghost var db0 := e.store.db;
    SameAsItself(db0);
    var todo := set k | k in st.pending && k.kind == kind && k.subject !in kept && k.host == st.host;
    while todo != {}
      invariant e.InStep(st) && OnlyKind(db0, e.store.db, st.host, kind)
      invariant e.store.db == db0.(waiting := e.store.db.waiting) && e.store.db.waiting.Keys <= db0.waiting.Keys
      invariant forall k :: k in todo ==> k.kind == kind && k.subject !in kept && k.host == st.host
      invariant !e.store.faulty ==>
                  forall k :: k in st.pending && k.kind == kind && k.subject !in kept && k.host == st.host ==> k in todo
      invariant forall s :: s in kept ==> Same(db0, e.store.db, Key(st.host, kind, s))
      decreases todo
    {
      var k :| k in todo;
      ghost var db1 := e.store.db;
      e.ClearPending(st, k);
      OnlyKindStep(db0, db1, e.store.db, k);
      SameStays(db0, db1, e.store.db, k, kept);
      todo := todo - {k};
    }
    if !e.store.faulty {
      forall s | s !in kept ensures Key(st.host, kind, s) !in e.store.db.waiting {
        var k := Key(st.host, kind, s);
        assert k !in st.pending;
        assert Complete(st.active, st.pending, e.store.db, k);
      }
    }
  }

  /** Bring every subject of a kind in line with its condition; a complete list also closes the subjects it lacks. */
  method Reconcile(e: Engine, st: HostState, kind: string, conds: map<string, Condition>, closeMissing: bool)
    requires e.InStep(st) && !NeverWaits(kind)
    modifies e.store, st`active, st`pending
    ensures e.InStep(st) && OnlyKind(old(e.store.db), e.store.db, st.host, kind)
    ensures !e.store.faulty ==> Reconciled(old(e.store.db), e.store.db, st.host, kind, conds, closeMissing, e.now)
    ensures !e.store.faulty ==> KindTold(e.env, old(e.store.db), e.store.db, st.host, kind, {})
    ensures forall s :: s in conds && conds[s].keep ==> Same(old(e.store.db), e.store.db, Key(st.host, kind, s))
    ensures !e.store.faulty && Exclusive(old(e.store.db)) ==> Exclusive(e.store.db)
    ensures e.Calm() && Sound(old(e.store.db)) ==> Sound(e.store.db)
  {
    hide Told;
    hide KindTold;
    ghost var db0 := e.store.db;
    ReconcileListed(e, st, kind, conds);
    if !closeMissing {
      return;
    }
    ghost var db1 := e.store.db;
    CloseOthers(e, st, kind, conds.Keys);
    ghost var db2 := e.store.db;
    ClearOthers(e, st, kind, conds.Keys);
    OnlyKindTrans(db0, db1, db2, st.host, kind);
    OnlyKindTrans(db0, db2, e.store.db, st.host, kind);
    if !e.store.faulty {
      ToldInTwo(e.env, db0, db1, db2, st.host, kind, conds.Keys);
      ToldThenCleared(e.env, db0, db2, e.store.db, st.host, kind);
    }
    ListedStay(db0, db1, db2, e.store.db, st.host, kind, conds, e.now);
  }

  /** Closing what a list lacks leaves what it holds. */
  lemma ListedStay(db0: Db, db1: Db, db2: Db, db3: Db, host: int, kind: string, conds: map<string, Condition>, now: int)
    requires Untouched(db0, db1, host, kind, conds, {})
    requires forall s :: s in conds.Keys ==> Same(db1, db2, Key(host, kind, s)) && Same(db2, db3, Key(host, kind, s))
    requires forall k: Key :: AlertAt(db3, k) == AlertAt(db2, k)
    ensures forall s :: s in conds && conds[s].keep ==> Same(db0, db3, Key(host, kind, s))
    ensures Stepped(db0, db1, host, kind, conds, {}, now)
            && (forall s :: s !in conds.Keys ==>
                Key(host, kind, s) !in db2.active && Key(host, kind, s) !in db3.waiting)
            ==> Reconciled(db0, db3, host, kind, conds, true, now)
  {
    forall s | s in conds ensures Same(db1, db3, Key(host, kind, s)) {
      assert Same(db1, db2, Key(host, kind, s)) && Same(db2, db3, Key(host, kind, s));
    }
    forall s | s in conds && conds[s].keep ensures Same(db0, db3, Key(host, kind, s)) {
      assert Same(db0, db1, Key(host, kind, s)) && Same(db1, db3, Key(host, kind, s));
    }
    forall s: string | s !in conds.Keys ensures AlertAt(db3, Key(host, kind, s)) == AlertAt(db2, Key(host, kind, s)) {
    }
  }

  lemma OnlyKindTrans(a: Db, b: Db, c: Db, host: int, kind: string)
    requires OnlyKind(a, b, host, kind) && OnlyKind(b, c, host, kind)
    ensures OnlyKind(a, c, host, kind)
  {
    forall k: Key | k.host != host || k.kind != kind ensures Same(a, c, k) {
      assert Same(a, b, k) && Same(b, c, k);
    }
  }

  /** Subjects still to do, kept or not listed are as they were. */
  ghost predicate Untouched(db: Db, d: Db, host: int, kind: string, conds: map<string, Condition>, todo: set<string>) {
    forall s :: s in todo || (s in conds ==> conds[s].keep) ==> Same(db, d, Key(host, kind, s))
  }

  /** Subjects done have taken their step. */
  ghost predicate Stepped(db: Db, d: Db, host: int, kind: string, conds: map<string, Condition>, todo: set<string>,
                          now: int) {
    forall s :: s in conds && s !in todo ==>
          PhaseAt(d, Key(host, kind, s)) == ConditionStep(PhaseAt(db, Key(host, kind, s)), now, conds[s])
  }

  lemma OneMore(db: Db, d: Db, e: Db, host: int, kind: string, conds: map<string, Condition>, todo: set<string>,
                s: string, now: int)
    requires s in todo && s in conds && Untouched(db, d, host, kind, conds, todo)
    requires SameBut(d, e, Key(host, kind, s)) && (conds[s].keep ==> e == d)
    ensures Untouched(db, e, host, kind, conds, todo - {s})
    ensures Stepped(db, d, host, kind, conds, todo, now)
            && PhaseAt(e, Key(host, kind, s)) == ConditionStep(PhaseAt(d, Key(host, kind, s)), now, conds[s])
            ==> Stepped(db, e, host, kind, conds, todo - {s}, now)
  {
    forall r | r != s ensures Same(d, e, Key(host, kind, r)) {
      assert Key(host, kind, r) != Key(host, kind, s);
    }
    assert Same(db, d, Key(host, kind, s));
    forall r | r in todo - {s} || (r in conds ==> conds[r].keep) ensures Same(db, e, Key(host, kind, r)) {
      assert Same(db, d, Key(host, kind, r));
      if r != s {
        assert Same(d, e, Key(host, kind, r));
      }
    }
    forall r | r in conds && r !in todo && Stepped(db, d, host, kind, conds, todo, now)
      ensures PhaseAt(e, Key(host, kind, r)) == ConditionStep(PhaseAt(db, Key(host, kind, r)), now, conds[r]) {
      assert Same(d, e, Key(host, kind, r));
    }
  }

  method ReconcileListed(e: Engine, st: HostState, kind: string, conds: map<string, Condition>)
    requires e.InStep(st) && !NeverWaits(kind)
    modifies e.store, st`active, st`pending
    ensures e.InStep(st) && OnlyKind(old(e.store.db), e.store.db, st.host, kind)
    ensures Untouched(old(e.store.db), e.store.db, st.host, kind, conds, {})
    ensures !e.store.faulty ==> Stepped(old(e.store.db), e.store.db, st.host, kind, conds, {}, e.now)
    ensures !e.store.faulty ==> KindTold(e.env, old(e.store.db), e.store.db, st.host, kind, {})
    ensures !e.store.faulty && Exclusive(old(e.store.db)) ==> Exclusive(e.store.db)
    ensures e.Calm() && Sound(old(e.store.db)) ==> Sound(e.store.db)
  {
    hide Valid;
    hide Sound;
    hide Exclusive;
    hide Untouched;
    hide Stepped;
    hide Same;
    hide SameBut;
    hide Told;
    hide KindTold;
    ghost var db0 := e.store.db;
    var todo := conds.Keys;
    NothingToldYet(e.env, db0, st.host, kind, todo);
    NothingDone(db0, st.host, kind, conds, e.now);
    while todo != {}
      invariant todo <= conds.Keys
      invariant e.InStep(st) && OnlyKind(db0, e.store.db, st.host, kind)
      invariant Untouched(db0, e.store.db, st.host, kind, conds, todo)
      invariant !e.store.faulty ==> Stepped(db0, e.store.db, st.host, kind, conds, todo, e.now)
      invariant !e.store.faulty ==> KindTold(e.env, db0, e.store.db, st.host, kind, todo)
      invariant !e.store.faulty && Exclusive(db0) ==> Exclusive(e.store.db)
      invariant e.Calm() && Sound(db0) ==> Sound(e.store.db)
      decreases todo
    {
      var s :| s in todo;
      ghost var db1 := e.store.db;
      e.ReconcileOne(st, Key(st.host, kind, s), conds[s]);
      OnlyKindStep(db0, db1, e.store.db, Key(st.host, kind, s));
      OneMore(db0, db1, e.store.db, st.host, kind, conds, todo, s, e.now);
      if !e.store.faulty {
        ToldStep(e.env, db0, db1, e.store.db, Key(st.host, kind, s), todo);
      }
      todo := todo - {s};
    }
  }

  lemma NothingDone(db: Db, host: int, kind: string, conds: map<string, Condition>, now: int)
    ensures OnlyKind(db, db, host, kind) && Untouched(db, db, host, kind, conds, conds.Keys)
    ensures Stepped(db, db, host, kind, conds, conds.Keys, now)
  {
  }

  /** A rule turned off closes every alert and waiting record of its kind. */
  method ResolveAll(e: Engine, st: HostState, kind: string)
    requires e.InStep(st) && !NeverWaits(kind)
    modifies e.store, st`active, st`pending
    ensures e.InStep(st) && OnlyKind(old(e.store.db), e.store.db, st.host, kind)
    ensures !e.store.faulty ==> forall s :: PhaseAt(e.store.db, Key(st.host, kind, s)) == Idle
    ensures !e.store.faulty ==> KindTold(e.env, old(e.store.db), e.store.db, st.host, kind, {})
    ensures !e.store.faulty && Exclusive(old(e.store.db)) ==> Exclusive(e.store.db)
    ensures e.Calm() && Sound(old(e.store.db)) ==> Sound(e.store.db)
  {
    Reconcile(e, st, kind, map[], true);
  }
}

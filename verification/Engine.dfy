/** The alert engine: a per-report cache of a host's alerts, and the evaluations that keep it and the database in
    step. */
module Engine {
  import opened AlertDb
  import opened Conditions
  import opened Lifecycle
  import opened Options
  import D = Dispatch

  const DISK: string := "disk"
  const FS_READONLY: string := "fs_readonly"

  /** Which hosts are in maintenance now and who is told about an alert of a host at a level. */
  datatype Env = Env(maintenance: int -> bool, recipients: (int, Level) -> seq<Recipient>)

  function PrepOf(env: Env, host: int, level: Level): Prep {
    if env.maintenance(host) then Prep(true, []) else Prep(false, env.recipients(host, level))
  }

  /** A level above another. */
  ghost predicate Above(a: Level, b: Level) { (a == Critical && b != Critical) || (a == Warning && b == Info) }

  /** What became of the alert of k and what was queued about it, by the rules of the environment: an opening, a change
      of level and a resolution each tell every recipient once, in maintenance nobody; then the alert is marked, and
      while it is marked its resolution tells nobody. An acknowledged alert that rises is open again. */
  ghost predicate Told(env: Env, db: Db, d: Db, k: Key) {
    var busy := env.maintenance(k.host);
    var before, after := Messages(db, k), Messages(d, k);
    match (AlertAt(db, k), AlertAt(d, k))
    case (None, None) => after == before
    case (None, Some(a)) =>
      && a.key == k && a.status == Open && a.ackBy == None && a.notifyPending == busy
      && after == before + if busy then [] else RowsFor(env.recipients(k.host, a.level), Opened, a)
    case (Some(b), Some(a)) =>
      if a.level == b.level then a == b && after == before
      else
        && a.id == b.id && a.key == k
        && (a.status, a.ackBy) == (if b.status == Acknowledged && Above(a.level, b.level) then (Open, None)
                                   else (b.status, b.ackBy))
        && (a.notifyPending ==> busy || (b.notifyPending && env.recipients(k.host, a.level) == []))
        && (busy ==> a.notifyPending)
        && after == before + if busy then [] else RowsFor(env.recipients(k.host, a.level), LevelChanged, a)
    case (Some(b), None) =>
      after == before + if busy || b.notifyPending then []
                        else RowsFor(env.recipients(k.host, b.level), Resolution, b)
  }

  /** An alert that was opened or changed its level carries the reading and the threshold it crossed. */
  ghost predicate Noted(db: Db, d: Db, k: Key, value: Option<real>, threshold: Option<real>) {
    AlertAt(d, k).Some? && (AlertAt(db, k).None? || AlertAt(db, k).value.level != AlertAt(d, k).value.level) ==>
      AlertAt(d, k).value.value == value && AlertAt(d, k).value.threshold == threshold
  }

  lemma OpeningTold(env: Env, db: Db, k: Key, level: Level, value: Option<real>, threshold: Option<real>)
    requires Valid(db) && k !in db.active
    ensures var d := Change(db, PrepOf(env, k.host, level), Opened, Create(k, level, value, threshold));
            Told(env, db, d, k) && Noted(db, d, k, value, threshold)
  {
    OpeningExact(db, PrepOf(env, k.host, level), k, level, value, threshold);
    hide Change;
    hide Valid;
    hide Messages;
  }

  lemma LevelTold(env: Env, db: Db, a: Alert, level: Level, value: Option<real>, threshold: Option<real>)
    requires Valid(db) && IsActive(db, a.id) && Unmarked(db.alerts[a.id]) == Unmarked(a) && a.level != level
    ensures var d := Change(db, PrepOf(env, a.key.host, level), LevelChanged, Relevel(a, level, value, threshold));
            Told(env, db, d, a.key) && Noted(db, d, a.key, value, threshold)
  {
    var p, b := PrepOf(env, a.key.host, level), Releveled(a, level, value, threshold, Reopens(a, level));
    assert db.alerts[a.id].(notifyPending := a.notifyPending) == Unmarked(a).(notifyPending := a.notifyPending);
    RelevelExact(db, p, a, level, value, threshold);
    RowAt(db, a.id);
    var d := Change(db, p, LevelChanged, Relevel(a, level, value, threshold));
    SameRows(p.recipients, LevelChanged, b, AlertAt(d, a.key).value);
    hide Change;
    hide Valid;
    hide Messages;
    hide RowsFor;
    assert Unmarked(a).key == a.key == db.alerts[a.id].key && db.alerts[a.id].level == Unmarked(a).level;
  }

  lemma RowAt(db: Db, id: int)
    requires Valid(db) && IsActive(db, id)
    ensures db.alerts[id].id == id && AlertAt(db, db.alerts[id].key) == Some(db.alerts[id])
  {
  }

  lemma ClosingTold(env: Env, db: Db, a: Alert, value: Option<real>, threshold: Option<real>)
    requires Valid(db) && IsActive(db, a.id) && Unmarked(db.alerts[a.id]) == Unmarked(a)
    ensures var d := Change(db, PrepOf(env, a.key.host, a.level), Resolution, Close(a.id, value, threshold));
            Told(env, db, d, a.key)
  {
    assert Unmarked(a).key == a.key == db.alerts[a.id].key && Unmarked(a).level == a.level == db.alerts[a.id].level;
    ClosingExact(db, PrepOf(env, a.key.host, a.level), a.id, value, threshold);
    RowAt(db, a.id);
    hide Change;
    hide Valid;
    hide Messages;
    hide RowsFor;
  }

  /** Nothing is told of a key about which nothing changes. */
  lemma SameTold(env: Env, db: Db, d: Db, e: Db, k: Key)
    ensures Same(db, d, k) ==> Told(env, db, d, k)
    ensures Told(env, db, d, k) && Same(d, e, k) ==> Told(env, db, e, k)
    ensures Same(db, d, k) && Told(env, d, e, k) ==> Told(env, db, e, k)
  {
    hide Messages;
    hide RowsFor;
  }

  lemma NothingTold(env: Env, db: Db, k: Key)
    ensures Told(env, db, db, k) && forall value, threshold :: Noted(db, db, k, value, threshold)
  {
    hide Messages;
    hide RowsFor;
  }

  /** Waiting records have nothing to do with it. */
  lemma WaitingTold(env: Env, db: Db, d: Db, k: Key)
    requires d == db.(waiting := d.waiting)
    ensures Told(env, db, d, k) && AlertAt(d, k) == AlertAt(db, k) && Messages(d, k) == Messages(db, k)
    ensures forall e :: (Told(env, d, e, k) ==> Told(env, db, e, k)) && (Told(env, e, db, k) ==> Told(env, e, d, k))
  {
    hide RowsFor;
    assert Messages(d, k) == Messages(db, k);
    hide Messages;
  }

  /** Thresholds of a metric: host-wide, and for single subjects. */
  datatype SubjectThresholds = SubjectThresholds(base: Option<Threshold>, perSubject: map<string, Threshold>) {
    predicate Empty() { base.None? && perSubject == map[] }

    function For(subject: string): Option<Threshold> {
      if subject in perSubject then Some(perSubject[subject]) else base
    }
  }

  function Unmarked(a: Alert): Alert { a.(notifyPending := false) }

  /** What is known of a host during one report; changes the engine makes are reflected here. */
  class HostState {
    const host: int
    var active: map<Key, Alert>
    var pending: map<Key, int>
    /** Disk_missing alerts were opened in this report: they are in the database only. */
    ghost var partial: bool

    constructor (host: int, active: map<Key, Alert>, pending: map<Key, int>)
      ensures this.host == host && this.active == active && this.pending == pending && !partial
    {
      this.host, this.active, this.pending, this.partial := host, active, pending, false;
    }

    method Take(k: Key) returns (a: Option<Alert>)
      modifies this`active
      ensures active == old(active) - {k}
      ensures a == if k in old(active) then Some(old(active)[k]) else None
    {
      a := if k in active then Some(active[k]) else None;
      active := active - {k};
    }
  }

  /** The cached alert of k, if any, is the row of the database up to its mark. */
  ghost predicate Backed(active: map<Key, Alert>, db: Db, k: Key) {
    k in active ==> AlertAt(db, k).Some? && Unmarked(active[k]) == Unmarked(AlertAt(db, k).value)
  }

  ghost predicate Complete(active: map<Key, Alert>, pending: map<Key, int>, db: Db, k: Key) {
    && (k in db.active ==> k in active)
    && (k in pending <==> k in db.waiting) && (k in pending ==> pending[k] == db.waiting[k])
  }

  class Engine {
    const store: D.Store
    var env: Env
    var now: int

    constructor (store: D.Store, env: Env, now: int)
      ensures this.store == store && this.env == env && this.now == now
    {
      this.store, this.env, this.now := store, env, now;
    }

    /** Under any failures: what the cache shows is in the database with the same level and status. */
    ghost predicate Follows(st: HostState)
      reads this, store, st
    {
      && Valid(store.db)
      && (forall k :: k in st.active ==> k.host == st.host && Backed(st.active, store.db, k))
    }

    /** Without failures the cache also misses nothing, except disk_missing alerts opened in this report. */
    ghost predicate InStep(st: HostState)
      reads this, store, st
    {
      && Follows(st)
      && (!store.faulty ==> forall k: Key :: k.host == st.host && (st.partial ==> k.kind != DISK_MISSING) ==>
          Complete(st.active, st.pending, store.db, k))
    }

    /** No store failures, and someone to tell outside maintenance. */
    ghost predicate Calm()
      reads this, store
    {
      !store.faulty && forall host, level :: Loud(PrepOf(env, host, level))
    }

    method Prepare(host: int, level: Level) returns (p: Prep)
      ensures !store.faulty ==> p == PrepOf(env, host, level)
    {
      var windowsUnread := store.Fails();
      if !windowsUnread && env.maintenance(host) {
        return Prep(true, []);
      }
      var recipientsUnread := store.Fails();
      return Prep(false, if recipientsUnread then [] else env.recipients(host, level));
    }

    method LoadState(host: int) returns (st: HostState?)
      requires Valid(store.db)
      ensures !store.faulty ==> st != null
      ensures st != null ==> fresh(st) && st.host == host && InStep(st) && !st.partial
    {
      var err := store.Fails();
      if err { return null; }
      var db := store.db;
      st := new HostState(host, map k | k in db.active && k.host == host :: db.alerts[db.active[k]],
                          map k | k in db.waiting && k.host == host :: db.waiting[k]);
    }

    method ResolveAndNotify(a: Alert, value: Option<real>, threshold: Option<real>)
      requires Valid(store.db) && a.id in store.db.alerts && store.db.alerts[a.id].key == a.key
      modifies store
      ensures Valid(store.db) && SameBut(old(store.db), store.db, a.key) && store.db.waiting == old(store.db.waiting)
      ensures !store.faulty && IsActive(old(store.db), a.id) ==> a.key !in store.db.active
      ensures !store.faulty ==>
                store.db == Change(old(store.db), PrepOf(env, a.key.host, a.level), Resolution,
                                   Close(a.id, value, threshold))
      ensures !store.faulty && IsActive(old(store.db), a.id) && Unmarked(old(store.db).alerts[a.id]) == Unmarked(a) ==>
                Told(env, old(store.db), store.db, a.key)
      ensures Calm() && Sound(old(store.db)) ==> Sound(store.db)
    {
      var p := Prepare(a.key.host, a.level);
      var m := Close(a.id, value, threshold);
      ghost var before := store.db;
      var err, settled := store.Change(p, Resolution, m);
      if !err {
        ChangeFrame(before, p, Resolution, m, store.db, a.key);
      }
      if !store.faulty && IsActive(before, a.id) && Unmarked(before.alerts[a.id]) == Unmarked(a) {
        ClosingTold(env, before, a, value, threshold);
      }
      if Calm() && Sound(before) {
        ChangeKeepsSound(before, p, Resolution, m);
      }
    }

    /** In the case of an error as in the case of success the cached level and status are those of the row. */
    method ChangeLevel(st: HostState, existing: Alert, level: Level, value: Option<real>, threshold: Option<real>)
      requires Follows(st) && existing.key in st.active && st.active[existing.key] == existing
      modifies store, st`active
      ensures Follows(st) && SameBut(old(store.db), store.db, existing.key) && store.db.waiting == old(store.db.waiting)
      ensures existing.key in st.active && st.active == old(st.active)[existing.key := st.active[existing.key]]
      ensures !store.faulty ==> PhaseAt(store.db, existing.key) == Firing(level)
      ensures !store.faulty ==>
                Told(env, old(store.db), store.db, existing.key)
                && Noted(old(store.db), store.db, existing.key, value, threshold)
      ensures Calm() && Sound(old(store.db)) ==> Sound(store.db)
    {
      hide Valid;
      hide Sound;
      hide SameBut;
      hide AlertDb.Change;
      hide ChangeOutcome;
      hide Mutate;
      hide Told;
      hide Noted;
      SameButItself(store.db, existing.key);
      NothingTold(env, store.db, existing.key);
      if existing.level == level {
        assert AlertAt(store.db, existing.key).value.level == level;
        return;
      }
      var p := Prepare(st.host, level);
      var m := Relevel(existing, level, value, threshold);
      ghost var before := store.db;
      BackedRow(before, existing);
      var err, changed := store.Change(p, LevelChanged, m);
      if err {
        st.active := st.active[existing.key := existing];
      } else {
        ChangeFrame(before, p, LevelChanged, m, store.db, existing.key);
        RelevelOutcome(before, p, existing, level, value, threshold, store.db);
        st.active := st.active[existing.key := changed.value];
        OthersStillBacked(st.active, before, store.db, existing.key);
      }
      if !store.faulty {
        LevelTold(env, before, existing, level, value, threshold);
      }
      if Calm() && Sound(before) {
        ChangeKeepsSound(before, p, LevelChanged, m);
      }
    }

    method OpenAlert(st: HostState, k: Key, level: Level, value: Option<real>, threshold: Option<real>)
      requires Follows(st) && k !in st.active && k.host == st.host
      modifies store, st`active
      ensures Follows(st) && SameBut(old(store.db), store.db, k) && store.db.waiting == old(store.db.waiting)
      ensures st.active - {k} == old(st.active)
      ensures k !in old(store.db.active) ==> (k in st.active <==> k in store.db.active)
      ensures !store.faulty ==> PhaseAt(store.db, k) == Firing(level)
      ensures !store.faulty && k !in old(store.db.active) ==>
                Told(env, old(store.db), store.db, k) && Noted(old(store.db), store.db, k, value, threshold)
      ensures Calm() && Sound(old(store.db)) && k !in old(store.db.active) ==> Sound(store.db)
    {
      hide Valid;
      hide Sound;
      hide SameBut;
      hide PhaseAt;
      hide AlertDb.Change;
      hide ChangeOutcome;
      hide Mutate;
      var p := Prepare(st.host, level);
      var m := Create(k, level, value, threshold);
      ghost var before := store.db;
      SameButItself(before, k);
      var err, created := store.Change(p, Opened, m);
      if err {
        st.active := st.active - {k};
        return;
      }
      ChangeFrame(before, p, Opened, m, store.db, k);
      CreateOutcome(before, p, k, level, value, threshold, store.db);
      OthersStillBacked(st.active, before, store.db, k);
      if !store.faulty && k !in before.active {
        OpeningTold(env, before, k, level, value, threshold);
      }
      if Calm() && Sound(before) {
        ChangeKeepsSound(before, p, Opened, m);
      }
      if created.Some? {
        st.active := st.active[k := created.value];
      } else {
        MatchLevel(st, k, level, value, threshold);
      }
    }

    /** Opened by another evaluation meanwhile: only make sure of its level. */
    method MatchLevel(st: HostState, k: Key, level: Level, value: Option<real>, threshold: Option<real>)
      requires Follows(st) && k !in st.active && k.host == st.host
      modifies store
      ensures Follows(st) && SameBut(old(store.db), store.db, k) && store.db.waiting == old(store.db.waiting)
      ensures k in old(store.db.active) <==> k in store.db.active
      ensures k !in old(store.db.active) ==> store.db == old(store.db)
      ensures !store.faulty && k in store.db.active ==> PhaseAt(store.db, k) == Firing(level)
    {
      ghost var before := store.db;
      var unread := store.Fails();
      if !unread && k in store.db.active && store.db.alerts[store.db.active[k]].level != level {
        var a := store.db.alerts[store.db.active[k]];
        var failed := store.UpdateLevel(a.id, level, value, threshold, Reopens(a, level));
        if store.db != before || !store.faulty {
          ReleveledFrame(before, k, level, value, threshold, Reopens(a, level));
          OthersStillBacked(st.active, before, store.db, k);
        }
      }
    }

    /** The condition has lasted d; a condition seen for the first time is recorded as beginning now. */
    method Sustained(st: HostState, k: Key, level: Level, d: int) returns (ok: bool)
      requires Valid(store.db) && k.host == st.host
      modifies store, st`pending
      ensures Valid(store.db) && SameBut(old(store.db), store.db, k)
              && store.db == old(store.db).(waiting := store.db.waiting)
      ensures k in old(store.db.active) <==> k in store.db.active
      ensures st.pending - {k} == old(st.pending) - {k}
      ensures !store.faulty && Complete(st.active, old(st.pending), old(store.db), k) ==>
                Complete(st.active, st.pending, store.db, k)
      ensures !store.faulty && Complete(st.active, old(st.pending), old(store.db), k) && k !in old(store.db.active) ==>
                var next := Sustain(PhaseAt(old(store.db), k), now, level, d);
                ok == next.Firing? && (!ok ==> PhaseAt(store.db, k) == next)
    {
      if d <= 0 {
        return true;
      }
      var since: int;
      if k in st.pending {
        since := st.pending[k];
      } else {
        var err;
        err, since := store.MarkPending(k, now);
        if err {
          return false;
        }
        st.pending := st.pending[k := since];
      }
      return now - since >= d;
    }

    /** Drop a waiting record. */
    method ClearPending(st: HostState, k: Key)
      requires InStep(st) && k.host == st.host
      modifies store, st`pending
      ensures InStep(st) && SameBut(old(store.db), store.db, k)
      ensures store.db == old(store.db).(waiting := store.db.waiting)
              && store.db.waiting.Keys <= old(store.db.waiting).Keys
      ensures st.pending - {k} == old(st.pending) - {k} && (!store.faulty ==> st.pending == old(st.pending) - {k})
      ensures !store.faulty && !NeverWaits(k.kind) ==> store.db.waiting == old(store.db.waiting) - {k}
      ensures Sound(old(store.db)) ==> Sound(store.db)
    {
      ghost var db0, pending0, active0 := store.db, st.pending, st.active;
      if k !in st.pending {
        assert st.pending == st.pending - {k};
        assert !store.faulty && !NeverWaits(k.kind) ==> Complete(st.active, st.pending, db0, k);
        return;
      }
      var err := store.ClearPending(k);
      if err {
        return;
      }
      st.pending := st.pending - {k};
      OthersStillBacked(st.active, db0, store.db, k);
      assert Backed(st.active, db0, k) ==> Backed(st.active, store.db, k);
      OthersStillComplete(active0, pending0, db0, st.active, st.pending, store.db, k);
    }

    /** Clear the waiting record, then open. */
    method OpenNow(st: HostState, k: Key, level: Level, value: Option<real>, threshold: Option<real>)
      requires InStep(st) && k !in st.active && k.host == st.host && !NeverWaits(k.kind)
      modifies store, st`active, st`pending
      ensures InStep(st) && SameBut(old(store.db), store.db, k)
      ensures !store.faulty ==> PhaseAt(store.db, k) == Firing(level) && store.db.waiting == old(store.db.waiting) - {k}
      ensures !store.faulty ==>
                Told(env, old(store.db), store.db, k) && Noted(old(store.db), store.db, k, value, threshold)
      ensures Calm() && Sound(old(store.db)) ==> Sound(store.db)
    {
      ghost var db0, pending0, active0 := store.db, st.pending, st.active;
      ClearPending(st, k);
      ghost var db1 := store.db;
      OthersStillBacked(st.active, db0, db1, k);
      OpenAlert(st, k, level, value, threshold);
      SameButTrans(db0, db1, store.db, k);
      WaitingTold(env, db0, db1, k);
      OthersStillComplete(active0, pending0, db0, st.active, st.pending, store.db, k);
    }

    /** Resolve an active alert with the reading that ended it, if any. */
    method Drop(st: HostState, k: Key, value: Option<real>, threshold: Option<real>)
      requires InStep(st) && k in st.active
      modifies store, st`active, st`pending
      ensures InStep(st) && SameBut(old(store.db), store.db, k) && store.db.waiting == old(store.db.waiting)
      ensures st.active == old(st.active) - {k} && st.pending == old(st.pending)
      ensures !store.faulty ==> k !in store.db.active
      ensures !store.faulty ==> Told(env, old(store.db), store.db, k)
      ensures !store.faulty && Exclusive(old(store.db)) ==> Exclusive(store.db)
      ensures Calm() && Sound(old(store.db)) ==> Sound(store.db)
    {
      hide Valid;
      hide Sound;
      hide SameBut;
      hide AlertDb.Change;
      ghost var db0, pending0, active0 := store.db, st.pending, st.active;
      CachedKey(st.active, db0, k);
      var a := st.Take(k);
      BackedRow(db0, a.value);
      ResolveAndNotify(a.value, value, threshold);
      OthersStillBacked(st.active, db0, store.db, k);
      OthersStillComplete(active0, pending0, db0, st.active, st.pending, store.db, k);
      assert !store.faulty && Complete(active0, pending0, db0, k) ==> Complete(st.active, st.pending, store.db, k);
      ExclusiveStill(db0, store.db, k);
    }

    /** The condition is over: clear the waiting record and resolve what is active. */
    method Release(st: HostState, k: Key, value: Option<real>, threshold: Option<real>)
      requires InStep(st) && k.host == st.host && !NeverWaits(k.kind)
      modifies store, st`active, st`pending
      ensures InStep(st) && SameBut(old(store.db), store.db, k)
      ensures !store.faulty ==> PhaseAt(store.db, k) == Idle && store.db.waiting == old(store.db.waiting) - {k}
      ensures !store.faulty ==> Told(env, old(store.db), store.db, k)
      ensures Calm() && Sound(old(store.db)) ==> Sound(store.db)
    {
      hide Sound;
      hide Valid;
      ghost var db0 := store.db;
      ClearPending(st, k);
      ghost var db1 := store.db;
      WaitingTold(env, db0, db1, k);
      if k in st.active {
        Drop(st, k, value, threshold);
        SameButTrans(db0, db1, store.db, k);
      }
      if !store.faulty {
        assert Complete(st.active, st.pending, store.db, k);
      }
    }

    /** A condition that is not firing yet: open it once it has lasted d. */
    method WaitOrOpen(st: HostState, k: Key, level: Level, d: int, value: Option<real>, threshold: Option<real>)
      requires InStep(st) && k !in st.active && k.host == st.host && !NeverWaits(k.kind)
      modifies store, st`active, st`pending
      ensures InStep(st) && SameBut(old(store.db), store.db, k)
      ensures !store.faulty ==> PhaseAt(store.db, k) == Sustain(PhaseAt(old(store.db), k), now, level, d)
      ensures !store.faulty ==>
                Told(env, old(store.db), store.db, k) && Noted(old(store.db), store.db, k, value, threshold)
      ensures !store.faulty && Exclusive(old(store.db)) ==> Exclusive(store.db)
      ensures Calm() && Sound(old(store.db)) ==> Sound(store.db)
    {
      ghost var db0, pending0, active0 := store.db, st.pending, st.active;
      var ok := Sustained(st, k, level, d);
      ghost var db1 := store.db;
      WaitingTold(env, db0, db1, k);
      OthersStillBacked(st.active, db0, db1, k);
      OthersStillComplete(active0, pending0, db0, st.active, st.pending, db1, k);
      if ok {
        OpenNow(st, k, level, value, threshold);
        SameButTrans(db0, db1, store.db, k);
      }
      ExclusiveStill(db0, store.db, k);
    }

    /** The level of an alert that is firing. */
    method Adjust(st: HostState, k: Key, level: Level, value: Option<real>, threshold: Option<real>)
      requires InStep(st) && k in st.active && k.host == st.host && !NeverWaits(k.kind)
      modifies store, st`active, st`pending
      ensures InStep(st) && SameBut(old(store.db), store.db, k)
      ensures !store.faulty ==> PhaseAt(store.db, k) == Firing(level) && store.db.waiting == old(store.db.waiting)
      ensures !store.faulty ==>
                Told(env, old(store.db), store.db, k) && Noted(old(store.db), store.db, k, value, threshold)
      ensures Calm() && Sound(old(store.db)) ==> Sound(store.db)
    {
      hide Valid;
      hide Sound;
      hide SameBut;
      hide PhaseAt;
      ghost var db0, pending0, active0 := store.db, st.pending, st.active;
      CachedKey(st.active, db0, k);
      ChangeLevel(st, st.active[k], level, value, threshold);
      OthersStillComplete(active0, pending0, db0, st.active, st.pending, store.db, k);
    }

    /** One evaluation of a value against a threshold. */
    method ApplyThreshold(st: HostState, k: Key, value: real, t: Threshold)
      requires InStep(st) && k.host == st.host && !NeverWaits(k.kind)
      modifies store, st`active, st`pending
      ensures InStep(st) && SameBut(old(store.db), store.db, k)
      ensures !store.faulty ==> PhaseAt(store.db, k) == ThresholdStep(PhaseAt(old(store.db), k), now, value, t)
      ensures !store.faulty ==>
                && Told(env, old(store.db), store.db, k)
                && Noted(old(store.db), store.db, k, Some(value),
                         Some(if value >= t.critical then t.critical else t.warning))
      ensures !store.faulty && Exclusive(old(store.db)) ==> Exclusive(store.db)
      ensures Calm() && Sound(old(store.db)) ==> Sound(store.db)
    {
      ghost var db0 := store.db;
      var level: Option<Level> := None;
      if value >= t.critical {
        level := Some(Critical);
      } else if value >= t.warning {
        level := Some(Warning);
      }
      if level.None? {
        Release(st, k, Some(value), Some(t.warning));
        ExclusiveStill(db0, store.db, k);
        return;
      }
      var trigger := if level.value == Critical then t.critical else t.warning;
      if k in st.active {
        FiringWhenCached(st, k);
        Adjust(st, k, level.value, Some(value), Some(trigger));
        ExclusiveStill(db0, store.db, k);
      } else {
        WaitOrOpen(st, k, level.value, DurationOf(t.seconds), Some(value), Some(trigger));
      }
    }

    lemma FiringWhenCached(st: HostState, k: Key)
      requires Follows(st) && k in st.active
      ensures PhaseAt(store.db, k).Firing? && k in store.db.active
    {
      assert Backed(st.active, store.db, k);
    }

    /** One subject of a list of conditions. */
    method ReconcileOne(st: HostState, k: Key, c: Condition)
      requires InStep(st) && k.host == st.host && !NeverWaits(k.kind)
      modifies store, st`active, st`pending
      ensures InStep(st) && SameBut(old(store.db), store.db, k)
      ensures c.keep ==> store.db == old(store.db)
      ensures !store.faulty ==> PhaseAt(store.db, k) == ConditionStep(PhaseAt(old(store.db), k), now, c)
      ensures !store.faulty ==> Told(env, old(store.db), store.db, k)
      ensures !store.faulty && Exclusive(old(store.db)) ==> Exclusive(store.db)
      ensures Calm() && Sound(old(store.db)) ==> Sound(store.db)
    {
      ghost var db0, pending0, active0 := store.db, st.pending, st.active;
      NothingTold(env, db0, k);
      if c.keep {
        return;
      }
      if c.level.None? {
        Release(st, k, None, None);
        ExclusiveStill(db0, store.db, k);
        return;
      }
      if k in st.active {
        FiringWhenCached(st, k);
        ClearPending(st, k);
        ghost var db1 := store.db;
        WaitingTold(env, db0, db1, k);
        OthersStillBacked(st.active, db0, db1, k);
        assert Backed(st.active, db0, k) ==> Backed(st.active, db1, k);
        OthersStillComplete(active0, pending0, db0, st.active, st.pending, db1, k);
        Adjust(st, k, c.level.value, None, None);
        SameButTrans(db0, db1, store.db, k);
        ExclusiveStill(db0, store.db, k);
        return;
      }
      if c.since.Some? {
        if now - c.since.value < c.duration {
          return;
        }
        OpenNow(st, k, c.level.value, None, None);
        ExclusiveStill(db0, store.db, k);
      } else {
        WaitOrOpen(st, k, c.level.value, c.duration, None, None);
      }
    }
  }

  lemma SameButItself(db: Db, k: Key)
    ensures SameBut(db, db, k)
  {
  }

  lemma SameButTrans(a: Db, b: Db, c: Db, k: Key)
    requires SameBut(a, b, k) && SameBut(b, c, k)
    ensures SameBut(a, c, k)
  {
    forall o | o != k ensures Same(a, c, o) {
      assert Same(a, b, o) && Same(b, c, o);
    }
  }

  lemma ExclusiveStill(a: Db, b: Db, k: Key)
    requires SameBut(a, b, k)
    ensures Exclusive(a) && (k in b.waiting ==> k !in b.active && !NeverWaits(k.kind)) ==> Exclusive(b)
  {
    forall o | Exclusive(a) && o in b.waiting && o != k ensures o !in b.active && !NeverWaits(o.kind) {
      assert Same(a, b, o);
    }
  }

  lemma OthersStillComplete(active: map<Key, Alert>, pending: map<Key, int>, db: Db,
                            active': map<Key, Alert>, pending': map<Key, int>, db': Db, k: Key)
    requires SameBut(db, db', k) && active - {k} == active' - {k} && pending - {k} == pending' - {k}
    ensures forall o :: o != k && Complete(active, pending, db, o) ==> Complete(active', pending', db', o)
  {
    forall o | o != k && Complete(active, pending, db, o) ensures Complete(active', pending', db', o) {
      assert Same(db, db', o);
      assert o in active <==> o in active - {k};
      assert o in active' <==> o in active' - {k};
      assert o in pending <==> o in pending - {k};
      assert o in pending' <==> o in pending' - {k};
      assert o in pending ==> pending[o] == (pending - {k})[o];
      assert o in pending' ==> pending'[o] == (pending' - {k})[o];
    }
  }

  /** A cached alert that agrees with the row of its key is that row, and the row is active. */
  lemma BackedRow(db: Db, a: Alert)
    requires Valid(db) && AlertAt(db, a.key).Some? && Unmarked(a) == Unmarked(AlertAt(db, a.key).value)
    ensures IsActive(db, a.id) && db.alerts[a.id].key == a.key && Unmarked(db.alerts[a.id]) == Unmarked(a)
  {
    var id := db.active[a.key];
    assert id in db.alerts && db.alerts[id].id == id;
    assert Unmarked(a).id == a.id && Unmarked(db.alerts[id]).id == id;
  }

  lemma CachedKey(active: map<Key, Alert>, db: Db, k: Key)
    requires Valid(db) && k in active && Backed(active, db, k)
    ensures active[k].key == k && k in db.active
  {
    assert active[k].key == Unmarked(active[k]).key == AlertAt(db, k).value.key;
  }

  lemma ReleveledFrame(db: Db, k: Key, level: Level, value: Option<real>, threshold: Option<real>, reopen: bool)
    requires Valid(db) && k in db.active
    ensures var a := db.alerts[db.active[k]];
            var after := db.(alerts := db.alerts[a.id := Releveled(a, level, value, threshold, reopen)]);
            Valid(after) && SameBut(db, after, k) && AlertAt(after, k).Some? && PhaseAt(after, k) == Firing(level)
  {
    assert db.active[k] in db.alerts && db.alerts[db.active[k]].id == db.active[k];
    var a := db.alerts[db.active[k]];
    SameMessages(db, Releveled(a, level, value, threshold, reopen));
    hide Messages;
  }

  /** A changed row with the same key changes no messages. */
  lemma SameMessages(db: Db, b: Alert)
    requires Valid(db) && b.id in db.alerts && db.alerts[b.id].key == b.key
    ensures forall o :: Messages(db.(alerts := db.alerts[b.id := b]), o) == Messages(db, o)
  {
    RowsAreOfAlerts(db);
    hide About;
    forall o ensures Messages(db.(alerts := db.alerts[b.id := b]), o) == Messages(db, o) {
      AboutSameKeys(db.outbox, db.alerts, db.alerts[b.id := b], o);
    }
  }

  lemma RelevelOutcome(before: Db, p: Prep, a: Alert, level: Level, value: Option<real>, threshold: Option<real>,
                       after: Db)
    requires Valid(before) && IsActive(before, a.id) && Unmarked(before.alerts[a.id]) == Unmarked(a)
    requires ChangeOutcome(before, p, LevelChanged, Relevel(a, level, value, threshold), after)
    ensures var b := Releveled(a, level, value, threshold, Reopens(a, level));
            && Mutate(before, Relevel(a, level, value, threshold)).1 == Some(b)
            && AlertAt(after, a.key).Some? && Unmarked(AlertAt(after, a.key).value) == Unmarked(b)
  {
    var (d, b) := Mutate(before, Relevel(a, level, value, threshold));
    DeliverSameAlerts(d, p, LevelChanged, b.value);
  }

  lemma CreateOutcome(before: Db, p: Prep, k: Key, level: Level, value: Option<real>, threshold: Option<real>,
                      after: Db)
    requires Valid(before) && ChangeOutcome(before, p, Opened, Create(k, level, value, threshold), after)
    ensures var a := Mutate(before, Create(k, level, value, threshold)).1;
            if k in before.active then a.None? && after == before
            else a.Some? && a.value.key == k && a.value.level == level
                 && AlertAt(after, k).Some? && Unmarked(AlertAt(after, k).value) == Unmarked(a.value)
                 && PhaseAt(after, k) == Firing(level)
  {
    var (d, a) := Mutate(before, Create(k, level, value, threshold));
    if a.Some? {
      DeliverSameAlerts(d, p, Opened, a.value);
    }
  }

  lemma OthersStillBacked(active: map<Key, Alert>, before: Db, after: Db, k: Key)
    requires SameBut(before, after, k)
    ensures forall o :: o != k && o in active && Backed(active, before, o) ==> Backed(active, after, o)
  {
    forall o | o != k ensures Backed(active, before, o) ==> Backed(active, after, o) {
      assert Same(before, after, o);
    }
  }
}

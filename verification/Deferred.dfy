/** Notifications deferred by maintenance, and hosts that go silent. */
module Deferred {
  import opened AlertDb
  import opened Engine
  import opened Lifecycle
  import opened Options

  /** An active, marked alert of a host that is not in maintenance. */
  predicate Due(db: Db, env: Env, id: int) {
    IsActive(db, id) && db.alerts[id].notifyPending && !env.maintenance(db.alerts[id].key.host)
  }

  function FlushOne(db: Db, env: Env, id: int): Db {
    if !Due(db, env, id) then db
    else Change(db, PrepOf(env, db.alerts[id].key.host, db.alerts[id].level), Opened, Reread(id))
  }

  /** The alerts below n flushed one after the other, oldest first. */
  function Flushed(db: Db, env: Env, n: nat): Db {
    if n == 0 then db else FlushOne(Flushed(db, env, n - 1), env, n - 1)
  }

  /** What the flush queues: for each due alert one row per recipient of its current level. */
  function FlushRows(db: Db, env: Env, n: nat): seq<Row> {
    if n == 0 then []
    else FlushRows(db, env, n - 1)
         + (if Due(db, env, n - 1)
            then RowsFor(env.recipients(db.alerts[n - 1].key.host, db.alerts[n - 1].level), Opened, db.alerts[n - 1])
            else [])
  }

  function Cleared(db: Db, env: Env, id: int): Alert
    requires id in db.alerts
  {
    if Due(db, env, id) then db.alerts[id].(notifyPending := false) else db.alerts[id]
  }

  lemma FlushOneExact(db: Db, env: Env, id: int)
    requires Due(db, env, id) && db.alerts[id].id == id
    ensures var d := FlushOne(db, env, id);
            && d == db.(alerts := db.alerts[id := db.alerts[id].(notifyPending := false)], outbox := d.outbox)
            && d.outbox == db.outbox
               + RowsFor(env.recipients(db.alerts[id].key.host, db.alerts[id].level), Opened, db.alerts[id])
  {
    var recipients := env.recipients(db.alerts[id].key.host, db.alerts[id].level);
    if recipients == [] {
      assert RowsFor(recipients, Opened, db.alerts[id]) == [];
    }
  }

  lemma NotDue(db: Db, env: Env, id: int)
    requires !Due(db, env, id)
    ensures FlushOne(db, env, id) == db
  {
  }

  lemma RowId(db: Db, id: int)
    requires Valid(db) && id in db.alerts
    ensures db.alerts[id].id == id
  {
  }

  /** Exactly the due alerts below n lose their mark, each with one message per recipient, oldest first; nothing else
      changes. */
  lemma {:induction false} FlushExact(db: Db, env: Env, n: nat)
    requires Valid(db)
    ensures var d := Flushed(db, env, n);
            && d == db.(alerts := d.alerts, outbox := db.outbox + FlushRows(db, env, n))
            && d.alerts.Keys == db.alerts.Keys
            && (forall id :: id in db.alerts ==>
                d.alerts[id] == if 0 <= id < n then Cleared(db, env, id) else db.alerts[id])
  {
    if n == 0 {
      assert db.outbox + [] == db.outbox;
    } else {
      FlushExact(db, env, n - 1);
      hide Valid;
      hide FlushOne;
      var c := Flushed(db, env, n - 1);
      assert Due(c, env, n - 1) <==> Due(db, env, n - 1);
      if Due(c, env, n - 1) {
        RowId(db, n - 1);
        FlushOneExact(c, env, n - 1);
        assert c.alerts[n - 1] == db.alerts[n - 1];
      } else {
        NotDue(c, env, n - 1);
        assert FlushRows(db, env, n) == FlushRows(db, env, n - 1) + [];
      }
    }
  }

  /** After a flush no active alert of a host outside maintenance is marked. */
  lemma NothingLeftDue(db: Db, env: Env, id: int)
    requires Valid(db)
    ensures !Due(Flushed(db, env, db.nextId), env, id)
  {
    FlushExact(db, env, db.nextId);
  }

  /** What a flush does to the alert of k and tells of it: the deferred notification goes out with the level of now. */
  ghost predicate FlushTold(env: Env, db: Db, d: Db, k: Key) {
    match AlertAt(db, k)
    case Some(a) =>
      if a.notifyPending && !env.maintenance(k.host)
      then AlertAt(d, k) == Some(a.(notifyPending := false))
           && Messages(d, k) == Messages(db, k) + RowsFor(env.recipients(k.host, a.level), Opened, a)
      else AlertAt(d, k) == Some(a) && Messages(d, k) == Messages(db, k)
    case None => AlertAt(d, k) == None && Messages(d, k) == Messages(db, k)
  }

  ghost predicate AllFlushTold(env: Env, db: Db, d: Db) {
    forall k :: FlushTold(env, db, d, k)
  }

  lemma FlushTells(db: Db, env: Env, k: Key)
    requires Valid(db)
    ensures FlushTold(env, db, Flushed(db, env, db.nextId), k)
  {
    FlushExact(db, env, db.nextId);
    var d := Flushed(db, env, db.nextId);
    FlushRowsAbout(db, env, db.nextId, k);
    RowsAreOfAlerts(db);
    FlushRowsOfAlerts(db, env, db.nextId);
    AboutSameKeys(d.outbox, db.alerts, d.alerts, k);
    if AlertAt(db, k).Some? {
      RowId(db, db.active[k]);
    }
    hide About;
    hide RowsFor;
    hide Flushed;
    hide FlushRows;
  }

  lemma AllFlushed(db: Db, env: Env)
    requires Valid(db)
    ensures AllFlushTold(env, db, Flushed(db, env, db.nextId))
  {
    forall k ensures FlushTold(env, db, Flushed(db, env, db.nextId), k) {
      FlushTells(db, env, k);
    }
  }

  lemma {:induction false} FlushRowsOfAlerts(db: Db, env: Env, n: nat)
    requires Valid(db)
    ensures forall r :: r in FlushRows(db, env, n) ==> r.alertId in db.alerts
  {
    if n > 0 {
      FlushRowsOfAlerts(db, env, n - 1);
    }
  }

  lemma {:induction false} FlushRowsAbout(db: Db, env: Env, n: nat, k: Key)
    requires Valid(db)
    ensures About(db.outbox + FlushRows(db, env, n), db.alerts, k)
            == About(db.outbox, db.alerts, k)
               + if AlertAt(db, k).Some? && AlertAt(db, k).value.id < n && AlertAt(db, k).value.notifyPending
                    && !env.maintenance(k.host)
                 then RowsFor(env.recipients(k.host, AlertAt(db, k).value.level), Opened, AlertAt(db, k).value) else []
  {
    hide About;
    hide RowsFor;
    if n == 0 {
      assert db.outbox + [] == db.outbox;
      if AlertAt(db, k).Some? {
        RowId(db, db.active[k]);
      }
    } else {
      FlushRowsAbout(db, env, n - 1, k);
      var init := db.outbox + FlushRows(db, env, n - 1);
      if AlertAt(db, k).Some? {
        RowId(db, db.active[k]);
      }
      if Due(db, env, n - 1) {
        var a := db.alerts[n - 1];
        RowId(db, n - 1);
        var more := RowsFor(env.recipients(a.key.host, a.level), Opened, a);
        AboutMore(init, more, db.alerts, n - 1, k);
        assert db.outbox + FlushRows(db, env, n) == init + more;
        assert AlertAt(db, a.key) == Some(a);
      } else {
        assert db.outbox + FlushRows(db, env, n) == init;
      }
    }
  }

  lemma NothingFlushed(db: Db, env: Env)
    requires Valid(db)
    ensures Flushed(db, env, 0) == db && 0 <= db.nextId
  {
  }

  lemma FlushNext(db: Db, env: Env, id: nat)
    ensures Flushed(db, env, id + 1) == FlushOne(Flushed(db, env, id), env, id)
  {
  }

  lemma StillListed(db: Db, env: Env, id: nat)
    requires Valid(db) && id in db.alerts
    ensures var d := Flushed(db, env, id); id in d.alerts && d.alerts[id] == db.alerts[id]
  {
    FlushExact(db, env, id);
  }

  lemma FlushSkips(db: Db, env: Env, id: nat)
    requires Valid(db) && !(IsActive(db, id) && db.alerts[id].notifyPending)
    ensures Flushed(db, env, id + 1) == Flushed(db, env, id)
  {
    FlushExact(db, env, id);
    NotDue(Flushed(db, env, id), env, id);
  }

  method FlushDeferred(e: Engine)
    requires Valid(e.store.db)
    modifies e.store
    ensures Valid(e.store.db)
    ensures !e.store.faulty ==> e.store.db == Flushed(old(e.store.db), e.env, old(e.store.db.nextId))
    ensures !e.store.faulty ==> AllFlushTold(e.env, old(e.store.db), e.store.db)
    ensures e.Calm() && Sound(old(e.store.db)) ==> Sound(e.store.db)
  {
    hide Sound;
    hide AllFlushTold;
    hide Valid;
    hide Flushed;
    hide FlushOne;
    hide Unmarked;
    hide Loud;
    hide PrepOf;
    ghost var db0 := e.store.db;
    NothingFlushed(db0, e.env);
    var unread := e.store.Fails();
    if unread {
      return;
    }
    var db := e.store.db;
    var busy: map<int, bool> := map[];
    for id := 0 to db.nextId
      invariant Valid(e.store.db) && e.store.db.alerts.Keys == db0.alerts.Keys
      invariant forall i :: i in db0.alerts ==> Unmarked(e.store.db.alerts[i]) == Unmarked(db0.alerts[i])
      invariant !e.store.faulty ==> e.store.db == Flushed(db0, e.env, id)
      invariant !e.store.faulty ==> forall h :: h in busy && busy[h] ==> e.env.maintenance(h)
      invariant e.Calm() && Sound(db0) ==> Sound(e.store.db)
    {
      FlushNext(db0, e.env, id);
      if id in db.alerts && db.alerts[id].notifyPending && db.alerts[id].status != Resolved {
        StillListed(db0, e.env, id);
        busy := FlushListed(e, id, db.alerts[id], busy);
      } else {
        FlushSkips(db0, e.env, id);
      }
    }
    AllFlushed(db0, e.env);
  }

  /** One listed alert: skipped if its host is known to be busy, otherwise reread and reported. */
  method FlushListed(e: Engine, id: int, a: Alert, busy: map<int, bool>) returns (busy': map<int, bool>)
    requires Valid(e.store.db) && id in e.store.db.alerts && Unmarked(e.store.db.alerts[id]) == Unmarked(a)
             && a.status != Resolved
    requires !e.store.faulty ==> e.store.db.alerts[id] == a && a.notifyPending
    requires !e.store.faulty ==> forall h :: h in busy && busy[h] ==> e.env.maintenance(h)
    modifies e.store
    ensures Valid(e.store.db) && e.store.db.alerts.Keys == old(e.store.db.alerts).Keys
    ensures forall i :: i in old(e.store.db).alerts ==>
              Unmarked(e.store.db.alerts[i]) == Unmarked(old(e.store.db).alerts[i])
    ensures !e.store.faulty ==> e.store.db == FlushOne(old(e.store.db), e.env, id)
    ensures !e.store.faulty ==> forall h :: h in busy' && busy'[h] ==> e.env.maintenance(h)
    ensures e.Calm() && Sound(old(e.store.db)) ==> Sound(e.store.db)
  {
    hide Sound;
    busy' := busy;
    ghost var before := e.store.db;
    assert Unmarked(a).key == a.key && Unmarked(a).status == a.status;
    assert Unmarked(before.alerts[id]).key == before.alerts[id].key
           && Unmarked(before.alerts[id]).status == before.alerts[id].status;
    if a.key.host in busy && busy[a.key.host] {
      return;
    }
    var noHost := e.store.Fails();
    if noHost {
      return;
    }
    var p := e.Prepare(a.key.host, a.level);
    busy' := busy[a.key.host := p.suppressed];
    if p.suppressed {
      return;
    }
    var m := Reread(id);
    var err, told := e.store.Change(p, Opened, m);
    if !err {
      ChangeFrame(before, p, Opened, m, e.store.db, a.key);
      RereadSameAlerts(before, p, id, e.store.db);
    }
    if e.Calm() && Sound(before) {
      ChangeKeepsSound(before, p, Opened, m);
    }
  }

  lemma RereadSameAlerts(before: Db, p: Prep, id: int, after: Db)
    requires ChangeOutcome(before, p, Opened, Reread(id), after)
    ensures SameAlerts(before, after)
  {
    var (d, a) := Mutate(before, Reread(id));
    if a.Some? {
      DeliverSameAlerts(d, p, Opened, a.value);
    }
  }

  // ---- silent hosts

  /** A silent host gets one critical alert, however often it is reported silent. */
  method RaiseOffline(e: Engine, host: int)
    requires Valid(e.store.db)
    modifies e.store
    ensures Valid(e.store.db) && SameBut(old(e.store.db), e.store.db, Key(host, "host_offline", ""))
    ensures Key(host, "host_offline", "") in old(e.store.db).active ==> e.store.db == old(e.store.db)
    ensures !e.store.faulty ==> Key(host, "host_offline", "") in e.store.db.active
    ensures var k := Key(host, "host_offline", "");
            !e.store.faulty ==>
              && Told(e.env, old(e.store.db), e.store.db, k)
              && (k !in old(e.store.db).active ==> PhaseAt(e.store.db, k) == Firing(Critical))
    ensures e.Calm() && Sound(old(e.store.db)) ==> Sound(e.store.db)
  {
    var k := Key(host, HOST_OFFLINE, "");
    NothingTold(e.env, e.store.db, k);
    hide Told;
    var unread := e.store.Fails();
    if unread || k in e.store.db.active {
      return;
    }
    var p := e.Prepare(host, Critical);
    var m := Create(k, Critical, None, None);
    ghost var before := e.store.db;
    var err, a := e.store.Change(p, Opened, m);
    if !err {
      ChangeFrame(before, p, Opened, m, e.store.db, k);
      CreateOutcome(before, p, k, Critical, None, None, e.store.db);
    }
    if !e.store.faulty {
      OpeningTold(e.env, before, k, Critical, None, None);
    }
    if e.Calm() && Sound(before) {
      ChangeKeepsSound(before, p, Opened, m);
    }
  }

  /** A host that reports again has its offline alert resolved. */
  method ResolveOffline(e: Engine, host: int)
    requires Valid(e.store.db)
    modifies e.store
    ensures Valid(e.store.db) && SameBut(old(e.store.db), e.store.db, Key(host, "host_offline", ""))
    ensures !e.store.faulty ==> Key(host, "host_offline", "") !in e.store.db.active
    ensures !e.store.faulty ==> Told(e.env, old(e.store.db), e.store.db, Key(host, "host_offline", ""))
    ensures e.Calm() && Sound(old(e.store.db)) ==> Sound(e.store.db)
  {
    var k := Key(host, HOST_OFFLINE, "");
    NothingTold(e.env, e.store.db, k);
    hide Told;
    var unread := e.store.Fails();
    if unread || k !in e.store.db.active {
      return;
    }
    var a := e.store.db.alerts[e.store.db.active[k]];
    assert e.store.db.active[k] in e.store.db.alerts && a.id == e.store.db.active[k];
    e.ResolveAndNotify(a, None, None);
  }
}

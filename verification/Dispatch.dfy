/** The store of alerts and the transaction that changes an alert together with its notification. */
module Dispatch {
  import opened AlertDb
  import opened Options

  /** A database whose every access may fail when it is faulty. */
  class Store {
    const faulty: bool
    var db: Db

    constructor (faulty: bool)
      ensures this.faulty == faulty && db == EmptyDb
    {
      this.faulty := faulty;
      db := EmptyDb;
    }

    method Fails() returns (failed: bool)
      ensures !faulty ==> !failed
    {
      var unlucky: bool := *;
      failed := faulty && unlucky;
    }

    method CreateIfNoneActive(k: Key, level: Level, value: Option<real>, threshold: Option<real>)
      returns (err: bool, created: Option<Alert>)
      modifies this
      ensures !faulty ==> !err
      ensures err ==> db == old(db)
      ensures !err ==> (db, created) == Mutate(old(db), Create(k, level, value, threshold))
    {
      err := Fails();
      created := None;
      if err { return; }
      if k !in db.active {
        var a := Alert(db.nextId, k, level, Open, None, value, threshold, false);
        db := db.(alerts := db.alerts[a.id := a], active := db.active[k := a.id], nextId := db.nextId + 1);
        created := Some(a);
      }
    }

    method UpdateLevel(id: int, level: Level, value: Option<real>, threshold: Option<real>, reopen: bool)
      returns (err: bool)
      modifies this
      ensures !faulty ==> !err
      ensures err || !IsActive(old(db), id) ==> db == old(db)
      ensures !err && IsActive(old(db), id) ==>
                db == old(db).(alerts :=
                               old(db).alerts[id := Releveled(old(db).alerts[id], level, value, threshold, reopen)])
    {
      err := Fails();
      if !err && id in db.alerts && db.alerts[id].status != Resolved {
        var a := db.alerts[id].(level := level, value := value, threshold := threshold);
        if reopen {
          a := a.(status := Open, ackBy := None);
        }
        db := db.(alerts := db.alerts[id := a]);
      }
    }

    /** Already resolved alerts are reported as not found. */
    method Resolve(id: int, value: Option<real>, threshold: Option<real>) returns (err: bool, settled: Option<Alert>)
      modifies this
      ensures !faulty ==> !err
      ensures err ==> db == old(db)
      ensures !err ==> (db, settled) == Mutate(old(db), Close(id, value, threshold))
    {
      err := Fails();
      settled := None;
      if !err && id in db.alerts && db.alerts[id].status != Resolved {
        var a := db.alerts[id].(status := Resolved);
        if value.Some? { a := a.(value := value); }
        if threshold.Some? { a := a.(threshold := threshold); }
        db := db.(alerts := db.alerts[id := a], active := db.active - {a.key});
        settled := Some(a);
      }
    }

    method SetNotifyPending(id: int, pending: bool) returns (err: bool)
      modifies this
      ensures !faulty ==> !err
      ensures db == if err then old(db) else SetMark(old(db), id, pending)
    {
      err := Fails();
      if !err && id in db.alerts && db.alerts[id].notifyPending != pending {
        db := db.(alerts := db.alerts[id := db.alerts[id].(notifyPending := pending)]);
      }
    }

    /** One row per recipient; on an error the rows written so far are still there, for the savepoint to undo. */
    method Enqueue(p: Prep, event: Event, a: Alert) returns (err: bool)
      modifies this
      ensures !faulty ==> !err
      ensures !err ==> db == old(db).(outbox := old(db).outbox + RowsFor(p.recipients, event, a))
    {
      var rows := RowsFor(p.recipients, event, a);
      for i := 0 to |p.recipients|
        invariant db == old(db).(outbox := old(db).outbox + rows[..i])
      {
        err := Fails();
        if err { return; }
        assert rows[..i + 1] == rows[..i] + [rows[i]];
        db := db.(outbox := db.outbox + [Row(p.recipients[i], a.id, event, a.level)]);
      }
      assert rows[..|p.recipients|] == rows;
      err := false;
    }

    /** The mark is written in a savepoint: if that fails the rest of the transaction stands. */
    method MarkDeferred(id: int, deferred: bool)
      modifies this
      ensures db == old(db) || db == SetMark(old(db), id, deferred)
      ensures !faulty ==> db == SetMark(old(db), id, deferred)
    {
      var err := Fails();
      if err { return; }
      var saved := db;
      err := SetNotifyPending(id, deferred);
      if !err {
        err := Fails();
      }
      if err {
        db := saved;
      }
    }

    /** The function run inside the transaction. */
    method Perform(m: Mutation) returns (err: bool, a: Option<Alert>)
      modifies this
      ensures !faulty ==> !err
      ensures err ==> db == old(db)
      ensures !err ==> (db, a) == Mutate(old(db), m)
    {
      match m {
        case Create(k, level, value, threshold) =>
          err, a := CreateIfNoneActive(k, level, value, threshold);
        case Relevel(existing, level, value, threshold) =>
          var reopen := Reopens(existing, level);
          err := UpdateLevel(existing.id, level, value, threshold, reopen);
          a := Some(Releveled(existing, level, value, threshold, reopen));
        case Close(id, value, threshold) =>
          err, a := Resolve(id, value, threshold);
        case Reread(id) =>
          err := Fails();
          a := if !err && IsActive(db, id) && db.alerts[id].notifyPending then Some(db.alerts[id]) else None;
      }
    }

    /** The notification part of the transaction: sent whole, or undone to the savepoint. */
    method Notify(p: Prep, event: Event, a: Alert) returns (notified: bool)
      modifies this
      ensures db == old(db) || db == Deliver(old(db), p, event, a)
      ensures !faulty ==> db == Deliver(old(db), p, event, a)
      ensures notified ==> !p.suppressed && p.recipients != [] && db == Sent(old(db), p, event, a)
    {
      notified := false;
      var resolved := event == Resolution;
      if p.suppressed {
        MarkDeferred(a.id, !resolved);
      } else if resolved && a.notifyPending {
        MarkDeferred(a.id, false);
      } else if p.recipients == [] {
        if a.notifyPending {
          MarkDeferred(a.id, false);
        }
      } else {
        var saved := db;
        var err := Fails();
        if !err {
          err := Enqueue(p, event, a);
          if !err {
            err := SetNotifyPending(a.id, false);
          }
          if !err {
            err := Fails();
          }
        }
        if err {
          db := saved;
        } else {
          notified := true;
        }
      }
    }

    /** An alert change and its notification in one transaction. On an error nothing happened; otherwise the alert
        change is recorded and the notification is either complete or absent. */
    method Change(p: Prep, event: Event, m: Mutation) returns (err: bool, a: Option<Alert>)
      modifies this
      ensures !faulty ==> !err && db == AlertDb.Change(old(db), p, event, m)
      ensures err ==> db == old(db)
      ensures !err ==> ChangeOutcome(old(db), p, event, m, db) && a == Mutate(old(db), m).1
    {
      a := None;
      err := Fails();
      if err { return; }
      var saved := db;
      err, a := Perform(m);
      if !err && a.Some? {
        var notified := Notify(p, event, a.value);
      }
      if !err {
        err := Fails();
      }
      if err {
        db := saved;
      }
    }

    // ---- conditions waiting out their duration; outside any transaction

    /** A condition already waiting keeps its beginning. */
    method MarkPending(k: Key, at: int) returns (err: bool, since: int)
      modifies this
      ensures !faulty ==> !err
      ensures err ==> db == old(db)
      ensures !err ==> since == (if k in old(db).waiting then old(db).waiting[k] else at)
                       && db == old(db).(waiting := old(db).waiting[k := since])
    {
      err := Fails();
      since := if k in db.waiting then db.waiting[k] else at;
      if !err && k !in db.waiting {
        db := db.(waiting := db.waiting[k := at]);
      }
      assert k in old(db).waiting ==> old(db).waiting[k := since] == old(db).waiting;
    }

    method ClearPending(k: Key) returns (err: bool)
      modifies this
      ensures !faulty ==> !err
      ensures db == if err then old(db) else old(db).(waiting := old(db).waiting - {k})
    {
      err := Fails();
      if !err {
        db := db.(waiting := db.waiting - {k});
      }
    }
  }
}

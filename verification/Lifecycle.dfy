/** What recipients are told over the life of an alert, for every run of the engine without store failures. */
module Lifecycle {
  import opened AlertDb
  import opened Options

  // ---- the story the outbox tells

  predicate Announces(r: Row, id: int) { r.alertId == id && r.event != Resolution }

  predicate Resolves(r: Row, id: int) { r.alertId == id && r.event == Resolution }

  ghost predicate Announced(rows: seq<Row>, id: int) {
    exists i :: 0 <= i < |rows| && Announces(rows[i], id)
  }

  /** A resolution comes after an announcement of the same alert, nothing but the other recipients' copies of it comes
      later, and no recipient gets two. */
  ghost predicate Orderly(rows: seq<Row>) {
    && (forall i :: 0 <= i < |rows| && rows[i].event == Resolution ==> Announced(rows[..i], rows[i].alertId))
    && (forall i, j :: 0 <= i < j < |rows| && rows[i].event == Resolution && rows[j].alertId == rows[i].alertId
                       ==> rows[j].event == Resolution && rows[j].recipient != rows[i].recipient)
  }

  /** Active alerts are announced or marked, and not reported resolved; resolved alerts are never marked. */
  ghost predicate Tracked(db: Db) {
    forall id :: id in db.alerts ==>
      if db.alerts[id].status == Resolved then !db.alerts[id].notifyPending
      else (db.alerts[id].notifyPending || Announced(db.outbox, id))
           && forall i :: 0 <= i < |db.outbox| ==> !Resolves(db.outbox[i], id)
  }

  ghost predicate Sound(db: Db) { Valid(db) && Orderly(db.outbox) && Tracked(db) }

  /** Outside maintenance there is someone to tell, and nobody twice. */
  ghost predicate Loud(p: Prep) {
    p.suppressed || (p.recipients != [] && forall i, j :: 0 <= i < j < |p.recipients| ==>
                     p.recipients[i] != p.recipients[j])
  }

  // ---- the moves of the engine

  /** Every engine operation on alerts is one of these; an acknowledgement comes from the panel. */
  datatype Move =
    | Raise(p: Prep, key: Key, level: Level, value: Option<real>, threshold: Option<real>)
    | Shift(p: Prep, existing: Alert, level: Level, value: Option<real>, threshold: Option<real>)
    | Settle(p: Prep, id: int, value: Option<real>, threshold: Option<real>)
    | Remind(p: Prep, id: int)
    | Acknowledge(id: int, user: int)

  /** The cached alert whose level is changed is the active row, up to its mark. */
  ghost predicate Possible(db: Db, m: Move) {
    match m
    case Shift(_, a, _, _, _) => IsActive(db, a.id) && db.alerts[a.id].(notifyPending := a.notifyPending) == a
    case _ => true
  }

  function Apply(db: Db, m: Move): Db {
    match m
    case Raise(p, k, level, value, threshold) => Change(db, p, Opened, Create(k, level, value, threshold))
    case Shift(p, a, level, value, threshold) => Change(db, p, LevelChanged, Relevel(a, level, value, threshold))
    case Settle(p, id, value, threshold) => Change(db, p, Resolution, Close(id, value, threshold))
    case Remind(p, id) => Change(db, p, Opened, Reread(id))
    case Acknowledge(id, user) =>
      if id in db.alerts && db.alerts[id].status == Open
      then db.(alerts := db.alerts[id := db.alerts[id].(status := Acknowledged, ackBy := Some(user))]) else db
  }

  ghost predicate LoudMove(m: Move) { m.Acknowledge? || Loud(m.p) }

  // ---- one delivery

  /** Sending announcements or the resolution of one alert keeps the story in order. */
  lemma RowsKeepOrder(rows: seq<Row>, recipients: seq<Recipient>, event: Event, a: Alert)
    requires Orderly(rows)
    requires forall i :: 0 <= i < |rows| ==> !Resolves(rows[i], a.id)
    requires event == Resolution ==>
               Announced(rows, a.id) && forall i, j :: 0 <= i < j < |recipients| ==> recipients[i] != recipients[j]
    ensures Orderly(rows + RowsFor(recipients, event, a))
    ensures recipients != [] && event != Resolution ==> Announced(rows + RowsFor(recipients, event, a), a.id)
  {
    var added := RowsFor(recipients, event, a);
    var all := rows + added;
    forall i | 0 <= i < |all| && all[i].event == Resolution ensures Announced(all[..i], all[i].alertId) {
      if i < |rows| {
        assert all[..i] == rows[..i];
      } else {
        var j :| 0 <= j < |rows| && Announces(rows[j], a.id);
        assert Announces(all[..i][j], a.id);
      }
    }
    if recipients != [] && event != Resolution {
      assert Announces(all[|rows|], a.id);
    }
  }

  lemma LongerStory(rows: seq<Row>, added: seq<Row>, id: int)
    ensures Announced(rows, id) ==> Announced(rows + added, id)
  {
    if i :| 0 <= i < |rows| && Announces(rows[i], id) {
      assert Announces((rows + added)[i], id);
    }
  }

  /** What must hold of the table change before the notification is dealt with. */
  ghost predicate Ready(d: Db, event: Event, a: Alert) {
    && Valid(d) && Orderly(d.outbox)
    && a.id in d.alerts
    && (forall i :: 0 <= i < |d.outbox| ==> !Resolves(d.outbox[i], a.id))
    && (d.alerts[a.id].status == Resolved <==> event == Resolution)
    && (event == Resolution ==> a.notifyPending || Announced(d.outbox, a.id))
    && (forall id :: id in d.alerts && id != a.id ==>
          if d.alerts[id].status == Resolved then !d.alerts[id].notifyPending
          else (d.alerts[id].notifyPending || Announced(d.outbox, id))
               && forall i :: 0 <= i < |d.outbox| ==> !Resolves(d.outbox[i], id))
  }

  lemma DeliverKeepsSound(d: Db, p: Prep, event: Event, a: Alert)
    requires Ready(d, event, a) && Loud(p)
    ensures Sound(Deliver(d, p, event, a))
  {
    DeliverKeepsValid(d, p, event, a);
    hide Valid;
    var e := Deliver(d, p, event, a);
    if !(p.suppressed || (event == Resolution && a.notifyPending)) {
      RowsKeepOrder(d.outbox, p.recipients, event, a);
      forall id ensures Announced(d.outbox, id) ==> Announced(e.outbox, id) {
        LongerStory(d.outbox, RowsFor(p.recipients, event, a), id);
      }
    }
  }

  lemma MutateReady(db: Db, event: Event, m: Mutation)
    requires Sound(db)
    requires match m
             case Create(_, _, _, _) => event == Opened
             case Relevel(a, _, _, _) => event == LevelChanged && IsActive(db, a.id) && db.alerts[a.id].key == a.key
             case Close(_, _, _) => event == Resolution
             case Reread(_) => event == Opened
    ensures Valid(Mutate(db, m).0)
    ensures Mutate(db, m).1.None? ==> Mutate(db, m).0 == db
    ensures Mutate(db, m).1.Some? ==> Ready(Mutate(db, m).0, event, Mutate(db, m).1.value)
  {
    MutateKeepsValid(db, m);
  }

  lemma MoveKeepsSound(db: Db, m: Move)
    requires Sound(db) && Possible(db, m) && LoudMove(m)
    ensures Sound(Apply(db, m))
  {
    match m
    case Raise(p, k, level, value, threshold) => ChangeKeepsSound(db, p, Opened, Create(k, level, value, threshold));
    case Shift(p, a, level, value, threshold) =>
      ChangeKeepsSound(db, p, LevelChanged, Relevel(a, level, value, threshold));
    case Settle(p, id, value, threshold) => ChangeKeepsSound(db, p, Resolution, Close(id, value, threshold));
    case Remind(p, id) => ChangeKeepsSound(db, p, Opened, Reread(id));
    case Acknowledge(id, user) =>
  }

  lemma ChangeKeepsSound(db: Db, p: Prep, event: Event, m: Mutation)
    requires Sound(db) && Loud(p)
    requires match m
             case Create(_, _, _, _) => event == Opened
             case Relevel(a, _, _, _) => event == LevelChanged && IsActive(db, a.id) && db.alerts[a.id].key == a.key
             case Close(_, _, _) => event == Resolution
             case Reread(_) => event == Opened
    ensures Sound(Change(db, p, event, m))
  {
    MutateReady(db, event, m);
    var (d, a) := Mutate(db, m);
    if a.Some? {
      DeliverKeepsSound(d, p, event, a.value);
    }
  }

  // ---- whole runs

  ghost function Run(db: Db, moves: seq<Move>): Db {
    if moves == [] then db else Apply(Run(db, moves[..|moves| - 1]), moves[|moves| - 1])
  }

  ghost predicate PossibleRun(db: Db, moves: seq<Move>) {
    moves != [] ==>
      var init := moves[..|moves| - 1];
      PossibleRun(db, init) && Possible(Run(db, init), moves[|moves| - 1]) && LoudMove(moves[|moves| - 1])
  }

  /** Every run keeps the story in order. */
  lemma {:induction false} RunKeepsSound(db: Db, moves: seq<Move>)
    requires Sound(db) && PossibleRun(db, moves)
    ensures Sound(Run(db, moves))
  {
    if moves != [] {
      RunKeepsSound(db, moves[..|moves| - 1]);
      MoveKeepsSound(Run(db, moves[..|moves| - 1]), moves[|moves| - 1]);
    }
  }

  /** From an empty database: a message that an alert is resolved is about a resolved alert, comes after an
      announcement of it, and is followed by nothing about it but the same message to other recipients; no resolved
      alert is marked. */
  lemma StoryOfARun(moves: seq<Move>)
    requires PossibleRun(EmptyDb, moves)
    ensures var db := Run(EmptyDb, moves);
            forall i :: 0 <= i < |db.outbox| && db.outbox[i].event == Resolution ==>
              var id := db.outbox[i].alertId;
              && id in db.alerts && db.alerts[id].status == Resolved
              && (exists k :: 0 <= k < i && Announces(db.outbox[k], id))
              && (forall j :: i < j < |db.outbox| && db.outbox[j].alertId == id ==>
                    db.outbox[j].event == Resolution && db.outbox[j].recipient != db.outbox[i].recipient)
    ensures forall id :: id in Run(EmptyDb, moves).alerts && Run(EmptyDb, moves).alerts[id].status == Resolved
                         ==> !Run(EmptyDb, moves).alerts[id].notifyPending
  {
    RunKeepsSound(EmptyDb, moves);
    SoundStory(Run(EmptyDb, moves));
  }

  lemma SoundStory(db: Db)
    requires Sound(db)
    ensures forall i :: 0 <= i < |db.outbox| && db.outbox[i].event == Resolution ==>
              var id := db.outbox[i].alertId;
              && id in db.alerts && db.alerts[id].status == Resolved
              && (exists k :: 0 <= k < i && Announces(db.outbox[k], id))
    ensures Orderly(db.outbox)
    ensures forall id :: id in db.alerts && db.alerts[id].status == Resolved ==> !db.alerts[id].notifyPending
  {
    forall i | 0 <= i < |db.outbox| && db.outbox[i].event == Resolution
      ensures var id := db.outbox[i].alertId;
              && id in db.alerts && db.alerts[id].status == Resolved
              && (exists k :: 0 <= k < i && Announces(db.outbox[k], id)) {
      var id := db.outbox[i].alertId;
      assert Resolves(db.outbox[i], id);
      var k :| 0 <= k < |db.outbox[..i]| && Announces(db.outbox[..i][k], id);
      assert Announces(db.outbox[k], id);
    }
  }

  // ---- a resolved alert stays as it is

  lemma MutateLeavesResolved(db: Db, m: Mutation, id: int)
    requires Valid(db) && id in db.alerts && db.alerts[id].status == Resolved
    requires m.Relevel? ==> IsActive(db, m.existing.id)
    ensures id in Mutate(db, m).0.alerts && Mutate(db, m).0.alerts[id] == db.alerts[id]
            && Mutate(db, m).0.outbox == db.outbox
    ensures Mutate(db, m).1.Some? ==>
              Mutate(db, m).1.value.id != id && Mutate(db, m).1.value.id in Mutate(db, m).0.alerts
  {
  }

  lemma DeliverLeavesOthers(d: Db, p: Prep, event: Event, a: Alert, id: int)
    requires id in d.alerts && a.id != id
    ensures var e := Deliver(d, p, event, a);
            && id in e.alerts && e.alerts[id] == d.alerts[id] && d.outbox <= e.outbox
            && forall i :: |d.outbox| <= i < |e.outbox| ==> e.outbox[i].alertId != id
  {
    DeliverSameAlerts(d, p, event, a);
  }

  lemma MoveLeavesResolved(db: Db, m: Move, id: int)
    requires Valid(db) && Possible(db, m) && id in db.alerts && db.alerts[id].status == Resolved
    ensures Valid(Apply(db, m)) && id in Apply(db, m).alerts && Apply(db, m).alerts[id] == db.alerts[id]
    ensures db.outbox <= Apply(db, m).outbox
    ensures forall i :: |db.outbox| <= i < |Apply(db, m).outbox| ==> Apply(db, m).outbox[i].alertId != id
  {
    if !m.Acknowledge? {
      var mutation, event := MutationOf(m), EventOf(m);
      assert Apply(db, m) == Change(db, m.p, event, mutation);
      hide Mutate;
      hide Deliver;
      hide Apply;
      MutateKeepsValid(db, mutation);
      MutateLeavesResolved(db, mutation, id);
      var (d, a) := Mutate(db, mutation);
      if a.Some? {
        DeliverKeepsValid(d, m.p, event, a.value);
        DeliverLeavesOthers(d, m.p, event, a.value, id);
      }
    }
  }

  function MutationOf(m: Move): Mutation
    requires !m.Acknowledge?
  {
    match m
    case Raise(_, k, level, value, threshold) => Create(k, level, value, threshold)
    case Shift(_, a, level, value, threshold) => Relevel(a, level, value, threshold)
    case Settle(_, id, value, threshold) => Close(id, value, threshold)
    case Remind(_, id) => Reread(id)
  }

  function EventOf(m: Move): Event
    requires !m.Acknowledge?
  {
    match m
    case Shift(_, _, _, _, _) => LevelChanged
    case Settle(_, _, _, _) => Resolution
    case _ => Opened
  }

  /** Once resolved, an alert never changes again and nothing more is queued for it, whatever happens later. */
  lemma {:induction false} ResolvedIsFinal(db: Db, moves: seq<Move>, id: int)
    requires Valid(db) && PossibleRun(db, moves) && id in db.alerts && db.alerts[id].status == Resolved
    ensures var after := Run(db, moves);
            && Valid(after) && id in after.alerts && after.alerts[id] == db.alerts[id]
            && db.outbox <= after.outbox
            && forall i :: |db.outbox| <= i < |after.outbox| ==> after.outbox[i].alertId != id
  {
    if moves != [] {
      var init := moves[..|moves| - 1];
      ResolvedIsFinal(db, init, id);
      MoveLeavesResolved(Run(db, init), moves[|moves| - 1], id);
    }
  }

  // ---- when a resolution is told

  /** Resolving queues one row per recipient, unless the host is in maintenance or the alert is still marked. */
  lemma SettleQueues(db: Db, p: Prep, id: int, value: Option<real>, threshold: Option<real>)
    requires Valid(db) && IsActive(db, id)
    ensures var after := Apply(db, Settle(p, id, value, threshold));
            && !IsActive(after, id) && !after.alerts[id].notifyPending
            && after.outbox == db.outbox + (if p.suppressed || db.alerts[id].notifyPending then []
                                            else RowsFor(p.recipients, Resolution, db.alerts[id]))
  {
    var m := Close(id, value, threshold);
    var (d, a) := Mutate(db, m);
    assert RowsFor(p.recipients, Resolution, a.value) == RowsFor(p.recipients, Resolution, db.alerts[id]);
  }

  /** A level change during maintenance silences the resolution even of an alert everyone was told about: if it resolves
      before the deferred notification went out, nothing is queued. */
  lemma LevelChangeSilencesResolution(db: Db, host: Prep, a: Alert, level: Level, p: Prep)
    requires Valid(db) && a.id in db.alerts && db.alerts[a.id] == a && a.status != Resolved && host.suppressed
    ensures var shifted := Apply(db, Shift(host, a, level, None, None));
            Apply(shifted, Settle(p, a.id, None, None)).outbox == db.outbox
  {
    var shifted := Apply(db, Shift(host, a, level, None, None));
    var m := Relevel(a, level, None, None);
    MutateKeepsValid(db, m);
    DeliverKeepsValid(Mutate(db, m).0, host, LevelChanged, Releveled(a, level, None, None, Reopens(a, level)));
    SettleQueues(shifted, p, a.id, None, None);
  }

  /** Resolving tells some recipient of an alert nobody was told of before. */
  ghost predicate TellsUnannounced(db: Db, q: Prep, id: int, value: Option<real>, threshold: Option<real>) {
    var rows := Apply(db, Settle(q, id, value, threshold)).outbox;
    exists i :: |db.outbox| <= i < |rows| && Resolves(rows[i], id) && !Announced(rows[..i], id)
  }

  /** That happens exactly to an alert that is neither marked nor announced, outside maintenance, with someone to
      tell. */
  lemma UnannouncedExactly(db: Db, q: Prep, id: int, value: Option<real>, threshold: Option<real>)
    requires Valid(db) && IsActive(db, id)
    ensures TellsUnannounced(db, q, id, value, threshold)
            <==> && !q.suppressed && q.recipients != []
                 && !db.alerts[id].notifyPending && !Announced(db.outbox, id)
  {
    SettleQueues(db, q, id, value, threshold);
    var rows := Apply(db, Settle(q, id, value, threshold)).outbox;
    if Announced(db.outbox, id) {
      var k :| 0 <= k < |db.outbox| && Announces(db.outbox[k], id);
      forall i | |db.outbox| <= i < |rows| ensures Announced(rows[..i], id) {
        assert Announces(rows[..i][k], id);
      }
    } else if !q.suppressed && q.recipients != [] && !db.alerts[id].notifyPending {
      var n := |db.outbox|;
      assert rows[..n] == db.outbox;
      assert rows[n] == RowsFor(q.recipients, Resolution, db.alerts[id])[0];
      assert Resolves(rows[n], id) && !Announced(rows[..n], id);
    }
  }

  /** The operations that notify of an alert while it is active. */
  predicate Notifies(m: Move) { m.Raise? || m.Shift? || m.Remind? }

  /** Before m its alert has not been announced, and is new or marked. */
  ghost predicate Untold(db: Db, m: Move, id: int)
    requires Notifies(m)
  {
    match m
    case Raise(_, k, _, _, _) => k !in db.active && id == db.nextId
    case Shift(_, a, _, _, _) =>
      id == a.id && IsActive(db, id) && a == db.alerts[id] && a.notifyPending && !Announced(db.outbox, id)
    case Remind(_, i) => id == i && IsActive(db, id) && db.alerts[id].notifyPending && !Announced(db.outbox, id)
  }

  lemma UntoldUnannounced(db: Db, m: Move, id: int)
    requires Valid(db) && Notifies(m) && Untold(db, m, id)
    ensures !Announced(db.outbox, id)
  {
  }

  /** Opening, re-levelling or reminding of such an alert leaves it marked in maintenance, announced if there is
      someone to tell, and otherwise neither. */
  lemma MarkedOrAnnounced(db: Db, m: Move, id: int)
    requires Valid(db) && Notifies(m) && Untold(db, m, id)
    ensures var d := Apply(db, m);
            && Valid(d) && IsActive(d, id)
            && (d.alerts[id].notifyPending <==> m.p.suppressed)
            && (Announced(d.outbox, id) <==> !m.p.suppressed && m.p.recipients != [])
  {
    UntoldUnannounced(db, m, id);
    hide Valid;
    var mutation := MutationOf(m);
    MutateKeepsValid(db, mutation);
    var (mid, a) := Mutate(db, mutation);
    DeliverKeepsValid(mid, m.p, EventOf(m), a.value);
    var d := Apply(db, m);
    var n := |db.outbox|;
    if !m.p.suppressed && m.p.recipients != [] {
      assert d.outbox == db.outbox + RowsFor(m.p.recipients, EventOf(m), a.value);
      assert Announces(d.outbox[n], id);
    } else {
      assert d.outbox == db.outbox;
    }
  }

  /** An alert opened, re-levelled or reminded of for the first time is reported resolved unannounced exactly when
      there was nobody to tell then, outside maintenance, and there is now. */
  lemma ResolvedUnannouncedExactly(db: Db, m: Move, id: int, q: Prep, value: Option<real>, threshold: Option<real>)
    requires Valid(db) && Notifies(m) && Untold(db, m, id)
    ensures TellsUnannounced(Apply(db, m), q, id, value, threshold)
            <==> !m.p.suppressed && m.p.recipients == [] && !q.suppressed && q.recipients != []
  {
    hide Apply;
    MarkedOrAnnounced(db, m, id);
    UnannouncedExactly(Apply(db, m), q, id, value, threshold);
  }

  /** So an alert opened while there was nobody to tell is reported resolved to a recipient added later. */
  lemma ResolvedWithoutAnnouncement(k: Key, r: Recipient)
    ensures var raised := Apply(EmptyDb, Raise(Prep(false, []), k, Warning, None, None));
            && Apply(raised, Settle(Prep(false, [r]), 0, None, None)).outbox == [Row(r, 0, Resolution, Warning)]
            && TellsUnannounced(raised, Prep(false, [r]), 0, None, None)
  {
    var opening := Raise(Prep(false, []), k, Warning, None, None);
    ResolvedUnannouncedExactly(EmptyDb, opening, 0, Prep(false, [r]), None, None);
    MarkedOrAnnounced(EmptyDb, opening, 0);
    SettleQueues(Apply(EmptyDb, opening), Prep(false, [r]), 0, None, None);
  }
}

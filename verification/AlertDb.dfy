/** The alert tables as values: alerts, their unique index of active ones, and the notification outbox. */
module AlertDb {
  import opened Options

  datatype Level = Info | Warning | Critical

  function Rank(l: Level): int {
    match l case Info => 0 case Warning => 1 case Critical => 2
  }

  datatype Status = Open | Acknowledged | Resolved

  datatype Event = Opened | LevelChanged | Resolution

  /** At most one alert of a key is active (not resolved) at a time. */
  datatype Key = Key(host: int, kind: string, subject: string)

  /** notifyPending marks an alert whose notification was deferred by maintenance. */
  datatype Alert = Alert(id: int, key: Key, level: Level, status: Status, ackBy: Option<int>,
                         value: Option<real>, threshold: Option<real>, notifyPending: bool)

  datatype Recipient = Recipient(channel: string, address: string)

  datatype Row = Row(recipient: Recipient, alertId: int, event: Event, level: Level)

  /** waiting holds the instant since which a condition that has not fired yet has lasted. */
  datatype Db = Db(alerts: map<int, Alert>, active: map<Key, int>, waiting: map<Key, int>, outbox: seq<Row>,
                   nextId: int)

  const EmptyDb: Db := Db(map[], map[], map[], [], 0)

  ghost predicate Valid(db: Db) {
    && 0 <= db.nextId
    && (forall id :: id in db.alerts ==> db.alerts[id].id == id && 0 <= id < db.nextId)
    && (forall k :: k in db.active ==> db.active[k] in db.alerts && db.alerts[db.active[k]].key == k
                                       && db.alerts[db.active[k]].status != Resolved)
    && (forall id :: id in db.alerts && db.alerts[id].status != Resolved
                     ==> db.alerts[id].key in db.active && db.active[db.alerts[id].key] == id)
    && (forall i :: 0 <= i < |db.outbox| ==> db.outbox[i].alertId in db.alerts)
  }

  predicate IsActive(db: Db, id: int) { id in db.alerts && db.alerts[id].status != Resolved }

  function AlertAt(db: Db, k: Key): Option<Alert> {
    if k in db.active && db.active[k] in db.alerts then Some(db.alerts[db.active[k]]) else None
  }

  /** What a key is doing: nothing, waiting out a duration, or firing. */
  datatype Phase = Idle | Waiting(since: int) | Firing(level: Level)

  function PhaseAt(db: Db, k: Key): Phase {
    if AlertAt(db, k).Some? then Firing(AlertAt(db, k).value.level)
    else if k in db.waiting then Waiting(db.waiting[k]) else Idle
  }

  const DISK_MISSING: string := "disk_missing"
  const HOST_OFFLINE: string := "host_offline"

  /** Alert types opened without a duration condition. */
  predicate NeverWaits(kind: string) { kind == DISK_MISSING || kind == HOST_OFFLINE }

  /** No key is waiting and firing at once. */
  ghost predicate Exclusive(db: Db) {
    forall k :: k in db.waiting ==> k !in db.active && !NeverWaits(k.kind)
  }

  /** The rows about alerts of the key, in order. */
  ghost function About(rows: seq<Row>, alerts: map<int, Alert>, k: Key): seq<Row> {
    if rows == [] then []
    else
      var last, init := rows[|rows| - 1], About(rows[..|rows| - 1], alerts, k);
      if last.alertId in alerts && alerts[last.alertId].key == k then init + [last] else init
  }

  /** What was ever queued about the key. */
  ghost function Messages(db: Db, k: Key): seq<Row> { About(db.outbox, db.alerts, k) }

  /** Nothing about k differs between the two states, and nothing was queued about it. */
  ghost predicate Same(db: Db, d: Db, k: Key) {
    && (k in db.active <==> k in d.active) && AlertAt(db, k) == AlertAt(d, k)
    && (k in db.waiting <==> k in d.waiting) && (k in db.waiting ==> db.waiting[k] == d.waiting[k])
    && Messages(db, k) == Messages(d, k)
  }

  ghost predicate SameBut(db: Db, d: Db, k: Key) {
    forall o :: o != k ==> Same(db, d, o)
  }

  // ---- what a notification needs, and the changes that cause one

  /** Read before the transaction; suppressed means the host is in maintenance. */
  datatype Prep = Prep(suppressed: bool, recipients: seq<Recipient>)

  datatype Mutation =
    | Create(key: Key, level: Level, value: Option<real>, threshold: Option<real>)
    | Relevel(existing: Alert, to: Level, newValue: Option<real>, newThreshold: Option<real>)
    | Close(id: int, lastValue: Option<real>, lastThreshold: Option<real>)
    | Reread(pendingId: int)

  /** An acknowledged alert whose level rises is opened again. */
  predicate Reopens(a: Alert, l: Level) { a.status.Acknowledged? && Rank(l) > Rank(a.level) }

  function Releveled(a: Alert, l: Level, value: Option<real>, threshold: Option<real>, reopen: bool): Alert {
    var b := a.(level := l, value := value, threshold := threshold);
    if reopen then b.(status := Open, ackBy := None) else b
  }

  function Or(a: Option<real>, b: Option<real>): Option<real> { if a.Some? then a else b }

  function Settled(a: Alert, value: Option<real>, threshold: Option<real>): Alert {
    a.(status := Resolved, value := Or(value, a.value), threshold := Or(threshold, a.threshold))
  }

  /** The table change of a mutation and the alert to notify about, if any. */
  function Mutate(db: Db, m: Mutation): (Db, Option<Alert>) {
    match m
    case Create(k, level, value, threshold) =>
      if k in db.active then (db, None)
      else
        var a := Alert(db.nextId, k, level, Open, None, value, threshold, false);
        (db.(alerts := db.alerts[a.id := a], active := db.active[k := a.id], nextId := db.nextId + 1), Some(a))
    case Relevel(existing, level, value, threshold) =>
      var reopen := Reopens(existing, level);
      var d := if !IsActive(db, existing.id) then db
               else db.(alerts := db.alerts[existing.id :=
                                            Releveled(db.alerts[existing.id], level, value, threshold, reopen)]);
      (d, Some(Releveled(existing, level, value, threshold, reopen)))
    case Close(id, value, threshold) =>
      if !IsActive(db, id) then (db, None)
      else
        var a := Settled(db.alerts[id], value, threshold);
        (db.(alerts := db.alerts[id := a], active := db.active - {a.key}), Some(a))
    case Reread(id) =>
      (db, if IsActive(db, id) && db.alerts[id].notifyPending then Some(db.alerts[id]) else None)
  }

  function SetMark(db: Db, id: int, pending: bool): Db {
    if id in db.alerts then db.(alerts := db.alerts[id := db.alerts[id].(notifyPending := pending)]) else db
  }

  function RowsFor(recipients: seq<Recipient>, event: Event, a: Alert): (rows: seq<Row>)
    ensures |rows| == |recipients|
    ensures forall i :: 0 <= i < |rows| ==> rows[i] == Row(recipients[i], a.id, event, a.level)
  {
    seq(|recipients|, i requires 0 <= i < |recipients| => Row(recipients[i], a.id, event, a.level))
  }

  /** The tables with the rows of a notification queued. */
  function Queued(db: Db, p: Prep, event: Event, a: Alert): Db {
    db.(outbox := db.outbox + RowsFor(p.recipients, event, a))
  }

  /** One outbox row per recipient, and the mark cleared. */
  function Sent(db: Db, p: Prep, event: Event, a: Alert): Db { SetMark(Queued(db, p, event, a), a.id, false) }

  /** What a change of a leads to when every write succeeds. */
  function Deliver(db: Db, p: Prep, event: Event, a: Alert): Db {
    if p.suppressed then SetMark(db, a.id, event != Resolution)
    else if event == Resolution && a.notifyPending then SetMark(db, a.id, false)
    else if p.recipients == [] then if a.notifyPending then SetMark(db, a.id, false) else db
    else Sent(db, p, event, a)
  }

  function Change(db: Db, p: Prep, event: Event, m: Mutation): Db {
    var (d, a) := Mutate(db, m);
    if a.None? then d else Deliver(d, p, event, a.value)
  }

  /** Everything a change may leave behind when writes can fail, short of an error: the table change is kept; the
      notification is either sent whole, with the mark cleared, or not at all. */
  ghost predicate ChangeOutcome(before: Db, p: Prep, event: Event, m: Mutation, after: Db) {
    var (d, a) := Mutate(before, m);
    || after == d
    || (a.Some? && after == Deliver(d, p, event, a.value))
  }

  // ---- what is queued about a key

  ghost predicate SameKeys(rows: seq<Row>, alerts: map<int, Alert>, alerts': map<int, Alert>) {
    forall r :: r in rows ==>
      r.alertId in alerts && r.alertId in alerts' && alerts'[r.alertId].key == alerts[r.alertId].key
  }

  lemma {:induction false} AboutSameKeys(rows: seq<Row>, alerts: map<int, Alert>, alerts': map<int, Alert>, k: Key)
    requires SameKeys(rows, alerts, alerts')
    ensures About(rows, alerts', k) == About(rows, alerts, k)
  {
    if rows != [] {
      var n := |rows| - 1;
      assert rows[n] in rows && forall r :: r in rows[..n] ==> r in rows;
      AboutSameKeys(rows[..n], alerts, alerts', k);
    }
  }

  lemma {:induction false} AboutMore(rows: seq<Row>, more: seq<Row>, alerts: map<int, Alert>, id: int, k: Key)
    requires id in alerts && forall r :: r in more ==> r.alertId == id
    ensures About(rows + more, alerts, k) == About(rows, alerts, k) + if alerts[id].key == k then more else []
  {
    var n := |more| - 1;
    if more == [] {
      assert rows + more == rows;
    } else {
      assert (rows + more)[..|rows| + n] == rows + more[..n];
      assert more[n] in more && forall r :: r in more[..n] ==> r in more;
      AboutMore(rows, more[..n], alerts, id, k);
    }
  }

  lemma RowsAreOfAlerts(db: Db)
    requires Valid(db)
    ensures forall r :: r in db.outbox ==> r.alertId in db.alerts
  {
  }

  /** A table change queues nothing. */
  lemma MutateQueuesNothing(db: Db, m: Mutation, k: Key)
    requires Valid(db)
    ensures Messages(Mutate(db, m).0, k) == Messages(db, k)
  {
    RowsAreOfAlerts(db);
    AboutSameKeys(db.outbox, db.alerts, Mutate(db, m).0.alerts, k);
  }

  /** What a delivery queues about a key. */
  lemma DeliverQueues(db: Db, p: Prep, event: Event, a: Alert, k: Key)
    requires Valid(db) && a.id in db.alerts
    ensures Messages(Deliver(db, p, event, a), k)
            == Messages(db, k)
               + if p.suppressed || (event == Resolution && a.notifyPending) || db.alerts[a.id].key != k then []
                 else RowsFor(p.recipients, event, a)
  {
    RowsAreOfAlerts(db);
    var d := Deliver(db, p, event, a);
    AboutSameKeys(db.outbox, db.alerts, d.alerts, k);
    AboutMore(db.outbox, RowsFor(p.recipients, event, a), d.alerts, a.id, k);
    assert p.recipients == [] ==> RowsFor(p.recipients, event, a) == [];
  }

  // ---- frames

  lemma MutateKeepsValid(db: Db, m: Mutation)
    requires Valid(db)
    ensures Valid(Mutate(db, m).0)
    ensures m.Create? && m.key !in db.active ==> Mutate(db, m).1.value.id !in db.alerts
  {
  }

  lemma MarkKeepsValid(db: Db, id: int, pending: bool)
    requires Valid(db)
    ensures Valid(SetMark(db, id, pending))
  {
  }

  lemma DeliverKeepsValid(db: Db, p: Prep, event: Event, a: Alert)
    requires Valid(db) && a.id in db.alerts
    ensures Valid(Deliver(db, p, event, a))
  {
    assert Valid(Queued(db, p, event, a));
    hide Valid;
    hide SetMark;
    MarkKeepsValid(db, a.id, true);
    MarkKeepsValid(db, a.id, false);
    MarkKeepsValid(Queued(db, p, event, a), a.id, false);
  }

  /** Marks and rows change nothing else about any alert. */
  ghost predicate SameAlerts(db: Db, d: Db) {
    && d.active == db.active && d.waiting == db.waiting && d.alerts.Keys == db.alerts.Keys
    && forall id :: id in db.alerts ==> d.alerts[id].(notifyPending := false) == db.alerts[id].(notifyPending := false)
  }

  lemma MarkSameAlerts(db: Db, id: int, pending: bool)
    ensures var d := SetMark(db, id, pending);
            SameAlerts(db, d) && forall i :: i in db.alerts && i != id ==> d.alerts[i] == db.alerts[i]
  {
  }

  lemma DeliverSameAlerts(db: Db, p: Prep, event: Event, a: Alert)
    ensures SameAlerts(db, Deliver(db, p, event, a))
    ensures forall id :: id in db.alerts && id != a.id ==> Deliver(db, p, event, a).alerts[id] == db.alerts[id]
  {
    hide SetMark;
    MarkSameAlerts(db, a.id, true);
    MarkSameAlerts(db, a.id, false);
    MarkSameAlerts(Queued(db, p, event, a), a.id, false);
  }

  /** The key whose alert a mutation changes. */
  predicate Touches(db: Db, m: Mutation, k: Key) {
    match m
    case Create(key, _, _, _) => key == k
    case Relevel(a, _, _, _) => IsActive(db, a.id) && db.alerts[a.id].key == a.key == k
    case Close(id, _, _) => id in db.alerts && db.alerts[id].key == k
    case Reread(id) => id in db.alerts && db.alerts[id].key == k
  }

  lemma MutateFrame(db: Db, m: Mutation, k: Key)
    requires Valid(db) && Touches(db, m, k)
    ensures SameBut(db, Mutate(db, m).0, k) && Mutate(db, m).0.waiting == db.waiting
    ensures Mutate(db, m).1.Some? ==>
              Mutate(db, m).1.value.key == k && Mutate(db, m).1.value.id in Mutate(db, m).0.alerts
  {
    forall o ensures Messages(Mutate(db, m).0, o) == Messages(db, o) {
      MutateQueuesNothing(db, m, o);
    }
    hide Messages;
  }

  lemma DeliverFrame(db: Db, p: Prep, event: Event, a: Alert)
    requires Valid(db) && a.id in db.alerts && db.alerts[a.id].key == a.key
    ensures SameBut(db, Deliver(db, p, event, a), a.key) && Deliver(db, p, event, a).waiting == db.waiting
  {
    DeliverSameAlerts(db, p, event, a);
    forall o | o != a.key ensures Messages(Deliver(db, p, event, a), o) == Messages(db, o) {
      DeliverQueues(db, p, event, a, o);
    }
    hide Messages;
    hide Deliver;
  }

  lemma MutatedKey(db: Db, m: Mutation, k: Key)
    requires Valid(db) && Touches(db, m, k) && Mutate(db, m).1.Some?
    ensures Mutate(db, m).0.alerts[Mutate(db, m).1.value.id].key == k
  {
    MutateFrame(db, m, k);
  }

  /** A change touches the key of the alert it changes and no other. */
  lemma ChangeFrame(db: Db, p: Prep, event: Event, m: Mutation, after: Db, k: Key)
    requires Valid(db) && ChangeOutcome(db, p, event, m, after) && Touches(db, m, k)
    ensures Valid(after) && SameBut(db, after, k) && after.waiting == db.waiting
  {
    hide Mutate;
    hide Deliver;
    MutateKeepsValid(db, m);
    MutateFrame(db, m, k);
    var (d, a) := Mutate(db, m);
    if a.Some? {
      MutatedKey(db, m, k);
      DeliverKeepsValid(d, p, event, a.value);
      DeliverFrame(d, p, event, a.value);
      var e := Deliver(d, p, event, a.value);
      forall o | o != k ensures Same(db, e, o) {
        assert Same(db, d, o) && Same(d, e, o);
      }
    }
  }

  /** A change that gets through stands whatever becomes of its notification, up to the mark; the outbox gains one row
      per recipient, and then the mark is cleared, or nothing. */
  lemma AllOrNothing(before: Db, p: Prep, event: Event, m: Mutation, after: Db)
    requires Valid(before) && ChangeOutcome(before, p, event, m, after)
    ensures SameAlerts(Mutate(before, m).0, after)
    ensures var a := Mutate(before, m).1;
            || after.outbox == before.outbox
            || (a.Some? && !p.suppressed && p.recipients != []
                && after.outbox == before.outbox + RowsFor(p.recipients, event, a.value)
                && (a.value.id in after.alerts ==> !after.alerts[a.value.id].notifyPending))
  {
    var (d, a) := Mutate(before, m);
    assert d.outbox == before.outbox;
    if a.Some? {
      DeliverSameAlerts(d, p, event, a.value);
    }
  }

  // ---- what a change does to its key when every write succeeds

  lemma OpeningExact(db: Db, p: Prep, k: Key, level: Level, value: Option<real>, threshold: Option<real>)
    requires Valid(db) && k !in db.active
    ensures var d := Change(db, p, Opened, Create(k, level, value, threshold));
            var a := Alert(db.nextId, k, level, Open, None, value, threshold, p.suppressed);
            && AlertAt(d, k) == Some(a)
            && Messages(d, k) == Messages(db, k) + if p.suppressed then [] else RowsFor(p.recipients, Opened, a)
  {
    var m := Create(k, level, value, threshold);
    var (d, a) := Mutate(db, m);
    MutateKeepsValid(db, m);
    MutateQueuesNothing(db, m, k);
    DeliverQueues(d, p, Opened, a.value, k);
    SameRows(p.recipients, Opened, a.value, a.value.(notifyPending := p.suppressed));
    hide Messages;
    hide RowsFor;
  }

  /** A row shows the id and the level of its alert. */
  lemma SameRows(recipients: seq<Recipient>, event: Event, a: Alert, b: Alert)
    requires a.id == b.id && a.level == b.level
    ensures RowsFor(recipients, event, a) == RowsFor(recipients, event, b)
  {
  }

  lemma RelevelQueues(db: Db, p: Prep, a: Alert, level: Level, value: Option<real>, threshold: Option<real>)
    requires Valid(db) && IsActive(db, a.id) && db.alerts[a.id].key == a.key
    ensures var d := Change(db, p, LevelChanged, Relevel(a, level, value, threshold));
            var b := Releveled(a, level, value, threshold, Reopens(a, level));
            Messages(d, a.key)
            == Messages(db, a.key) + if p.suppressed then [] else RowsFor(p.recipients, LevelChanged, b)
  {
    hide Messages;
    hide RowsFor;
    hide Deliver;
    hide Reopens;
    var m := Relevel(a, level, value, threshold);
    var (d, b) := Mutate(db, m);
    MutateKeepsValid(db, m);
    MutateQueuesNothing(db, m, a.key);
    DeliverQueues(d, p, LevelChanged, b.value, a.key);
  }

  lemma RelevelExact(db: Db, p: Prep, a: Alert, level: Level, value: Option<real>, threshold: Option<real>)
    requires Valid(db) && IsActive(db, a.id) && db.alerts[a.id].(notifyPending := a.notifyPending) == a
    ensures var d := Change(db, p, LevelChanged, Relevel(a, level, value, threshold));
            var b := Releveled(a, level, value, threshold, Reopens(a, level));
            && AlertAt(d, a.key).Some?
            && AlertAt(d, a.key).value ==
               b.(notifyPending := p.suppressed || (p.recipients == [] && !a.notifyPending
                                                    && db.alerts[a.id].notifyPending))
            && Messages(d, a.key)
               == Messages(db, a.key) + if p.suppressed then [] else RowsFor(p.recipients, LevelChanged, b)
  {
    RelevelQueues(db, p, a, level, value, threshold);
    assert a.key in db.active && db.active[a.key] == a.id && db.alerts[a.id].key == a.key;
    hide Valid;
    hide Messages;
    hide RowsFor;
    hide Reopens;
  }

  lemma ClosingExact(db: Db, p: Prep, id: int, value: Option<real>, threshold: Option<real>)
    requires Valid(db) && IsActive(db, id)
    ensures var d := Change(db, p, Resolution, Close(id, value, threshold));
            var a := db.alerts[id];
            && AlertAt(d, a.key) == None && id in d.alerts
            && d.alerts[id] == a.(status := Resolved, notifyPending := false,
                                  value := if value.Some? then value else a.value,
                                  threshold := if threshold.Some? then threshold else a.threshold)
            && Messages(d, a.key)
               == Messages(db, a.key)
                  + if p.suppressed || a.notifyPending then [] else RowsFor(p.recipients, Resolution, a)
  {
    var m := Close(id, value, threshold);
    var (d, a) := Mutate(db, m);
    MutateKeepsValid(db, m);
    MutateQueuesNothing(db, m, a.value.key);
    DeliverQueues(d, p, Resolution, a.value, a.value.key);
    SameRows(p.recipients, Resolution, a.value, db.alerts[id]);
    hide Messages;
    hide RowsFor;
  }
}

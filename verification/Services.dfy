/** The service list an agent sends in full now and then and by differences in between, and what the server makes of
    it. */
module Services {
  import opened Options

  /** Restarts are not known on every machine. */
  datatype State = State(name: string, active: string, sub: string, restarts: Option<int>)

  datatype Report = Report(items: seq<State>, full: bool)

  const FULL_EVERY: int := 5 * 60 * 1_000_000_000

  predicate Troubled(s: State) {
    s.active in {"failed", "activating", "deactivating", "reloading"} || s.sub == "auto-restart"
  }

  predicate Changed(a: State, b: State) {
    a.active != b.active || a.sub != b.sub || a.restarts != b.restarts
  }

  /** A machine lists a service once. */
  ghost predicate Unique(current: seq<State>) {
    forall i, j :: 0 <= i < j < |current| ==> current[i].name != current[j].name
  }

  function ByName(current: seq<State>): (m: map<string, State>)
    ensures forall n :: n in m ==> m[n] in current && m[n].name == n
    ensures forall s :: s in current ==> s.name in m
  {
    if current == [] then map[]
    else
      var last := current[|current| - 1];
      ByName(current[..|current| - 1])[last.name := last]
  }

  lemma ByNameUnique(current: seq<State>, s: State)
    requires Unique(current) && s in current
    ensures ByName(current)[s.name] == s
  {
    hide ByName;
    var r := ByName(current)[s.name];
    var i :| 0 <= i < |current| && current[i] == s;
    var j :| 0 <= j < |current| && current[j] == r;
  }

  // ---- the sender

  /** The services last looked at, none before the first report, and when a full list was last sent. */
  datatype Sender = Sender(last: Option<map<string, State>>, lastFull: int)

  predicate FullIsDue(r: Sender, now: int) { r.last.None? || now - r.lastFull >= FULL_EVERY }

  predicate Sends(r: Sender, s: State, full: bool) {
    full || Troubled(s) || r.last.None? || s.name !in r.last.value || Changed(r.last.value[s.name], s)
  }

  function Items(r: Sender, current: seq<State>, full: bool): (items: seq<State>)
    ensures forall s :: s in items <==> s in current && Sends(r, s, full)
  {
    if current == [] then []
    else
      var last, init := current[|current| - 1], Items(r, current[..|current| - 1], full);
      if Sends(r, last, full) then init + [last] else init
  }

  lemma {:induction false} ItemsUnique(r: Sender, current: seq<State>, full: bool)
    requires Unique(current)
    ensures Unique(Items(r, current, full)) && (full ==> Items(r, current, full) == current)
  {
    if current != [] {
      var init := current[..|current| - 1];
      ItemsUnique(r, init, full);
      forall s | s in Items(r, init, full) ensures s.name != current[|current| - 1].name {
        var i :| 0 <= i < |init| && init[i] == s;
      }
    }
  }

  function NextReport(r: Sender, current: seq<State>, now: int): Report {
    Report(Items(r, current, FullIsDue(r, now)), FullIsDue(r, now))
  }

  function AfterReport(r: Sender, current: seq<State>, now: int): Sender {
    Sender(Some(ByName(current)), if FullIsDue(r, now) then now else r.lastFull)
  }

  /** Every service at first and when five minutes have passed since the last full list; otherwise those that are
      troubled, new or not as they were. */
  ghost predicate TellsWhatChanged(r: Sender, current: seq<State>, now: int, report: Report) {
    && report.full == (r.last.None? || now - r.lastFull >= 300_000_000_000)
    && (forall s :: s in report.items <==>
          s in current
          && (report.full || s.name !in r.last.value
              || s.active in {"failed", "activating", "deactivating", "reloading"} || s.sub == "auto-restart"
              || r.last.value[s.name].(name := s.name) != s))
  }

  lemma ReportInWords(r: Sender, current: seq<State>, now: int)
    ensures TellsWhatChanged(r, current, now, NextReport(r, current, now))
  {
  }

  class ServiceReporter {
    var last: Option<map<string, State>>
    var lastFull: int

    constructor ()
      ensures last.None?
    {
      last, lastFull := None, 0;
    }

    function Sent(): Sender
      reads this
    {
      Sender(last, lastFull)
    }

    /** The service part of this report; nothing when the services are not known. */
    method Next(current: Option<seq<State>>, now: int) returns (r: Option<Report>)
      modifies this
      ensures current.None? ==> r.None? && Sent() == old(Sent())
      ensures current.Some? ==>
                r == Some(NextReport(old(Sent()), current.value, now))
                    && Sent() == AfterReport(old(Sent()), current.value, now)
      ensures current.Some? ==> TellsWhatChanged(old(Sent()), current.value, now, r.value)
    {
      hide Items;
      hide ByName;
      hide TellsWhatChanged;
      hide Changed;
      hide Troubled;
      ghost var was := Sent();
      if current.None? {
        return None;
      }
      var services := current.value;
      ReportInWords(was, services, now);
      NothingSeen(was, services);
      var full := last.None? || now - lastFull >= FULL_EVERY;
      var items: seq<State> := [];
      for i := 0 to |services|
        invariant Sent() == was && items == Items(was, services[..i], full)
      {
        OneMoreService(was, services, i, full);
        var s := services[i];
        if full || Troubled(s) || s.name !in last.value || Changed(last.value[s.name], s) {
          items := items + [s];
        }
      }
      var seen: map<string, State> := map[];
      for i := 0 to |services|
        invariant Sent() == was && seen == ByName(services[..i])
      {
        OneMoreService(was, services, i, full);
        seen := seen[services[i].name := services[i]];
      }
      last := Some(seen);
      if full {
        lastFull := now;
      }
      return Some(Report(items, full));
    }
  }

  lemma OneMoreService(r: Sender, services: seq<State>, i: nat, full: bool)
    requires i < |services|
    ensures var s := services[i];
            && ByName(services[..i + 1]) == ByName(services[..i])[s.name := s]
            && Items(r, services[..i + 1], full)
               == Items(r, services[..i], full) + if Sends(r, s, full) then [s] else []
  {
    assert services[..i + 1][..i] == services[..i];
  }

  lemma NothingSeen(r: Sender, services: seq<State>)
    ensures services[..|services|] == services && ByName(services[..0]) == map[]
    ensures forall full :: Items(r, services[..0], full) == []
  {
  }

  // ---- the receiver

  /** A receiver that takes what it is told: a full report replaces its list, another adds to it. */
  function Taken(stored: map<string, State>, r: Report): map<string, State> {
    if r.full then ByName(r.items) else stored + ByName(r.items)
  }

  function OrElse(a: Option<int>, b: Option<int>): Option<int> { if a.Some? then a else b }

  /** The row the server keeps for a service: a restart count, once known, is only replaced by another. */
  function Merged(stored: map<string, State>, s: State): State {
    if s.name in stored then s.(restarts := OrElse(s.restarts, stored[s.name].restarts)) else s
  }

  /** What the server stores: services told are merged, and a full report removes those it does not list. */
  function Saved(stored: map<string, State>, r: Report): map<string, State> {
    var told := ByName(r.items);
    var merged := map n | n in stored.Keys + told.Keys :: if n in told then Merged(stored, told[n]) else stored[n];
    if r.full then map n | n in told.Keys :: merged[n] else merged
  }

  function Take(server: bool, stored: map<string, State>, r: Report): map<string, State> {
    if server then Saved(stored, r) else Taken(stored, r)
  }

  // ---- runs, in which reports can be lost

  /** The services at an instant, none if not known, and whether the report arrived. */
  datatype Round = Round(current: Option<seq<State>>, now: int, arrived: bool)

  ghost predicate AllUnique(rounds: seq<Round>) {
    forall i :: 0 <= i < |rounds| && rounds[i].current.Some? ==> Unique(rounds[i].current.value)
  }

  function SenderAfter(rounds: seq<Round>): Sender {
    if rounds == [] then Sender(None, 0)
    else
      var last, before := rounds[|rounds| - 1], SenderAfter(rounds[..|rounds| - 1]);
      if last.current.None? then before else AfterReport(before, last.current.value, last.now)
  }

  /** The list of a receiver that started with any list: the server, or one that takes what it is told. */
  function StoredAfter(rounds: seq<Round>, first: map<string, State>, server: bool): map<string, State> {
    if rounds == [] then first
    else
      var init := rounds[..|rounds| - 1];
      var last, stored := rounds[|rounds| - 1], StoredAfter(init, first, server);
      if last.current.None? || !last.arrived then stored
      else Take(server, stored, NextReport(SenderAfter(init), last.current.value, last.now))
  }

  /** The services last known. */
  function LastKnown(rounds: seq<Round>): seq<State> {
    if rounds == [] then []
    else if rounds[|rounds| - 1].current.Some? then rounds[|rounds| - 1].current.value
    else LastKnown(rounds[..|rounds| - 1])
  }

  /** Every report since the last full one to arrive, itself included, arrived. */
  predicate InSync(rounds: seq<Round>) {
    rounds != [] &&
    var init, last := rounds[..|rounds| - 1], rounds[|rounds| - 1];
    if last.current.None? then InSync(init)
    else last.arrived && (FullIsDue(SenderAfter(init), last.now) || InSync(init))
  }

  lemma {:induction false} SenderKnows(rounds: seq<Round>)
    ensures SenderAfter(rounds).last.Some? ==> SenderAfter(rounds).last.value == ByName(LastKnown(rounds))
    ensures SenderAfter(rounds).last.None? ==> LastKnown(rounds) == []
  {
    if rounds != [] {
      SenderKnows(rounds[..|rounds| - 1]);
    }
  }

  lemma {:induction false} LastKnownUnique(rounds: seq<Round>)
    requires AllUnique(rounds)
    ensures Unique(LastKnown(rounds))
  {
    if rounds != [] && rounds[|rounds| - 1].current.None? {
      LastKnownUnique(rounds[..|rounds| - 1]);
    }
  }

  /** The same states; the same restarts too, on the server only where the agent knows them. */
  predicate Fits(kept: State, s: State, server: bool) {
    kept.active == s.active && kept.sub == s.sub && (kept.restarts == s.restarts || (server && s.restarts.None?))
  }

  /** The receiver has every current service as it is. */
  ghost predicate Agrees(stored: map<string, State>, current: seq<State>, server: bool) {
    forall s :: s in current ==> s.name in stored && Fits(stored[s.name], s, server)
  }

  lemma OneReport(r: Sender, previous: seq<State>, stored: map<string, State>, current: seq<State>, now: int,
                  server: bool)
    requires Unique(previous) && Unique(current)
    requires r.last.Some? ==> r.last.value == ByName(previous)
    requires FullIsDue(r, now) || Agrees(stored, previous, server)
    ensures Agrees(Take(server, stored, NextReport(r, current, now)), current, server)
  {
    hide Changed;
    hide Troubled;
    hide Fits;
    hide Take;
    var report := NextReport(r, current, now);
    var after := Take(server, stored, report);
    ItemsUnique(r, current, report.full);
    forall s | s in current ensures s.name in after && Fits(after[s.name], s, server) {
      if s in report.items {
        ToldIsTaken(stored, report, s, server);
      } else {
        NotSent(r, previous, stored, current, s, report, server);
      }
    }
  }

  lemma ToldIsTaken(stored: map<string, State>, r: Report, s: State, server: bool)
    requires Unique(r.items) && s in r.items
    ensures s.name in Take(server, stored, r) && Fits(Take(server, stored, r)[s.name], s, server)
  {
    ByNameUnique(r.items, s);
  }

  /** A service left out of a report is as it was, and the receiver keeps it. */
  lemma NotSent(r: Sender, previous: seq<State>, stored: map<string, State>, current: seq<State>, s: State,
                report: Report, server: bool)
    requires Unique(previous) && Unique(current) && s in current && s !in report.items
    requires forall t :: t in report.items <==> t in current && Sends(r, t, report.full)
    requires r.last.Some? ==> r.last.value == ByName(previous)
    requires report.full || Agrees(stored, previous, server)
    ensures s.name in Take(server, stored, report) && Fits(Take(server, stored, report)[s.name], s, server)
  {
    var p := r.last.value[s.name];
    assert p in previous && p.name == s.name && !Changed(p, s);
    assert Fits(stored[p.name], p, server);
    if s.name in ByName(report.items) {
      SameService(current, s, ByName(report.items)[s.name]);
      assert false;
    }
  }

  lemma SameService(current: seq<State>, s: State, t: State)
    requires Unique(current) && s in current && t in current && s.name == t.name
    ensures s == t
  {
    ByNameUnique(current, s);
    ByNameUnique(current, t);
  }

  /** As long as no report was lost since a full one arrived, the receiver agrees with the agent; so it always does
      when all arrive, and after any losses it does again with the next full list to arrive. */
  lemma {:induction false} ReceiverAgrees(rounds: seq<Round>, first: map<string, State>, server: bool)
    requires AllUnique(rounds) && InSync(rounds)
    ensures Agrees(StoredAfter(rounds, first, server), LastKnown(rounds), server)
  {
    var init, last := rounds[..|rounds| - 1], rounds[|rounds| - 1];
    if last.current.None? || !FullIsDue(SenderAfter(init), last.now) {
      ReceiverAgrees(init, first, server);
    }
    if last.current.Some? {
      SenderKnows(init);
      LastKnownUnique(init);
      OneReport(SenderAfter(init), LastKnown(init), StoredAfter(init, first, server), last.current.value, last.now,
                server);
    }
  }

  /** Whatever was lost before, a report that arrives brings every troubled service up to date. */
  lemma TroubledArrive(r: Sender, stored: map<string, State>, current: seq<State>, now: int, s: State, server: bool)
    requires Unique(current) && s in current
    requires s.active in {"failed", "activating", "deactivating", "reloading"} || s.sub == "auto-restart"
    ensures var after := Take(server, stored, NextReport(r, current, now));
            s.name in after && Fits(after[s.name], s, server)
  {
    ItemsUnique(r, current, FullIsDue(r, now));
    ToldIsTaken(stored, NextReport(r, current, now), s, server);
  }

  /** The server shows the restarts it is told exactly when they are known, or none were known before. */
  lemma RestartsExact(stored: map<string, State>, r: Report, s: State)
    requires Unique(r.items) && s in r.items
    ensures s.name in Saved(stored, r)
    ensures Saved(stored, r)[s.name].restarts == s.restarts
            <==> s.restarts.Some? || s.name !in stored || stored[s.name].restarts.None?
  {
    ByNameUnique(r.items, s);
  }

  /** So even a full list does not tell the server that a restart count is no longer known. */
  lemma CountOutlivesFullList(stored: map<string, State>, s: State)
    requires s.name in stored && stored[s.name].restarts.Some? && s.restarts.None?
    ensures var after := Saved(stored, Report([s], true));
            after.Keys == {s.name} && after[s.name].restarts == stored[s.name].restarts != s.restarts
  {
    assert ByName([s]) == map[s.name := s] by {
      assert [s][..0] == [];
    }
  }

  /** After a full report the server lists exactly the current services. */
  lemma FullListExact(r: Sender, stored: map<string, State>, current: seq<State>, now: int, server: bool)
    requires Unique(current) && FullIsDue(r, now)
    ensures Take(server, stored, NextReport(r, current, now)).Keys == set s | s in current :: s.name
  {
    ItemsUnique(r, current, true);
    var told := ByName(current);
    forall n ensures n in told <==> exists s :: s in current && s.name == n {
      if n in told {
        assert told[n] in current;
      }
    }
  }

  /** While services are known a full list goes out at least every five minutes. */
  lemma {:induction false} FullRecently(rounds: seq<Round>) returns (i: nat)
    requires rounds != [] && rounds[|rounds| - 1].current.Some?
    ensures i < |rounds| && rounds[i].current.Some?
    ensures NextReport(SenderAfter(rounds[..i]), rounds[i].current.value, rounds[i].now).full
    ensures rounds[|rounds| - 1].now - rounds[i].now < 300_000_000_000
  {
    i := LastFullSent(rounds);
  }

  lemma {:induction false} LastFullSent(rounds: seq<Round>) returns (i: nat)
    requires SenderAfter(rounds).last.Some?
    ensures i < |rounds| && rounds[i].current.Some? && rounds[i].now == SenderAfter(rounds).lastFull
    ensures NextReport(SenderAfter(rounds[..i]), rounds[i].current.value, rounds[i].now).full
  {
    var n := |rounds| - 1;
    var init := rounds[..n];
    if rounds[n].current.Some? && FullIsDue(SenderAfter(init), rounds[n].now) {
      i := n;
    } else {
      i := LastFullSent(init);
      assert init[..i] == rounds[..i];
    }
  }

  /** When every report arrives the receiver is always in step, from the first report on. */
  lemma {:induction false} NothingLost(rounds: seq<Round>)
    requires forall i :: 0 <= i < |rounds| ==> rounds[i].arrived
    ensures InSync(rounds) <==> exists i :: 0 <= i < |rounds| && rounds[i].current.Some?
    ensures SenderAfter(rounds).last.Some? <==> exists i :: 0 <= i < |rounds| && rounds[i].current.Some?
  {
    if rounds != [] {
      var init := rounds[..|rounds| - 1];
      NothingLost(init);
      assert forall i :: 0 <= i < |init| ==> rounds[i] == init[i];
    }
  }
}

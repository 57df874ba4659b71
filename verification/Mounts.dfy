/** Alerts about the mounts of a host: usage, disappearance, and file systems that turn read-only. */
module Mounts {
  import opened AlertDb
  import opened Conditions
  import opened Engine
  import opened Lifecycle
  import opened Options
  import opened Status

  datatype Disk = Disk(mount: string, usedPct: real, readOnly: Option<bool>)

  predicate Listed(disks: seq<Disk>, m: string) {
    exists d <- disks :: d.mount == m
  }

  /** A mount listed twice counts as it is listed last. */
  function LastOf(disks: seq<Disk>, m: string): (d: Disk)
    requires Listed(disks, m)
    ensures d in disks && d.mount == m
  {
    var last := disks[|disks| - 1];
    if last.mount == m then last else LastOf(disks[..|disks| - 1], m)
  }

  ghost predicate LastListed(disks: seq<Disk>, m: string, i: int) {
    0 <= i < |disks| && disks[i].mount == m && forall j :: i < j < |disks| ==> disks[j].mount != m
  }

  lemma {:induction false} LastIndex(disks: seq<Disk>, m: string) returns (i: int)
    requires Listed(disks, m)
    ensures LastListed(disks, m, i) && disks[i] == LastOf(disks, m)
  {
    var n := |disks| - 1;
    if disks[n].mount == m {
      i := n;
    } else {
      assert disks == disks[..n] + [disks[n]];
      i := LastIndex(disks[..n], m);
    }
  }

  // ---- usage

  /** The mounts whose usage is judged. */
  predicate Judged(disks: seq<Disk>, allMounts: bool, selection: seq<string>, thresholds: SubjectThresholds,
                   m: string) {
    Listed(disks, m) && (allMounts || m in selection) && thresholds.For(m).Some?
  }

  function UsageLevel(disks: seq<Disk>, allMounts: bool, selection: seq<string>, thresholds: SubjectThresholds,
                      m: string): Option<Level> {
    if Judged(disks, allMounts, selection, thresholds, m)
        then LevelFor(LastOf(disks, m).usedPct, thresholds.For(m).value) else None
  }

  function FiringLevel(db: Db, k: Key): Option<Level> {
    if AlertAt(db, k).Some? then Some(AlertAt(db, k).value.level) else None
  }

  /** Disk thresholds take no duration. */
  ghost predicate Instant(thresholds: SubjectThresholds) {
    forall m :: thresholds.For(m).Some? ==> thresholds.For(m).value.seconds.None?
  }

  /** Judged mounts are at the level of their last reading. */
  ghost predicate UsageSettled(d: Db, host: int, disks: seq<Disk>, allMounts: bool, selection: seq<string>,
                               thresholds: SubjectThresholds) {
    forall m :: Judged(disks, allMounts, selection, thresholds, m) ==>
      FiringLevel(d, Key(host, DISK, m)) == UsageLevel(disks, allMounts, selection, thresholds, m)
  }

  lemma UsageStep(db: Db, d: Db, host: int, disks: seq<Disk>, disk: Disk, allMounts: bool, selection: seq<string>,
                  thresholds: SubjectThresholds, now: int)
    requires UsageSettled(db, host, disks, allMounts, selection, thresholds)
             && SameBut(db, d, Key(host, DISK, disk.mount))
    requires Judged(disks + [disk], allMounts, selection, thresholds, disk.mount) && Instant(thresholds)
    requires var k := Key(host, DISK, disk.mount);
             PhaseAt(d, k) == ThresholdStep(PhaseAt(db, k), now, disk.usedPct, thresholds.For(disk.mount).value)
    ensures UsageSettled(d, host, disks + [disk], allMounts, selection, thresholds)
  {
    var all := disks + [disk];
    assert all[..|disks|] == disks;
    forall m | Judged(all, allMounts, selection, thresholds, m)
      ensures FiringLevel(d, Key(host, DISK, m)) == UsageLevel(all, allMounts, selection, thresholds, m) {
      if m != disk.mount {
        assert Same(db, d, Key(host, DISK, m));
        assert Listed(disks, m);
      }
    }
  }

  ghost predicate ListedOnce(disks: seq<Disk>, m: string) {
    forall i, j :: 0 <= i < j < |disks| ==> !(disks[i].mount == m && disks[j].mount == m)
  }

  /** Mounts that were judged have been told of, if they are listed once; nothing changed about the others. */
  ghost predicate UsageTold(env: Env, db: Db, d: Db, host: int, disks: seq<Disk>, judged: set<string>) {
    forall m: string :: var k := Key(host, DISK, m);
      (m !in judged ==> Same(db, d, k)) && (ListedOnce(disks, m) ==> Told(env, db, d, k))
  }

  lemma OnceBefore(disks: seq<Disk>, disk: Disk, m: string)
    requires ListedOnce(disks + [disk], m)
    ensures ListedOnce(disks, m) && (disk.mount == m ==> !Listed(disks, m))
  {
    var all := disks + [disk];
    assert forall i :: 0 <= i < |disks| ==> all[i] == disks[i];
    assert all[|disks|] == disk;
  }

  lemma UsageToldStep(env: Env, db: Db, d: Db, e: Db, host: int, disks: seq<Disk>, disk: Disk, judged: set<string>)
    requires UsageTold(env, db, d, host, disks, judged) && forall m :: m in judged ==> Listed(disks, m)
    requires var k := Key(host, DISK, disk.mount); SameBut(d, e, k) && Told(env, d, e, k)
    ensures UsageTold(env, db, e, host, disks + [disk], judged + {disk.mount})
  {
    hide Same;
    hide Told;
    hide Listed;
    hide ListedOnce;
    forall m: string ensures var k := Key(host, DISK, m);
                             (m !in judged + {disk.mount} ==> Same(db, e, k))
                             && (ListedOnce(disks + [disk], m) ==> Told(env, db, e, k)) {
      var k := Key(host, DISK, m);
      if ListedOnce(disks + [disk], m) {
        OnceBefore(disks, disk, m);
      }
      SameTold(env, db, d, e, k);
      assert m !in judged ==> Same(db, d, k);
      assert m != disk.mount ==> Same(d, e, k);
      if m !in judged && m != disk.mount {
        SameTrans(db, d, e, k);
      }
    }
  }

  lemma UsageToldSkip(env: Env, db: Db, d: Db, host: int, disks: seq<Disk>, disk: Disk, judged: set<string>)
    requires UsageTold(env, db, d, host, disks, judged)
    ensures UsageTold(env, db, d, host, disks + [disk], judged)
  {
    hide Same;
    hide Told;
    forall m | ListedOnce(disks + [disk], m) ensures ListedOnce(disks, m) {
      OnceBefore(disks, disk, m);
    }
  }

  lemma NoUsageTold(env: Env, db: Db, host: int)
    ensures UsageTold(env, db, db, host, [], {})
  {
    forall k: Key ensures Same(db, db, k) && Told(env, db, db, k) {
      NothingTold(env, db, k);
    }
  }

  method JudgeDisks(e: Engine, st: HostState, disks: seq<Disk>, allMounts: bool, selection: seq<string>,
                    thresholds: SubjectThresholds)
    returns (evaluated: set<string>)
    requires e.InStep(st) && Instant(thresholds)
    modifies e.store, st`active, st`pending
    ensures e.InStep(st) && OnlyKind(old(e.store.db), e.store.db, st.host, DISK)
    ensures forall m :: m in evaluated <==> Judged(disks, allMounts, selection, thresholds, m)
    ensures !e.store.faulty ==> UsageSettled(e.store.db, st.host, disks, allMounts, selection, thresholds)
    ensures !e.store.faulty ==> UsageTold(e.env, old(e.store.db), e.store.db, st.host, disks, evaluated)
    ensures !e.store.faulty && Exclusive(old(e.store.db)) ==> Exclusive(e.store.db)
    ensures e.Calm() && Sound(old(e.store.db)) ==> Sound(e.store.db)
  {
    hide Valid;
    hide Sound;
    hide Exclusive;
    hide Same;
    hide SameBut;
    hide UsageSettled;
    hide LastOf;
    hide Told;
    hide UsageTold;
    hide ListedOnce;
    ghost var db0 := e.store.db;
    evaluated := {};
    SameAsItself(db0);
    NoUsageTold(e.env, db0, st.host);
    NothingSettled(db0, st.host, allMounts, selection, thresholds);
    for i := 0 to |disks|
      invariant e.InStep(st) && OnlyKind(db0, e.store.db, st.host, DISK)
      invariant forall m :: m in evaluated <==> Judged(disks[..i], allMounts, selection, thresholds, m)
      invariant !e.store.faulty ==> UsageSettled(e.store.db, st.host, disks[..i], allMounts, selection, thresholds)
      invariant !e.store.faulty ==> UsageTold(e.env, db0, e.store.db, st.host, disks[..i], evaluated)
      invariant !e.store.faulty && Exclusive(db0) ==> Exclusive(e.store.db)
      invariant e.Calm() && Sound(db0) ==> Sound(e.store.db)
    {
      var d := disks[i];
      var k := Key(st.host, DISK, d.mount);
      assert disks[..i + 1] == disks[..i] + [d];
      ListedGrows(disks[..i], d);
      var t := thresholds.For(d.mount);
      if (allMounts || d.mount in selection) && t.Some? {
        ghost var db1, before := e.store.db, evaluated;
        evaluated := evaluated + {d.mount};
        e.ApplyThreshold(st, k, d.usedPct, t.value);
        OnlyKindStep(db0, db1, e.store.db, k);
        if !e.store.faulty {
          UsageToldStep(e.env, db0, db1, e.store.db, st.host, disks[..i], d, before);
          UsageStep(db1, e.store.db, st.host, disks[..i], d, allMounts, selection, thresholds, e.now);
        }
      } else {
        if !e.store.faulty {
          UsageToldSkip(e.env, db0, e.store.db, st.host, disks[..i], d, evaluated);
        }
        SkippedDisk(e.store.db, st.host, disks[..i], d, allMounts, selection, thresholds);
      }
    }
    assert disks[..|disks|] == disks;
  }

  lemma NothingSettled(db: Db, host: int, allMounts: bool, selection: seq<string>, thresholds: SubjectThresholds)
    ensures UsageSettled(db, host, [], allMounts, selection, thresholds) && OnlyKind(db, db, host, DISK)
  {
  }

  lemma ListedGrows(disks: seq<Disk>, d: Disk)
    ensures forall m :: Listed(disks + [d], m) <==> Listed(disks, m) || d.mount == m
  {
    assert d in disks + [d];
  }

  lemma SkippedDisk(db: Db, host: int, disks: seq<Disk>, d: Disk, allMounts: bool, selection: seq<string>,
                    thresholds: SubjectThresholds)
    requires !(allMounts || d.mount in selection) || thresholds.For(d.mount).None?
    ensures UsageSettled(db, host, disks, allMounts, selection, thresholds)
            ==> UsageSettled(db, host, disks + [d], allMounts, selection, thresholds)
  {
    ListedGrows(disks, d);
    assert (disks + [d])[..|disks|] == disks;
  }

  lemma UnfoldTold(env: Env, db: Db, d: Db, host: int, kind: string)
    requires KindTold(env, db, d, host, kind, {})
    ensures forall s: string :: Told(env, db, d, Key(host, kind, s))
  {
    hide Told;
  }

  lemma UsageToldInTwo(env: Env, a: Db, b: Db, c: Db, host: int, disks: seq<Disk>, judged: set<string>)
    requires UsageTold(env, a, b, host, disks, judged) && KindTold(env, b, c, host, DISK, judged)
    ensures forall m :: ListedOnce(disks, m) ==> Told(env, a, c, Key(host, DISK, m))
  {
    hide Same;
    hide Told;
    hide ListedOnce;
    forall m | ListedOnce(disks, m) ensures Told(env, a, c, Key(host, DISK, m)) {
      SameTold(env, a, b, c, Key(host, DISK, m));
      assert m in judged ==> Same(b, c, Key(host, DISK, m));
    }
  }

  /** After a non-empty report a disk alert is active exactly when its mount is listed, selected, has a threshold and
      reads at or above it; its level is that of the last reading. */
  method EvaluateDisks(e: Engine, st: HostState, disks: seq<Disk>, allMounts: bool, selection: seq<string>,
                       thresholds: SubjectThresholds)
    requires e.InStep(st) && Instant(thresholds)
    modifies e.store, st`active, st`pending
    ensures e.InStep(st) && OnlyKind(old(e.store.db), e.store.db, st.host, DISK)
    ensures thresholds.Empty() ==> e.store.db == old(e.store.db)
    ensures !e.store.faulty && !thresholds.Empty() ==>
              forall m :: FiringLevel(e.store.db, Key(st.host, DISK, m))
                  == UsageLevel(disks, allMounts, selection, thresholds, m)
    ensures !e.store.faulty ==>
              forall m :: ListedOnce(disks, m) ==> Told(e.env, old(e.store.db), e.store.db, Key(st.host, DISK, m))
    ensures !e.store.faulty && Exclusive(old(e.store.db)) ==> Exclusive(e.store.db)
    ensures e.Calm() && Sound(old(e.store.db)) ==> Sound(e.store.db)
  {
    hide Told;
    hide UsageTold;
    hide ListedOnce;
    hide KindTold;
    NothingToldYet(e.env, e.store.db, st.host, DISK, {});
    if thresholds.Empty() {
      UnfoldTold(e.env, e.store.db, e.store.db, st.host, DISK);
      return;
    }
    ghost var db0 := e.store.db;
    var evaluated := JudgeDisks(e, st, disks, allMounts, selection, thresholds);
    ghost var db1 := e.store.db;
    CloseOthers(e, st, DISK, evaluated);
    OnlyKindTrans(db0, db1, e.store.db, st.host, DISK);
    if !e.store.faulty {
      UsageToldInTwo(e.env, db0, db1, e.store.db, st.host, disks, evaluated);
      forall m ensures FiringLevel(e.store.db, Key(st.host, DISK, m))
          == UsageLevel(disks, allMounts, selection, thresholds, m) {
        if m in evaluated {
          assert Same(db1, e.store.db, Key(st.host, DISK, m));
        }
      }
    }
  }

  // ---- disappearance

  function ExpectedMounts(allMounts: bool, selection: seq<string>, thresholds: SubjectThresholds): set<string> {
    if !allMounts then set m | m in selection else thresholds.perSubject.Keys
  }

  function Mounted(disks: seq<Disk>): set<string> { set d | d in disks :: d.mount }

  /** The mounts of the last n non-empty reports; `reports` ends with the report being evaluated. */
  function Recent(reports: seq<set<string>>, n: nat): seq<set<string>> {
    if |reports| <= n then reports else reports[|reports| - n..]
  }

  /** Alerts of mounts still gone are as they were, and none was opened. */
  ghost predicate OnlyClosed(db: Db, d: Db, host: int, gone: set<string>) {
    && (forall m :: m in gone ==> Same(db, d, Key(host, DISK_MISSING, m)))
    && (forall m :: Key(host, DISK_MISSING, m) in d.active ==> Key(host, DISK_MISSING, m) in db.active)
  }

  lemma NothingClosed(db: Db, host: int, gone: set<string>)
    ensures OnlyKind(db, db, host, DISK_MISSING) && OnlyClosed(db, db, host, gone)
  {
  }

  lemma OneClosed(db: Db, d: Db, e: Db, k: Key, gone: set<string>)
    requires OnlyClosed(db, d, k.host, gone) && SameBut(d, e, k) && k in d.active && k.kind == DISK_MISSING
             && k.subject !in gone
    ensures OnlyClosed(db, e, k.host, gone)
  {
    SameStays(db, d, e, k, gone);
    assert Key(k.host, k.kind, k.subject) == k;
    forall m | Key(k.host, k.kind, m) in e.active && Key(k.host, k.kind, m) != k
        ensures Key(k.host, k.kind, m) in db.active {
      assert Same(d, e, Key(k.host, k.kind, m));
    }
  }

  lemma CachedIsOpen(st: HostState, e: Engine, k: Key)
    requires e.Follows(st) && k in st.active
    ensures k.host == st.host && k in e.store.db.active
  {
    assert Backed(st.active, e.store.db, k);
  }

  lemma AllClosed(st: HostState, e: Engine, db: Db, gone: set<string>)
    requires !e.store.faulty && e.InStep(st) && !st.partial && OnlyClosed(db, e.store.db, st.host, gone)
    requires forall k :: k in st.active && k.kind == DISK_MISSING ==> k.subject in gone
    ensures forall m :: Key(st.host, DISK_MISSING, m) in e.store.db.active
                        <==> Key(st.host, DISK_MISSING, m) in db.active && m in gone
  {
    forall m ensures Key(st.host, DISK_MISSING, m) in e.store.db.active
                     <==> Key(st.host, DISK_MISSING, m) in db.active && m in gone {
      var k := Key(st.host, DISK_MISSING, m);
      assert Complete(st.active, st.pending, e.store.db, k);
      if m in gone {
        assert Same(db, e.store.db, k);
      }
    }
  }

  /** Resolve the disk_missing alerts of mounts that are back or no longer expected. */
  method CloseFound(e: Engine, st: HostState, gone: set<string>)
    requires e.InStep(st)
    modifies e.store, st`active, st`pending
    ensures e.InStep(st) && OnlyKind(old(e.store.db), e.store.db, st.host, DISK_MISSING)
    ensures !e.store.faulty && !st.partial ==>
              forall m :: Key(st.host, DISK_MISSING, m) in e.store.db.active
                          <==> Key(st.host, DISK_MISSING, m) in old(e.store.db).active && m in gone
    ensures forall k :: k in st.active && k.kind == DISK_MISSING ==> k.subject in gone
    ensures !e.store.faulty ==> KindTold(e.env, old(e.store.db), e.store.db, st.host, DISK_MISSING, gone)
    ensures !e.store.faulty && Exclusive(old(e.store.db)) ==> Exclusive(e.store.db)
    ensures e.Calm() && Sound(old(e.store.db)) ==> Sound(e.store.db)
  {
    hide Same;
    hide Sound;
    hide Exclusive;
    hide Valid;
    hide OnlyClosed;
    hide Told;
    hide KindTold;
    hide PhaseAt;
    hide Backed;
    hide Complete;
    hide Lifecycle.Loud;
    hide SameBut;
    ghost var db0 := e.store.db;
    NothingClosed(db0, st.host, gone);
    var todo := set k | k in st.active && k.kind == DISK_MISSING && k.subject !in gone;
    ghost var left := gone + set k | k in todo :: k.subject;
    NothingToldYet(e.env, db0, st.host, DISK_MISSING, left);
    while todo != {}
      invariant gone <= left && forall k :: k in todo ==> k.subject in left
      invariant !e.store.faulty ==> KindTold(e.env, db0, e.store.db, st.host, DISK_MISSING, left)
      invariant e.InStep(st) && OnlyKind(db0, e.store.db, st.host, DISK_MISSING)
      invariant forall k :: k in todo <==> k in st.active && k.kind == DISK_MISSING && k.subject !in gone
      invariant OnlyClosed(db0, e.store.db, st.host, gone)
      invariant !e.store.faulty && Exclusive(db0) ==> Exclusive(e.store.db)
      invariant e.Calm() && Sound(db0) ==> Sound(e.store.db)
      decreases todo
    {
      var k :| k in todo;
      ghost var db1 := e.store.db;
      CachedIsOpen(st, e, k);
      e.Drop(st, k, None, None);
      OnlyKindStep(db0, db1, e.store.db, k);
      OneClosed(db0, db1, e.store.db, k, gone);
      if !e.store.faulty {
        ToldStep(e.env, db0, db1, e.store.db, k, left);
      }
      todo, left := todo - {k}, left - {k.subject};
    }
    if !e.store.faulty {
      ToldSkip(e.env, db0, e.store.db, st.host, DISK_MISSING, left, gone);
    }
    forall k | k in st.active && k.kind == DISK_MISSING ensures k.subject in gone {
      assert k !in todo;
    }
    if !e.store.faulty && !st.partial {
      AllClosed(st, e, db0, gone);
    }
  }

  /** A disk_missing alert is created in the database only: nothing reads it again in this report. */
  method OpenMissing(e: Engine, st: HostState, m: string)
    requires e.InStep(st)
    modifies e.store, st`partial
    ensures e.InStep(st) && SameBut(old(e.store.db), e.store.db, Key(st.host, DISK_MISSING, m))
    ensures !e.store.faulty ==> Key(st.host, DISK_MISSING, m) in e.store.db.active
    ensures var k := Key(st.host, DISK_MISSING, m);
            !e.store.faulty && k !in old(e.store.db).active ==>
              Told(e.env, old(e.store.db), e.store.db, k) && PhaseAt(e.store.db, k) == Firing(Critical)
    ensures !e.store.faulty && Exclusive(old(e.store.db)) ==> Exclusive(e.store.db)
    ensures e.Calm() && Sound(old(e.store.db)) ==> Sound(e.store.db)
  {
    st.partial := true;
    var k := Key(st.host, DISK_MISSING, m);
    var p := e.Prepare(st.host, Critical);
    var mutation := Create(k, Critical, None, None);
    ghost var before := e.store.db;
    var err, a := e.store.Change(p, Opened, mutation);
    if !err {
      ChangeFrame(before, p, Opened, mutation, e.store.db, k);
      CreateOutcome(before, p, k, Critical, None, None, e.store.db);
      OthersStillBacked(st.active, before, e.store.db, k);
      OthersStillComplete(st.active, st.pending, before, st.active, st.pending, e.store.db, k);
      ExclusiveStill(before, e.store.db, k);
      assert k in st.active ==> Backed(st.active, before, k);
    }
    if !e.store.faulty && k !in before.active {
      OpeningTold(e.env, before, k, Critical, None, None);
    }
    if e.Calm() && Sound(before) {
      ChangeKeepsSound(before, p, Opened, mutation);
    }
  }

  /** An alert is as it was, or new and critical. */
  ghost predicate NewAreCritical(db: Db, d: Db, host: int) {
    forall m: string :: var k := Key(host, DISK_MISSING, m);
      AlertAt(d, k).Some? ==> if AlertAt(db, k).Some? then AlertAt(d, k) == AlertAt(db, k)
                              else AlertAt(d, k).value.level == Critical
  }

  lemma CriticalStep(db: Db, d: Db, e: Db, k: Key)
    requires NewAreCritical(db, d, k.host) && SameBut(d, e, k) && k.kind == DISK_MISSING
    requires AlertAt(d, k).None? && PhaseAt(e, k) == Firing(Critical) && Same(db, d, k)
    ensures NewAreCritical(db, e, k.host)
  {
    forall m: string ensures var o := Key(k.host, DISK_MISSING, m);
                             AlertAt(e, o).Some? ==> if AlertAt(db, o).Some? then AlertAt(e, o) == AlertAt(db, o)
                                                     else AlertAt(e, o).value.level == Critical {
      var o := Key(k.host, DISK_MISSING, m);
      assert o != k ==> Same(d, e, o);
    }
  }

  /** Mounts that are no candidates, and those still to do, are as they were. */
  ghost predicate OnlyOpened(db: Db, d: Db, host: int, candidates: set<string>, todo: set<string>) {
    forall m: string :: m !in candidates || m in todo ==> Same(db, d, Key(host, DISK_MISSING, m))
  }

  lemma OnlyOpenedStep(db: Db, d: Db, e: Db, k: Key, candidates: set<string>, todo: set<string>)
    requires OnlyOpened(db, d, k.host, candidates, todo) && SameBut(d, e, k) && k.kind == DISK_MISSING
    requires k.subject in candidates
    ensures OnlyOpened(db, e, k.host, candidates, todo - {k.subject})
  {
    hide Same;
    forall m: string | m !in candidates || m in todo - {k.subject}
      ensures Same(db, e, Key(k.host, DISK_MISSING, m)) {
      var o := Key(k.host, DISK_MISSING, m);
      assert o != k && Same(db, d, o) && Same(d, e, o);
      SameTrans(db, d, e, o);
    }
  }

  ghost predicate Unopened(db: Db, host: int, candidates: set<string>) {
    forall m :: m in candidates ==> Key(host, DISK_MISSING, m) !in db.active
  }

  lemma NothingOpened(env: Env, db: Db, host: int, candidates: set<string>)
    ensures KindTold(env, db, db, host, DISK_MISSING, candidates) && KindTold(env, db, db, host, DISK_MISSING, {})
    ensures NewAreCritical(db, db, host) && forall todo :: OnlyOpened(db, db, host, candidates, todo)
  {
    NothingToldYet(env, db, host, DISK_MISSING, candidates);
    NothingToldYet(env, db, host, DISK_MISSING, {});
    hide KindTold;
    SameAsItself(db);
  }

  /** Expected mounts that are not listed and whose alert is not open yet: open those gone in the last three reports. */
  method OpenGone(e: Engine, st: HostState, candidates: set<string>, reports: seq<set<string>>)
    requires e.InStep(st) && (!e.store.faulty ==> Unopened(e.store.db, st.host, candidates))
    modifies e.store, st`partial
    ensures e.InStep(st) && OnlyKind(old(e.store.db), e.store.db, st.host, DISK_MISSING)
    ensures !e.store.faulty ==>
              forall m :: Key(st.host, DISK_MISSING, m) in e.store.db.active
                          <==> Key(st.host, DISK_MISSING, m) in old(e.store.db).active
                               || (m in candidates && GoneThreeTimes(reports, m))
    ensures !e.store.faulty ==>
              && KindTold(e.env, old(e.store.db), e.store.db, st.host, DISK_MISSING, {})
              && NewAreCritical(old(e.store.db), e.store.db, st.host)
              && OnlyOpened(old(e.store.db), e.store.db, st.host, candidates, {})
    ensures !e.store.faulty && Exclusive(old(e.store.db)) ==> Exclusive(e.store.db)
    ensures e.Calm() && Sound(old(e.store.db)) ==> Sound(e.store.db)
  {
    hide Sound;
    hide Exclusive;
    hide Valid;
    hide SameBut;
    hide Told;
    hide KindTold;
    hide NewAreCritical;
    hide OnlyOpened;
    ghost var db0 := e.store.db;
    NothingOpened(e.env, db0, st.host, candidates);
    SameAsItself(db0);
    if candidates == {} {
      return;
    }
    var unread := e.store.Fails();
    if unread {
      return;
    }
    var history := Recent(reports, MISSING_MOUNT_REPORTS);
    if |history| < MISSING_MOUNT_REPORTS {
      return;
    }
    var todo := candidates;
    while todo != {}
      invariant todo <= candidates
      invariant e.InStep(st) && OnlyKind(db0, e.store.db, st.host, DISK_MISSING)
      invariant !e.store.faulty ==>
                  forall m :: Key(st.host, DISK_MISSING, m) in e.store.db.active
                              <==> Key(st.host, DISK_MISSING, m) in db0.active
                                   || (m in candidates - todo && GoneThreeTimes(reports, m))
      invariant !e.store.faulty ==>
                  && KindTold(e.env, db0, e.store.db, st.host, DISK_MISSING, todo)
                  && NewAreCritical(db0, e.store.db, st.host)
                  && OnlyOpened(db0, e.store.db, st.host, candidates, todo)
      invariant !e.store.faulty && Exclusive(db0) ==> Exclusive(e.store.db)
      invariant e.Calm() && Sound(db0) ==> Sound(e.store.db)
      decreases todo
    {
      hide Same;
      var m :| m in todo;
      var seen := false;
      for i := 0 to |history|
        invariant seen <==> exists j :: 0 <= j < i && m in history[j]
      {
        if m in history[i] {
          seen := true;
        }
      }
      SeenRecently(reports, m);
      ghost var k := Key(st.host, DISK_MISSING, m);
      if !e.store.faulty {
        StillUnopened(db0, e.store.db, st.host, candidates, todo, m);
        ToldSkip(e.env, db0, e.store.db, st.host, DISK_MISSING, todo, todo - {m});
        FewerToDo(db0, e.store.db, st.host, candidates, todo, m);
      }
      if !seen {
        ghost var db1 := e.store.db;
        OpenMissing(e, st, m);
        OnlyKindStep(db0, db1, e.store.db, Key(st.host, DISK_MISSING, m));
        if !e.store.faulty {
          ToldStep(e.env, db0, db1, e.store.db, k, todo);
          CriticalStep(db0, db1, e.store.db, k);
          OnlyOpenedStep(db0, db1, e.store.db, k, candidates, todo);
        }
        OneOpened(db1, e.store.db, Key(st.host, DISK_MISSING, m));
      }
      todo := todo - {m};
    }
  }

  lemma StillUnopened(db: Db, d: Db, host: int, candidates: set<string>, todo: set<string>, m: string)
    requires Unopened(db, host, candidates) && OnlyOpened(db, d, host, candidates, todo)
    requires m in todo && m in candidates
    ensures var k := Key(host, DISK_MISSING, m); k !in d.active && AlertAt(d, k).None? && Same(db, d, k)
  {
    assert Same(db, d, Key(host, DISK_MISSING, m));
  }

  /** Without an opening nothing changes about the next candidate. */
  lemma FewerToDo(db: Db, d: Db, host: int, candidates: set<string>, todo: set<string>, m: string)
    requires OnlyOpened(db, d, host, candidates, todo)
    ensures OnlyOpened(db, d, host, candidates, todo - {m})
  {
    hide Same;
  }

  lemma SeenRecently(reports: seq<set<string>>, m: string)
    requires |reports| >= 3
    ensures GoneThreeTimes(reports, m) <==> !exists j :: 0 <= j < 3 && m in Recent(reports, 3)[j]
  {
    var recent := Recent(reports, 3);
    if GoneThreeTimes(reports, m) {
      forall j | 0 <= j < 3 ensures m !in recent[j] {
        assert recent[j] == reports[|reports| - 3 + j];
      }
    } else {
      var i :| |reports| - 3 <= i < |reports| && m in reports[i];
      assert m in recent[i - (|reports| - 3)];
    }
  }

  lemma OneOpened(d: Db, e: Db, k: Key)
    requires SameBut(d, e, k)
    ensures forall m :: m != k.subject ==> (Key(k.host, k.kind, m) in e.active <==> Key(k.host, k.kind, m) in d.active)
  {
    forall m | m != k.subject ensures Key(k.host, k.kind, m) in e.active <==> Key(k.host, k.kind, m) in d.active {
      assert Same(d, e, Key(k.host, k.kind, m));
    }
  }

  lemma CandidatesUnopened(st: HostState, e: Engine, candidates: set<string>)
    requires e.InStep(st) && !e.store.faulty && !st.partial
    requires forall k :: k in st.active && k.kind == DISK_MISSING ==> k.subject !in candidates
    ensures Unopened(e.store.db, st.host, candidates)
  {
    forall m | m in candidates ensures Key(st.host, DISK_MISSING, m) !in e.store.db.active {
      assert Complete(st.active, st.pending, e.store.db, Key(st.host, DISK_MISSING, m));
    }
  }

  /** Closing tells of the mounts found, opening of those gone. */
  lemma MissingTold(env: Env, a: Db, b: Db, c: Db, host: int, gone: set<string>, candidates: set<string>)
    requires KindTold(env, a, b, host, DISK_MISSING, gone) && KindTold(env, b, c, host, DISK_MISSING, {})
    requires OnlyOpened(b, c, host, candidates, {}) && NewAreCritical(b, c, host) && candidates <= gone
    requires forall m: string :: Key(host, DISK_MISSING, m) in b.active ==> m in gone
    ensures KindTold(env, a, c, host, DISK_MISSING, {}) && NewAreCritical(a, c, host)
  {
    OthersToldFirst(env, a, b, c, host, DISK_MISSING, gone);
    hide Told;
    forall m: string ensures var k := Key(host, DISK_MISSING, m);
                             AlertAt(c, k).Some? ==> if AlertAt(a, k).Some? then AlertAt(c, k) == AlertAt(a, k)
                                                     else AlertAt(c, k).value.level == Critical {
      var k := Key(host, DISK_MISSING, m);
      if m in gone {
        assert Same(a, b, k);
      } else {
        assert Same(b, c, k);
      }
    }
  }

  /** After a non-empty report a mount's disk_missing alert is open exactly when the mount is expected, not listed, and
      either was open already or is gone from the last three reports. */
  method EvaluateMissingMounts(e: Engine, st: HostState, disks: seq<Disk>, allMounts: bool, selection: seq<string>,
                               thresholds: SubjectThresholds, reports: seq<set<string>>)
    requires e.InStep(st) && !st.partial
    requires reports != [] && reports[|reports| - 1] == Mounted(disks)
    modifies e.store, st`active, st`pending, st`partial
    ensures e.InStep(st) && OnlyKind(old(e.store.db), e.store.db, st.host, DISK_MISSING)
    ensures !e.store.faulty ==>
              forall m :: Key(st.host, DISK_MISSING, m) in e.store.db.active
                          <==> MissingStep(Key(st.host, DISK_MISSING, m) in old(e.store.db).active,
                                           m in ExpectedMounts(allMounts, selection, thresholds), reports, m)
    ensures !e.store.faulty ==>
              && KindTold(e.env, old(e.store.db), e.store.db, st.host, DISK_MISSING, {})
              && NewAreCritical(old(e.store.db), e.store.db, st.host)
    ensures !e.store.faulty && Exclusive(old(e.store.db)) ==> Exclusive(e.store.db)
    ensures e.Calm() && Sound(old(e.store.db)) ==> Sound(e.store.db)
  {
    ghost var db0 := e.store.db;
    var gone := ExpectedMounts(allMounts, selection, thresholds) - Mounted(disks);
    CloseFound(e, st, gone);
    ghost var db1 := e.store.db;
    var stillOpen := set k | k in st.active && k.kind == DISK_MISSING :: k.subject;
    var candidates := gone - stillOpen;
    if !e.store.faulty {
      CandidatesUnopened(st, e, candidates);
    }
    OpenGone(e, st, candidates, reports);
    OnlyKindTrans(db0, db1, e.store.db, st.host, DISK_MISSING);
    if !e.store.faulty {
      MissingTold(e.env, db0, db1, e.store.db, st.host, gone, candidates);
      forall m ensures m in stillOpen ==> Key(st.host, DISK_MISSING, m) in db1.active {
        if k :| k in st.active && k.kind == DISK_MISSING && k.subject == m {
          assert k == Key(st.host, DISK_MISSING, m) && Backed(st.active, db1, k);
        }
      }
    }
  }

  // ---- read-only file systems

  /** The level of the rule, none when it is off; the rule takes no duration. */
  datatype Rule = Rule(level: Option<Level>, seconds: Option<int>)

  function Holds(rule: Rule): Condition { Condition(rule.level, DurationOf(rule.seconds), None, false) }

  /** A problem seen again: it fires once it has lasted the seconds of the rule, if it has any. */
  ghost function HoldStep(phase: Phase, now: int, rule: Rule): Phase
    requires rule.level.Some?
  {
    var since := if phase.Waiting? then phase.since else now;
    if phase.Firing? || rule.seconds.None? || rule.seconds.value <= 0
       || now - since >= rule.seconds.value * 1_000_000_000
    then Firing(rule.level.value) else Waiting(since)
  }

  lemma HoldsStep(phase: Phase, now: int, rule: Rule)
    requires rule.level.Some?
    ensures ConditionStep(phase, now, Holds(rule)) == HoldStep(phase, now, rule)
  {
  }

  /** What is known of the previous report: the mounts with a known state. */
  function KnownStates(disks: seq<Disk>): map<string, bool> {
    if disks == [] then map[]
    else
      var d, init := disks[|disks| - 1], KnownStates(disks[..|disks| - 1]);
      if d.readOnly.Some? then init[d.mount := d.readOnly.value] else init
  }

  method PreviousReadOnly(e: Engine, previous: seq<Disk>) returns (known: map<string, bool>)
    ensures known == KnownStates(previous) || (e.store.faulty && known == map[])
  {
    known := map[];
    var unread := e.store.Fails();
    if unread {
      return;
    }
    for i := 0 to |previous|
      invariant known == KnownStates(previous[..i])
    {
      assert previous[..i + 1][..i] == previous[..i];
      if previous[i].readOnly.Some? {
        known := known[previous[i].mount := previous[i].readOnly.value];
      }
    }
    assert previous[..|previous|] == previous;
  }

  /** In the previous report the last known state of the mount was writable. */
  ghost predicate WasWritable(previous: seq<Disk>, m: string) {
    exists i :: && 0 <= i < |previous| && previous[i].mount == m && previous[i].readOnly == Some(false)
                && forall j :: i < j < |previous| && previous[j].mount == m ==> previous[j].readOnly.None?
  }

  lemma {:induction false} KnownStatesExact(disks: seq<Disk>, m: string)
    ensures m in KnownStates(disks) && !KnownStates(disks)[m] <==> WasWritable(disks, m)
  {
    if disks != [] {
      var last, init := disks[|disks| - 1], disks[..|disks| - 1];
      KnownStatesExact(init, m);
      LastState(disks);
      hide KnownStates;
      if last.mount != m || last.readOnly.None? {
        WritableStays(init, last, m);
        assert disks == init + [last];
      } else if last.readOnly == Some(false) {
        assert WasWritable(disks, m);
      }
    }
  }

  lemma LastState(disks: seq<Disk>)
    requires disks != []
    ensures var d, init := disks[|disks| - 1], KnownStates(disks[..|disks| - 1]);
            KnownStates(disks) == if d.readOnly.Some? then init[d.mount := d.readOnly.value] else init
  {
  }

  lemma WritableStays(disks: seq<Disk>, d: Disk, m: string)
    requires d.mount != m || d.readOnly.None?
    ensures WasWritable(disks + [d], m) <==> WasWritable(disks, m)
  {
    var all := disks + [d];
    assert forall i :: 0 <= i < |disks| ==> all[i] == disks[i];
    if i :| && 0 <= i < |all| && all[i].mount == m && all[i].readOnly == Some(false)
            && forall j :: i < j < |all| && all[j].mount == m ==> all[j].readOnly.None? {
      assert disks[i] == all[i];
    }
    if i :| && 0 <= i < |disks| && disks[i].mount == m && disks[i].readOnly == Some(false)
            && forall j :: i < j < |disks| && disks[j].mount == m ==> disks[j].readOnly.None? {
      assert all[i] == disks[i];
    }
  }

  /** The phase of a mount that is d in the last report: writable again closes, an unknown state changes nothing, and it
      fires if it turned read-only since the previous report or fired already. */
  ghost predicate ReadOnlyMoved(phase: Phase, after: Phase, now: int, d: Disk, previous: seq<Disk>, rule: Rule)
    requires rule.level.Some?
  {
    after == match d.readOnly
      case None => phase
      case Some(false) => Idle
      case Some(true) => if phase.Firing? || WasWritable(previous, d.mount) then HoldStep(phase, now, rule) else phase
  }

  lemma ReadOnlyExact(phase: Phase, now: int, d: Disk, previous: seq<Disk>, rule: Rule)
    requires rule.level.Some?
    ensures ReadOnlyMoved(phase,
                          ConditionStep(phase, now, ReadOnlyCondition(d, phase.Firing?, KnownStates(previous), rule)),
                          now, d, previous, rule)
  {
    KnownStatesExact(previous, d.mount);
    HoldsStep(phase, now, rule);
    hide KnownStates;
    hide WasWritable;
    hide Holds;
  }

  /** The condition of a mount whose last entry is d. */
  function ReadOnlyCondition(d: Disk, active: bool, known: map<string, bool>, rule: Rule): Condition {
    if d.readOnly.None? then Keep
    else if !d.readOnly.value then Fine
    else if active then Holds(rule)
    else if d.mount in known && !known[d.mount] then Holds(rule)
    else Keep
  }

  /** Every mount has moved by its last entry; mounts that are not listed have no alert. */
  ghost predicate StatesFollowed(db: Db, d: Db, host: int, now: int, disks: seq<Disk>, previous: seq<Disk>, rule: Rule)
    requires rule.level.Some?
  {
    && (forall m, i :: LastListed(disks, m, i) ==>
          ReadOnlyMoved(PhaseAt(db, Key(host, "fs_readonly", m)), PhaseAt(d, Key(host, "fs_readonly", m)), now,
                        disks[i], previous, rule))
    && (forall m :: !Listed(disks, m) ==> PhaseAt(d, Key(host, "fs_readonly", m)) == Idle)
  }

  lemma StatesFollow(db: Db, d: Db, host: int, now: int, disks: seq<Disk>, previous: seq<Disk>, rule: Rule)
    requires rule.level.Some?
    requires forall m :: var k := Key(host, FS_READONLY, m);
               PhaseAt(d, k) ==
                 if Listed(disks, m)
                 then ConditionStep(PhaseAt(db, k), now,
                                    ReadOnlyCondition(LastOf(disks, m), PhaseAt(db, k).Firing?,
                                                      KnownStates(previous), rule))
                 else Idle
    ensures StatesFollowed(db, d, host, now, disks, previous, rule)
  {
    hide PhaseAt;
    hide ConditionStep;
    hide ReadOnlyCondition;
    hide ReadOnlyMoved;
    hide LastOf;
    forall m, i | LastListed(disks, m, i)
      ensures ReadOnlyMoved(PhaseAt(db, Key(host, FS_READONLY, m)), PhaseAt(d, Key(host, FS_READONLY, m)), now,
                            disks[i], previous, rule) {
      assert disks[i] in disks;
      var j := LastIndex(disks, m);
      assert i == j;
      ReadOnlyExact(PhaseAt(db, Key(host, FS_READONLY, m)), now, disks[i], previous, rule);
    }
  }

  /** Read-only alerts: a mount that turned read-only since the previous report fires; it stays so until it is writable
      again or leaves the list. */
  method EvaluateReadOnly(e: Engine, st: HostState, disks: seq<Disk>, previous: seq<Disk>, rule: Rule)
    requires e.InStep(st)
    modifies e.store, st`active, st`pending
    ensures e.InStep(st) && OnlyKind(old(e.store.db), e.store.db, st.host, FS_READONLY)
    ensures rule.level.Some? && disks == [] ==> e.store.db == old(e.store.db)
    ensures !e.store.faulty && rule.level.None? ==>
              forall m :: PhaseAt(e.store.db, Key(st.host, FS_READONLY, m)) == Idle
    ensures !e.store.faulty && rule.level.Some? && disks != [] ==>
              forall m :: var k := Key(st.host, FS_READONLY, m);
                PhaseAt(e.store.db, k) ==
                  if Listed(disks, m)
                  then ConditionStep(PhaseAt(old(e.store.db), k), e.now,
                                     ReadOnlyCondition(LastOf(disks, m), PhaseAt(old(e.store.db), k).Firing?,
                                                       KnownStates(previous), rule))
                  else Idle
    ensures !e.store.faulty && rule.level.Some? && disks != [] ==>
              StatesFollowed(old(e.store.db), e.store.db, st.host, e.now, disks, previous, rule)
    ensures !e.store.faulty ==> KindTold(e.env, old(e.store.db), e.store.db, st.host, FS_READONLY, {})
    ensures !e.store.faulty && Exclusive(old(e.store.db)) ==> Exclusive(e.store.db)
    ensures e.Calm() && Sound(old(e.store.db)) ==> Sound(e.store.db)
  {
    hide Told;
    hide KindTold;
    NothingToldYet(e.env, e.store.db, st.host, FS_READONLY, {});
    if rule.level.None? {
      ResolveAll(e, st, FS_READONLY);
      return;
    }
    if disks == [] {
      SameAsItself(e.store.db);
      return;
    }
    var conds := ReadOnlyConditions(e, st, disks, previous, rule);
    if !e.store.faulty {
      forall m ensures Key(st.host, FS_READONLY, m) in st.active
          <==> PhaseAt(e.store.db, Key(st.host, FS_READONLY, m)).Firing? {
        var k := Key(st.host, FS_READONLY, m);
        assert Complete(st.active, st.pending, e.store.db, k) && Backed(st.active, e.store.db, k);
      }
    }
    ghost var db0 := e.store.db;
    Reconcile(e, st, FS_READONLY, conds, true);
    hide StatesFollowed;
    if !e.store.faulty {
      StatesFollow(db0, e.store.db, st.host, e.now, disks, previous, rule);
    }
  }

  method ReadOnlyConditions(e: Engine, st: HostState, disks: seq<Disk>, previous: seq<Disk>, rule: Rule)
    returns (conds: map<string, Condition>)
    ensures forall m :: m in conds <==> Listed(disks, m)
    ensures !e.store.faulty ==>
              forall m :: m in conds ==>
                conds[m] == ReadOnlyCondition(LastOf(disks, m), Key(st.host, FS_READONLY, m) in st.active,
                                              KnownStates(previous), rule)
  {
    conds := map[];
    var read: Option<map<string, bool>> := None;
    for i := 0 to |disks|
      invariant forall m :: m in conds <==> Listed(disks[..i], m)
      invariant !e.store.faulty && read.Some? ==> read.value == KnownStates(previous)
      invariant !e.store.faulty ==>
                  forall m :: m in conds ==>
                    conds[m] == ReadOnlyCondition(LastOf(disks[..i], m), Key(st.host, FS_READONLY, m) in st.active,
                                                  KnownStates(previous), rule)
    {
      var d := disks[i];
      assert disks[..i + 1] == disks[..i] + [d];
      ListedGrows(disks[..i], d);
      assert disks[..i + 1][..i] == disks[..i];
      var c := Keep;
      if d.readOnly.Some? && !d.readOnly.value {
        c := Fine;
      } else if d.readOnly.Some? {
        if Key(st.host, FS_READONLY, d.mount) in st.active {
          c := Holds(rule);
        } else {
          if read.None? {
            var known := PreviousReadOnly(e, previous);
            read := Some(known);
          }
          if d.mount in read.value && !read.value[d.mount] {
            c := Holds(rule);
          }
        }
      }
      conds := conds[d.mount := c];
    }
    assert disks[..|disks|] == disks;
  }

  /** The state of a mount listed once in a report. */
  ghost predicate StateIn(disks: seq<Disk>, m: string, readOnly: bool) {
    Listed(disks, m) && (forall d :: d in disks && d.mount == m ==> d.readOnly == Some(readOnly))
  }

  lemma {:induction false} KnownState(disks: seq<Disk>, m: string, readOnly: bool)
    requires StateIn(disks, m, readOnly)
    ensures m in KnownStates(disks) && KnownStates(disks)[m] == readOnly
  {
    var n := |disks| - 1;
    var last, init := disks[n], disks[..n];
    assert disks == init + [last];
    if last.mount != m {
      assert Listed(init, m);
      KnownState(init, m, readOnly);
    }
  }
}

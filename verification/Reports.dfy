/** The evaluation of one agent report: every kind of alert settles as its rule says, and no kind disturbs another. */
module Reports {
  import opened AlertDb
  import opened Conditions
  import opened Engine
  import opened Lifecycle
  import opened Mounts
  import N = Numeric
  import opened Options
  import opened Status

  const CPU: string := "cpu"
  const RAM: string := "ram"
  const DISK_LATENCY: string := "disk_latency"
  const TEMPERATURE: string := "temperature"

  const KINDS: set<string> := {HOST_OFFLINE, CPU, RAM, DISK, DISK_MISSING, FS_READONLY, DISK_LATENCY, TEMPERATURE}

  const ORDER: seq<string> := [HOST_OFFLINE, CPU, RAM, DISK, DISK_MISSING, FS_READONLY, DISK_LATENCY, TEMPERATURE]

  /** The thresholds, rules and disk selection that apply to a host. */
  datatype Config = Config(cpu: Option<Threshold>, ram: Option<Threshold>, disk: SubjectThresholds,
                           latency: SubjectThresholds, temperature: SubjectThresholds, readOnly: Rule,
                           allMounts: bool, selection: seq<string>)

  datatype Report = Report(cpuPct: real, ramPct: real, disks: seq<Disk>, latency: Option<map<string, real>>,
                           temperature: Option<map<string, real>>)

  /** One report of a host, judged at an instant; earlier reports are stored and read back. */
  datatype Evaluation = Evaluation(host: int, config: Config, history: seq<Report>, report: Report, now: int)

  /** The mounts of the stored reports that listed any. */
  function MountHistory(reports: seq<Report>): seq<set<string>> {
    if reports == [] then []
    else
      var disks, init := reports[|reports| - 1].disks, MountHistory(reports[..|reports| - 1]);
      if disks == [] then init else init + [Mounted(disks)]
  }

  function PreviousDisks(history: seq<Report>): seq<Disk> {
    if history == [] then [] else history[|history| - 1].disks
  }

  /** Kinds judged by a value per subject; the host-wide ones have the one subject "". */
  predicate HostWide(kind: string) { kind == CPU || kind == RAM }

  predicate Measured(kind: string) { HostWide(kind) || kind == DISK_LATENCY || kind == TEMPERATURE }

  function ThresholdsOf(c: Config, kind: string): SubjectThresholds
    requires Measured(kind)
  {
    if kind == CPU then SubjectThresholds(c.cpu, map[])
    else if kind == RAM then SubjectThresholds(c.ram, map[])
    else if kind == DISK_LATENCY then c.latency
    else c.temperature
  }

  function ValuesOf(r: Report, kind: string): Option<map<string, real>>
    requires Measured(kind)
  {
    if kind == CPU then Some(map["" := r.cpuPct])
    else if kind == RAM then Some(map["" := r.ramPct])
    else if kind == DISK_LATENCY then r.latency
    else r.temperature
  }

  // ---- what a report settles, kind by kind

  ghost predicate SamePhases(db: Db, d: Db, host: int, kind: string) {
    forall s: string :: PhaseAt(d, Key(host, kind, s)) == PhaseAt(db, Key(host, kind, s))
  }

  ghost predicate MeasuredSettled(x: Evaluation, db: Db, d: Db, kind: string)
    requires Measured(kind)
  {
    var t, values := ThresholdsOf(x.config, kind), ValuesOf(x.report, kind);
    if t.Empty() then Reconciled(db, d, x.host, kind, map[], true, x.now)
    else if values.None? then SamePhases(db, d, x.host, kind)
    else Reconciled(db, d, x.host, kind, N.Judged(values.value, t), !HostWide(kind), x.now)
  }

  ghost predicate DisksSettled(x: Evaluation, db: Db, d: Db) {
    if x.config.disk.Empty() then forall m :: FiringLevel(d, Key(x.host, DISK, m)) == None
    else if x.report.disks == [] then SamePhases(db, d, x.host, DISK)
    else forall m :: FiringLevel(d, Key(x.host, DISK, m)) ==
                     UsageLevel(x.report.disks, x.config.allMounts, x.config.selection, x.config.disk, m)
  }

  predicate Expected(c: Config, m: string) { m in ExpectedMounts(c.allMounts, c.selection, c.disk) }

  ghost predicate MissingSettled(x: Evaluation, db: Db, d: Db) {
    if x.report.disks == [] then SamePhases(db, d, x.host, DISK_MISSING)
    else forall m :: var k := Key(x.host, DISK_MISSING, m);
      && (PhaseAt(d, k).Firing? ==>
            PhaseAt(d, k) == if PhaseAt(db, k).Firing? then PhaseAt(db, k) else Firing(Critical))
      && (PhaseAt(d, k).Firing? <==>
            MissingStep(PhaseAt(db, k).Firing?, Expected(x.config, m),
                        MountHistory(x.history) + [Mounted(x.report.disks)], m))
  }

  ghost predicate ReadOnlySettled(x: Evaluation, db: Db, d: Db) {
    var rule, disks := x.config.readOnly, x.report.disks;
    if rule.level.None? then forall m :: PhaseAt(d, Key(x.host, FS_READONLY, m)) == Idle
    else if disks == [] then SamePhases(db, d, x.host, FS_READONLY)
    else forall m :: var k := Key(x.host, FS_READONLY, m);
      PhaseAt(d, k) ==
        if Listed(disks, m)
        then ConditionStep(PhaseAt(db, k), x.now,
                           ReadOnlyCondition(LastOf(disks, m), PhaseAt(db, k).Firing?,
                                             KnownStates(PreviousDisks(x.history)), rule))
        else Idle
  }

  ghost predicate KindSettled(x: Evaluation, db: Db, d: Db, kind: string) {
    if Measured(kind) then MeasuredSettled(x, db, d, kind)
    else if kind == DISK then DisksSettled(x, db, d)
    else if kind == DISK_MISSING then MissingSettled(x, db, d)
    else if kind == FS_READONLY then ReadOnlySettled(x, db, d)
    else !PhaseAt(d, Key(x.host, HOST_OFFLINE, "")).Firing?
  }

  /** What a report settles of a kind depends on the phases of that kind only. */
  lemma SettledLocally(x: Evaluation, db: Db, db': Db, d: Db, d': Db, kind: string)
    requires kind in KINDS && KindSettled(x, db', d, kind) && SamePhases(db, db', x.host, kind)
             && SamePhases(d, d', x.host, kind)
    ensures KindSettled(x, db, d', kind)
  {
    LevelsOfPhases(d, d', x.host, kind);
    hide PhaseAt;
    hide FiringLevel;
    assert forall s: string :: PhaseAt(db', Key(x.host, kind, s)) == PhaseAt(db, Key(x.host, kind, s));
    assert forall s: string :: PhaseAt(d', Key(x.host, kind, s)) == PhaseAt(d, Key(x.host, kind, s));
  }

  lemma LevelsOfPhases(db: Db, d: Db, host: int, kind: string)
    requires SamePhases(db, d, host, kind)
    ensures forall s: string :: FiringLevel(d, Key(host, kind, s)) == FiringLevel(db, Key(host, kind, s))
  {
    forall s: string ensures FiringLevel(d, Key(host, kind, s)) == FiringLevel(db, Key(host, kind, s)) {
      assert PhaseAt(d, Key(host, kind, s)) == PhaseAt(db, Key(host, kind, s));
    }
  }

  /** Nothing changes for keys of other hosts or of kinds outside the set. */
  ghost predicate OnlyKinds(db: Db, d: Db, host: int, kinds: set<string>) {
    forall k: Key :: k.host != host || k.kind !in kinds ==> Same(db, d, k)
  }

  ghost predicate AllSettled(x: Evaluation, db: Db, d: Db, kinds: set<string>) {
    forall kind :: kind in kinds ==> KindSettled(x, db, d, kind)
  }

  lemma UntouchedPhases(db: Db, d: Db, host: int, kinds: set<string>, kind: string)
    requires OnlyKinds(db, d, host, kinds) && kind !in kinds
    ensures SamePhases(db, d, host, kind)
  {
    forall s: string ensures PhaseAt(d, Key(host, kind, s)) == PhaseAt(db, Key(host, kind, s)) {
      assert Same(db, d, Key(host, kind, s));
    }
  }

  lemma OneMoreKind(x: Evaluation, db: Db, d: Db, e: Db, kinds: set<string>, kind: string)
    requires OnlyKinds(db, d, x.host, kinds) && OnlyKind(d, e, x.host, kind) && kind in KINDS - kinds && kinds <= KINDS
    ensures OnlyKinds(db, e, x.host, kinds + {kind})
    ensures AllSettled(x, db, d, kinds) && KindSettled(x, d, e, kind) ==> AllSettled(x, db, e, kinds + {kind})
  {
    hide KindSettled;
    hide PhaseAt;
    forall k: Key | k.host != x.host || k.kind !in kinds + {kind} ensures Same(db, e, k) {
      assert Same(db, d, k) && Same(d, e, k);
    }
    if AllSettled(x, db, d, kinds) && KindSettled(x, d, e, kind) {
      forall other | other in kinds + {kind} ensures KindSettled(x, db, e, other) {
        if other == kind {
          UntouchedPhases(db, d, x.host, kinds, kind);
          assert SamePhases(e, e, x.host, kind);
          SettledLocally(x, db, d, e, e, kind);
        } else {
          assert OnlyKinds(d, e, x.host, {kind});
          UntouchedPhases(d, e, x.host, {kind}, other);
          assert SamePhases(db, db, x.host, other);
          SettledLocally(x, db, db, d, e, other);
        }
      }
    }
  }

  /** Every subject of the kind has been told of by the rules; a mount listed twice in one report is judged twice and
      may be told of twice. */
  ghost predicate KindReported(env: Env, disks: seq<Disk>, db: Db, d: Db, host: int, kind: string) {
    forall s: string :: var k := Key(host, kind, s); (kind == DISK ==> ListedOnce(disks, s)) ==> Told(env, db, d, k)
  }

  ghost predicate AllReported(env: Env, disks: seq<Disk>, db: Db, d: Db, host: int, kinds: set<string>) {
    forall kind :: kind in kinds ==> KindReported(env, disks, db, d, host, kind)
  }

  lemma ToldIsReported(env: Env, disks: seq<Disk>, db: Db, d: Db, host: int, kind: string)
    requires KindTold(env, db, d, host, kind, {})
    ensures KindReported(env, disks, db, d, host, kind)
  {
    hide Told;
    hide ListedOnce;
  }

  lemma ReportedOneMoreKind(env: Env, disks: seq<Disk>, db: Db, d: Db, e: Db, host: int, kinds: set<string>,
                            kind: string)
    requires OnlyKinds(db, d, host, kinds) && OnlyKind(d, e, host, kind) && kind !in kinds
    requires AllReported(env, disks, db, d, host, kinds) && KindReported(env, disks, d, e, host, kind)
    ensures AllReported(env, disks, db, e, host, kinds + {kind})
  {
    hide Told;
    hide Same;
    hide ListedOnce;
    forall other, s: string | other in kinds + {kind} && (other == DISK ==> ListedOnce(disks, s))
      ensures Told(env, db, e, Key(host, other, s)) {
      var k := Key(host, other, s);
      SameTold(env, db, d, e, k);
      if other == kind {
        assert Same(db, d, k) && Told(env, d, e, k);
      } else {
        assert KindReported(env, disks, db, d, host, other);
        assert Told(env, db, d, k) && Same(d, e, k);
      }
    }
  }

  /** A change of the one subject of a host-wide kind. */
  lemma OneSubjectTold(env: Env, disks: seq<Disk>, db: Db, d: Db, host: int, kind: string)
    requires SameBut(db, d, Key(host, kind, "")) && Told(env, db, d, Key(host, kind, ""))
    ensures KindReported(env, disks, db, d, host, kind)
  {
    hide Told;
    hide Same;
    hide ListedOnce;
    forall s: string ensures Told(env, db, d, Key(host, kind, s)) {
      var k := Key(host, kind, s);
      SameTold(env, db, d, d, k);
      assert s != "" ==> Same(db, d, k);
    }
  }

  lemma NothingReported(env: Env, disks: seq<Disk>, db: Db, host: int, kind: string)
    ensures KindReported(env, disks, db, db, host, kind) && AllReported(env, disks, db, db, host, {})
  {
    NothingToldYet(env, db, host, kind, {});
    ToldIsReported(env, disks, db, db, host, kind);
  }

  /** No two kinds share a name. */
  lemma DistinctKinds()
    ensures forall i, j :: 0 <= i < j < |ORDER| ==> ORDER[i] != ORDER[j]
  {
    assert CPU[0] != RAM[0];
    assert HOST_OFFLINE[0] != DISK_MISSING[0] && DISK_MISSING[5] != DISK_LATENCY[5];
    assert FS_READONLY[0] != TEMPERATURE[0];
  }

  /** The kinds settled by the first n evaluations. */
  ghost function FirstKinds(n: nat): set<string>
    requires n <= |ORDER|
  {
    set i | 0 <= i < n :: ORDER[i]
  }

  lemma FirstAndLast()
    ensures FirstKinds(0) == {} && FirstKinds(|ORDER|) == KINDS
  {
    assert ORDER[0] == HOST_OFFLINE && ORDER[1] == CPU && ORDER[2] == RAM && ORDER[3] == DISK;
    assert ORDER[4] == DISK_MISSING && ORDER[5] == FS_READONLY && ORDER[6] == DISK_LATENCY && ORDER[7] == TEMPERATURE;
    forall i | 0 <= i < |ORDER| ensures ORDER[i] in FirstKinds(|ORDER|) {
    }
  }

  lemma SettleNext(x: Evaluation, env: Env, db: Db, d: Db, e: Db, n: nat)
    requires n < |ORDER| && OnlyKinds(db, d, x.host, FirstKinds(n)) && OnlyKind(d, e, x.host, ORDER[n])
    ensures OnlyKinds(db, e, x.host, FirstKinds(n + 1))
    ensures AllSettled(x, db, d, FirstKinds(n)) && KindSettled(x, d, e, ORDER[n]) ==>
              AllSettled(x, db, e, FirstKinds(n + 1))
    ensures var disks := x.report.disks;
            AllReported(env, disks, db, d, x.host, FirstKinds(n))
            && KindReported(env, disks, d, e, x.host, ORDER[n]) ==>
              AllReported(env, disks, db, e, x.host, FirstKinds(n + 1))
  {
    hide OnlyKinds;
    hide OnlyKind;
    hide AllSettled;
    hide KindSettled;
    hide KindReported;
    hide AllReported;
    DistinctKinds();
    assert FirstKinds(n + 1) == FirstKinds(n) + {ORDER[n]};
    assert forall i :: 0 <= i < |ORDER| ==> ORDER[i] in KINDS;
    if AllReported(env, x.report.disks, db, d, x.host, FirstKinds(n))
       && KindReported(env, x.report.disks, d, e, x.host, ORDER[n]) {
      ReportedOneMoreKind(env, x.report.disks, db, d, e, x.host, FirstKinds(n), ORDER[n]);
    }
    OneMoreKind(x, db, d, e, FirstKinds(n), ORDER[n]);
  }

  lemma JudgedBy(c: Config, r: Report)
    ensures ThresholdsOf(c, CPU) == SubjectThresholds(c.cpu, map[]) && ValuesOf(r, CPU) == Some(map["" := r.cpuPct])
    ensures ThresholdsOf(c, RAM) == SubjectThresholds(c.ram, map[]) && ValuesOf(r, RAM) == Some(map["" := r.ramPct])
    ensures ThresholdsOf(c, DISK_LATENCY) == c.latency && ValuesOf(r, DISK_LATENCY) == r.latency
    ensures ThresholdsOf(c, TEMPERATURE) == c.temperature && ValuesOf(r, TEMPERATURE) == r.temperature
  {
    DistinctKinds();
  }

  lemma NothingSettled(x: Evaluation, db: Db)
    ensures AllSettled(x, db, db, {}) && OnlyKinds(db, db, x.host, {}) && OnlyKinds(db, db, x.host, KINDS)
  {
  }

  // ---- the evaluations, in the order in which they run; x records what is judged

  /** A report ends the silence of its host. */
  method EndSilence(e: Engine, st: HostState, ghost x: Evaluation)
    requires e.InStep(st) && x.host == st.host && x.now == e.now
    modifies e.store, st`active, st`pending
    ensures e.InStep(st) && OnlyKind(old(e.store.db), e.store.db, st.host, HOST_OFFLINE)
    ensures !e.store.faulty ==> KindSettled(x, old(e.store.db), e.store.db, HOST_OFFLINE)
    ensures !e.store.faulty ==> KindReported(e.env, x.report.disks, old(e.store.db), e.store.db, st.host, HOST_OFFLINE)
    ensures !e.store.faulty && Exclusive(old(e.store.db)) ==> Exclusive(e.store.db)
    ensures e.Calm() && Sound(old(e.store.db)) ==> Sound(e.store.db)
  {
    hide Valid;
    hide Sound;
    hide Exclusive;
    hide Same;
    hide SameBut;
    hide Told;
    hide KindTold;
    hide KindReported;
    ghost var db0 := e.store.db;
    SameAsItself(db0);
    NothingReported(e.env, x.report.disks, db0, st.host, HOST_OFFLINE);
    var k := Key(st.host, HOST_OFFLINE, "");
    if k in st.active {
      e.Drop(st, k, None, None);
      if !e.store.faulty {
        OneSubjectTold(e.env, x.report.disks, db0, e.store.db, st.host, HOST_OFFLINE);
      }
      OnlyKindStep(db0, db0, e.store.db, k);
    } else if !e.store.faulty {
      assert Complete(st.active, st.pending, e.store.db, k);
    }
  }

  /** A host-wide metric: without a threshold its alert is closed. */
  method Evaluate(e: Engine, st: HostState, ghost x: Evaluation, kind: string, value: real,
                  threshold: Option<Threshold>)
    requires e.InStep(st) && x.host == st.host && x.now == e.now && HostWide(kind)
    requires ThresholdsOf(x.config, kind) == SubjectThresholds(threshold, map[])
             && ValuesOf(x.report, kind) == Some(map["" := value])
    modifies e.store, st`active, st`pending
    ensures e.InStep(st) && OnlyKind(old(e.store.db), e.store.db, st.host, kind)
    ensures !e.store.faulty ==> KindSettled(x, old(e.store.db), e.store.db, kind)
    ensures !e.store.faulty ==> KindReported(e.env, x.report.disks, old(e.store.db), e.store.db, st.host, kind)
    ensures !e.store.faulty && Exclusive(old(e.store.db)) ==> Exclusive(e.store.db)
    ensures e.Calm() && Sound(old(e.store.db)) ==> Sound(e.store.db)
  {
    hide Valid;
    hide Sound;
    hide Exclusive;
    hide Backed;
    hide Complete;
    hide Told;
    hide KindTold;
    hide KindReported;
    if threshold.None? {
      ghost var before := e.store.db;
      Reconcile(e, st, kind, map[], true);
      if !e.store.faulty {
        ToldIsReported(e.env, x.report.disks, before, e.store.db, st.host, kind);
      }
      return;
    }
    ghost var db0, k := e.store.db, Key(st.host, kind, "");
    SameAsItself(db0);
    e.ApplyThreshold(st, Key(st.host, kind, ""), value, threshold.value);
    if !e.store.faulty {
      OneSubjectTold(e.env, x.report.disks, db0, e.store.db, st.host, kind);
    }
    OnlyKindStep(db0, db0, e.store.db, k);
    forall s: string | s != ""
        ensures PhaseAt(e.store.db, Key(st.host, kind, s)) == PhaseAt(db0, Key(st.host, kind, s)) {
      assert Same(db0, e.store.db, Key(st.host, kind, s));
    }
  }

  /** Disk usage; without any disk threshold its alerts are closed even by a report without disks. */
  method EvaluateUsage(e: Engine, st: HostState, ghost x: Evaluation, c: Config, disks: seq<Disk>)
    requires e.InStep(st) && x.host == st.host && x.now == e.now && Instant(c.disk)
    requires x.config == c && x.report.disks == disks
    modifies e.store, st`active, st`pending
    ensures e.InStep(st) && OnlyKind(old(e.store.db), e.store.db, st.host, DISK)
    ensures !e.store.faulty ==> KindSettled(x, old(e.store.db), e.store.db, DISK)
    ensures !e.store.faulty ==> KindReported(e.env, x.report.disks, old(e.store.db), e.store.db, st.host, DISK)
    ensures !e.store.faulty && Exclusive(old(e.store.db)) ==> Exclusive(e.store.db)
    ensures e.Calm() && Sound(old(e.store.db)) ==> Sound(e.store.db)
  {
    hide Told;
    hide KindTold;
    hide KindReported;
    ghost var db0 := e.store.db;
    SameAsItself(db0);
    NothingReported(e.env, disks, db0, st.host, DISK);
    if c.disk.Empty() {
      ResolveAll(e, st, DISK);
      if !e.store.faulty {
        ToldIsReported(e.env, disks, db0, e.store.db, st.host, DISK);
      }
      return;
    }
    if disks != [] {
      EvaluateDisks(e, st, disks, c.allMounts, c.selection, c.disk);
      if !e.store.faulty {
        UsageReported(e.env, disks, db0, e.store.db, st.host);
      }
    }
  }

  lemma UsageReported(env: Env, disks: seq<Disk>, db: Db, d: Db, host: int)
    requires forall m :: ListedOnce(disks, m) ==> Told(env, db, d, Key(host, DISK, m))
    ensures KindReported(env, disks, db, d, host, DISK)
  {
    hide Told;
    hide ListedOnce;
  }

  /** Mounts that vanish, judged with the reports stored up to this one. */
  method EvaluateMissing(e: Engine, st: HostState, ghost x: Evaluation, c: Config, history: seq<Report>,
                         disks: seq<Disk>)
    requires e.InStep(st) && x.host == st.host && x.now == e.now && !st.partial
    requires x.config == c && x.history == history && x.report.disks == disks
    modifies e.store, st`active, st`pending, st`partial
    ensures e.InStep(st) && OnlyKind(old(e.store.db), e.store.db, st.host, DISK_MISSING)
    ensures !e.store.faulty ==> KindSettled(x, old(e.store.db), e.store.db, DISK_MISSING)
    ensures !e.store.faulty ==> KindReported(e.env, x.report.disks, old(e.store.db), e.store.db, st.host, DISK_MISSING)
    ensures !e.store.faulty && Exclusive(old(e.store.db)) ==> Exclusive(e.store.db)
    ensures e.Calm() && Sound(old(e.store.db)) ==> Sound(e.store.db)
  {
    hide Told;
    hide KindTold;
    hide KindReported;
    ghost var db0 := e.store.db;
    SameAsItself(db0);
    NothingReported(e.env, disks, db0, st.host, DISK_MISSING);
    if disks != [] {
      EvaluateMissingMounts(e, st, disks, c.allMounts, c.selection, c.disk, MountHistory(history) + [Mounted(disks)]);
      if !e.store.faulty {
        ToldIsReported(e.env, disks, db0, e.store.db, st.host, DISK_MISSING);
      }
    }
  }

  /** File systems that turn read-only, judged with the report before this one. */
  method EvaluateStates(e: Engine, st: HostState, ghost x: Evaluation, c: Config, history: seq<Report>,
                        disks: seq<Disk>)
    requires e.InStep(st) && x.host == st.host && x.now == e.now
    requires x.config == c && x.history == history && x.report.disks == disks
    modifies e.store, st`active, st`pending
    ensures e.InStep(st) && OnlyKind(old(e.store.db), e.store.db, st.host, FS_READONLY)
    ensures !e.store.faulty ==> KindSettled(x, old(e.store.db), e.store.db, FS_READONLY)
    ensures !e.store.faulty ==> KindReported(e.env, x.report.disks, old(e.store.db), e.store.db, st.host, FS_READONLY)
    ensures !e.store.faulty && Exclusive(old(e.store.db)) ==> Exclusive(e.store.db)
    ensures e.Calm() && Sound(old(e.store.db)) ==> Sound(e.store.db)
  {
    hide Told;
    hide KindTold;
    hide KindReported;
    ghost var db0 := e.store.db;
    EvaluateReadOnly(e, st, disks, PreviousDisks(history), c.readOnly);
    if !e.store.faulty {
      ToldIsReported(e.env, disks, db0, e.store.db, st.host, FS_READONLY);
    }
  }

  /** Values per subject. */
  method EvaluateNumeric(e: Engine, st: HostState, ghost x: Evaluation, kind: string, thresholds: SubjectThresholds,
                         values: Option<map<string, real>>)
    requires e.InStep(st) && x.host == st.host && x.now == e.now && kind in {DISK_LATENCY, TEMPERATURE}
    requires ThresholdsOf(x.config, kind) == thresholds && ValuesOf(x.report, kind) == values
    modifies e.store, st`active, st`pending
    ensures e.InStep(st) && OnlyKind(old(e.store.db), e.store.db, st.host, kind)
    ensures !e.store.faulty ==> KindSettled(x, old(e.store.db), e.store.db, kind)
    ensures !e.store.faulty ==> KindReported(e.env, x.report.disks, old(e.store.db), e.store.db, st.host, kind)
    ensures !e.store.faulty && Exclusive(old(e.store.db)) ==> Exclusive(e.store.db)
    ensures e.Calm() && Sound(old(e.store.db)) ==> Sound(e.store.db)
  {
    hide Told;
    hide KindTold;
    hide KindReported;
    ghost var db0 := e.store.db;
    N.EvaluateSubjects(e, st, kind, thresholds, values);
    if !e.store.faulty {
      ToldIsReported(e.env, x.report.disks, db0, e.store.db, st.host, kind);
    }
  }

  /** One report settles every kind by its own rule, whatever the other kinds do; alerts of other hosts and kinds are as
      they were. */
  method EvaluateReport(e: Engine, host: int, c: Config, history: seq<Report>, r: Report)
    requires Valid(e.store.db) && Instant(c.disk)
    modifies e.store
    ensures Valid(e.store.db) && OnlyKinds(old(e.store.db), e.store.db, host, KINDS)
    ensures !e.store.faulty ==> AllSettled(Evaluation(host, c, history, r, e.now), old(e.store.db), e.store.db, KINDS)
    ensures !e.store.faulty ==> AllReported(e.env, r.disks, old(e.store.db), e.store.db, host, KINDS)
    ensures !e.store.faulty && Exclusive(old(e.store.db)) ==> Exclusive(e.store.db)
    ensures e.Calm() && Sound(old(e.store.db)) ==> Sound(e.store.db)
  {
    hide Valid;
    hide Told;
    hide KindReported;
    hide AllReported;
    hide Sound;
    hide Exclusive;
    hide OnlyKind;
    hide OnlyKinds;
    hide KindSettled;
    hide AllSettled;
    hide Backed;
    hide Complete;
    hide Instant;
    hide PhaseAt;
    hide Same;
    hide SamePhases;
    hide ThresholdsOf;
    hide ValuesOf;
    hide FirstKinds;
    ghost var x := Evaluation(host, c, history, r, e.now);
    ghost var db0 := e.store.db;
    NothingReported(e.env, r.disks, db0, host, CPU);
    NothingSettled(x, db0);
    FirstAndLast();
    JudgedBy(c, r);
    var st := e.LoadState(host);
    if st == null {
      return;
    }
    ghost var d := db0;
    EndSilence(e, st, x);
    SettleNext(x, e.env, db0, d, e.store.db, 0);
    d := e.store.db;
    Evaluate(e, st, x, CPU, r.cpuPct, c.cpu);
    SettleNext(x, e.env, db0, d, e.store.db, 1);
    d := e.store.db;
    Evaluate(e, st, x, RAM, r.ramPct, c.ram);
    SettleNext(x, e.env, db0, d, e.store.db, 2);
    d := e.store.db;
    EvaluateUsage(e, st, x, c, r.disks);
    SettleNext(x, e.env, db0, d, e.store.db, 3);
    d := e.store.db;
    EvaluateMissing(e, st, x, c, history, r.disks);
    SettleNext(x, e.env, db0, d, e.store.db, 4);
    d := e.store.db;
    EvaluateStates(e, st, x, c, history, r.disks);
    SettleNext(x, e.env, db0, d, e.store.db, 5);
    d := e.store.db;
    EvaluateNumeric(e, st, x, DISK_LATENCY, c.latency, r.latency);
    SettleNext(x, e.env, db0, d, e.store.db, 6);
    d := e.store.db;
    EvaluateNumeric(e, st, x, TEMPERATURE, c.temperature, r.temperature);
    SettleNext(x, e.env, db0, d, e.store.db, 7);
    d := e.store.db;
  }
}

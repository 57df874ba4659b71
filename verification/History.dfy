/** Under a fixed configuration the alerts of a host are functions of the reports it has sent. */
module History {
  import opened AlertDb
  import opened Conditions
  import opened Deferred
  import opened Engine
  import opened Lifecycle
  import opened Mounts
  import opened Options
  import opened Reports

  /** A report, when it was judged, and the tables before and after. */
  datatype Round = Round(report: Report, now: int, before: Db, after: Db)

  function ReportsOf(rounds: seq<Round>): (reports: seq<Report>)
    ensures |reports| == |rounds| && forall i :: 0 <= i < |rounds| ==> reports[i] == rounds[i].report
  {
    seq(|rounds|, i requires 0 <= i < |rounds| => rounds[i].report)
  }

  lemma ReportsGrow(rounds: seq<Round>)
    requires rounds != []
    ensures var n := |rounds| - 1;
            ReportsOf(rounds)[..n] == ReportsOf(rounds[..n]) && ReportsOf(rounds)[n] == rounds[n].report
  {
  }

  /** The phase of a key after the reports; every key is idle at first. */
  function Now(rounds: seq<Round>, k: Key): Phase {
    if rounds == [] then Idle else PhaseAt(rounds[|rounds| - 1].after, k)
  }

  /** Between two reports of the host none of its keys moves, except that it may be found offline; every report settles
      every kind as EvaluateReport promises. */
  ghost predicate Reported(host: int, c: Config, rounds: seq<Round>) {
    rounds == [] ||
    var init, last := rounds[..|rounds| - 1], rounds[|rounds| - 1];
    && Reported(host, c, init)
    && (forall k: Key :: k.host == host && k.kind != HOST_OFFLINE ==> PhaseAt(last.before, k) == Now(init, k))
    && AllSettled(Evaluation(host, c, ReportsOf(init), last.report, last.now), last.before, last.after, KINDS)
  }

  lemma FlushKeepsPhase(db: Db, env: Env, n: nat, k: Key)
    requires Valid(db)
    ensures PhaseAt(Flushed(db, env, n), k) == PhaseAt(db, k)
  {
    FlushExact(db, env, n);
    if k in db.active {
      var id := db.active[k];
      var a := Flushed(db, env, n).alerts[id];
      assert a == if 0 <= id < n then Cleared(db, env, id) else db.alerts[id];
      assert a.level == db.alerts[id].level;
    }
  }

  lemma AcknowledgedKeepsPhase(db: Db, id: int, user: int, k: Key)
    requires Valid(db)
    ensures PhaseAt(Apply(db, Acknowledge(id, user)), k) == PhaseAt(db, k)
  {
  }

  /** Acknowledgements, flushes of deferred notifications and reports of other hosts move no key of the host. */
  lemma RestsBetweenReports(db: Db, d: Db, k: Key)
    requires Valid(db)
    requires || (exists id, user :: d == Apply(db, Acknowledge(id, user)))
             || (exists env, n :: d == Flushed(db, env, n))
             || (exists other :: other != k.host && OnlyKinds(db, d, other, KINDS))
    ensures PhaseAt(d, k) == PhaseAt(db, k)
  {
    hide Messages;
    hide Flushed;
    if id, user :| d == Apply(db, Acknowledge(id, user)) {
      AcknowledgedKeepsPhase(db, id, user, k);
    } else if env, n :| d == Flushed(db, env, n) {
      FlushKeepsPhase(db, env, n, k);
    } else {
      assert Same(db, d, k);
    }
  }

  // ---- disk usage

  /** The disks of the last report that listed any. */
  function LastDisks(reports: seq<Report>): seq<Disk> {
    if reports == [] then []
    else if reports[|reports| - 1].disks != [] then reports[|reports| - 1].disks
    else LastDisks(reports[..|reports| - 1])
  }

  function LevelOf(phase: Phase): Option<Level> { if phase.Firing? then Some(phase.level) else None }

  /** A disk alert shows the level of its mount in the last report that listed disks: selected, with a threshold, at or
      above it. */
  lemma {:induction false} UsageFold(host: int, c: Config, rounds: seq<Round>, m: string)
    requires Reported(host, c, rounds)
    ensures LevelOf(Now(rounds, Key(host, DISK, m)))
            == UsageLevel(LastDisks(ReportsOf(rounds)), c.allMounts, c.selection, c.disk, m)
  {
    if rounds != [] {
      var n, k := |rounds| - 1, Key(host, DISK, m);
      UsageFold(host, c, rounds[..n], m);
      ReportsGrow(rounds);
      var x := Evaluation(host, c, ReportsOf(rounds[..n]), rounds[n].report, rounds[n].now);
      assert KindSettled(x, rounds[n].before, rounds[n].after, DISK);
      assert LevelOf(Now(rounds, k)) == FiringLevel(rounds[n].after, k);
      assert PhaseAt(rounds[n].before, k) == Now(rounds[..n], k);
    }
  }

  /** A threshold for one subject, or that for all. */
  ghost function ThresholdOf(t: SubjectThresholds, s: string): Option<Threshold> {
    if s in t.perSubject then Some(t.perSubject[s]) else t.base
  }

  ghost predicate LastToList(rounds: seq<Round>, n: int) {
    0 <= n < |rounds| && rounds[n].report.disks != [] && forall j :: n < j < |rounds| ==> rounds[j].report.disks == []
  }

  /** The mount is listed, selected and has a threshold, and where it is listed last it reads at or above it. */
  ghost predicate ReadsHigh(c: Config, disks: seq<Disk>, m: string, i: int) {
    && LastListed(disks, m, i) && (c.allMounts || m in c.selection) && ThresholdOf(c.disk, m).Some?
    && var t := ThresholdOf(c.disk, m).value; disks[i].usedPct >= t.warning || disks[i].usedPct >= t.critical
  }

  /** A disk alert is active exactly when its mount reads high in the last report that listed disks; its level is
      critical exactly when it reaches the critical threshold there. */
  lemma UsageFollows(host: int, c: Config, rounds: seq<Round>, m: string)
    requires Reported(host, c, rounds)
    ensures var phase := Now(rounds, Key(host, "disk", m));
            && (phase.Firing? <==> exists n, i :: LastToList(rounds, n) && ReadsHigh(c, rounds[n].report.disks, m, i))
            && (forall n, i :: LastToList(rounds, n) && ReadsHigh(c, rounds[n].report.disks, m, i) && phase.Firing? ==>
                  phase.level == if rounds[n].report.disks[i].usedPct >= ThresholdOf(c.disk, m).value.critical
                                 then Critical else Warning)
  {
    UsageFold(host, c, rounds, m);
    LastDisksExact(rounds);
    hide PhaseAt;
    hide LastDisks;
    var disks := LastDisks(ReportsOf(rounds));
    LevelInDisks(c, disks, m);
    hide UsageLevel;
    hide ReadsHigh;
    hide LastToList;
    if n :| LastToList(rounds, n) {
      assert rounds[n].report.disks == disks;
    } else {
      NoDisks(c, m);
    }
  }

  lemma NoDisks(c: Config, m: string)
    ensures UsageLevel([], c.allMounts, c.selection, c.disk, m) == None
  {
  }

  lemma {:induction false} LastDisksExact(rounds: seq<Round>)
    ensures forall n :: LastToList(rounds, n) ==> rounds[n].report.disks == LastDisks(ReportsOf(rounds))
    ensures (forall n :: !LastToList(rounds, n)) ==> LastDisks(ReportsOf(rounds)) == []
  {
    if rounds != [] {
      var k := |rounds| - 1;
      LastDisksExact(rounds[..k]);
      ReportsGrow(rounds);
      var last := rounds[k].report.disks;
      assert LastDisks(ReportsOf(rounds)) == if last != [] then last else LastDisks(ReportsOf(rounds[..k]));
      hide LastDisks;
      hide ReportsOf;
      if last == [] {
        forall n ensures LastToList(rounds, n) <==> LastToList(rounds[..k], n) {
        }
      } else {
        assert LastToList(rounds, k);
      }
    }
  }

  lemma LevelInDisks(c: Config, disks: seq<Disk>, m: string)
    ensures var level := UsageLevel(disks, c.allMounts, c.selection, c.disk, m);
            && (level.Some? <==> exists i :: ReadsHigh(c, disks, m, i))
            && (forall i :: ReadsHigh(c, disks, m, i) ==>
                  level == Some(if disks[i].usedPct >= ThresholdOf(c.disk, m).value.critical
                                then Critical else Warning))
  {
    if Listed(disks, m) {
      var i := LastIndex(disks, m);
      assert forall j :: LastListed(disks, m, j) ==> j == i;
      assert ReadsHigh(c, disks, m, i) <==> UsageLevel(disks, c.allMounts, c.selection, c.disk, m).Some?;
    } else {
      forall j ensures !LastListed(disks, m, j) {
        if 0 <= j < |disks| {
          assert disks[j] in disks;
        }
      }
    }
  }

  // ---- missing mounts

  /** The last k reports that listed disks did not list the mount. */
  ghost predicate GoneFor(rounds: seq<Round>, m: string, k: nat) {
    k == 0 ||
    (rounds != [] &&
     var disks, init := rounds[|rounds| - 1].report.disks, rounds[..|rounds| - 1];
     if disks == [] then GoneFor(init, m, k) else (forall d :: d in disks ==> d.mount != m) && GoneFor(init, m, k - 1))
  }

  /** A mount is reported missing exactly when it is expected and gone from the last three reports that listed disks;
      its alert is critical. */
  lemma MissingFollows(host: int, c: Config, rounds: seq<Round>, m: string)
    requires Reported(host, c, rounds)
    ensures var phase := Now(rounds, Key(host, "disk_missing", m));
            && (phase.Firing? <==> && (if c.allMounts then m in c.disk.perSubject else m in c.selection)
                                   && GoneFor(rounds, m, 3))
            && (phase.Firing? ==> phase.level == Critical)
  {
    MissingFold(host, c, rounds, m);
    MissingClosedForm(MountHistory(ReportsOf(rounds)), Expected(c, m), m);
    GoneForExact(rounds, m, 3);
  }

  lemma {:induction false} GoneForExact(rounds: seq<Round>, m: string, k: nat)
    ensures var mounts := MountHistory(ReportsOf(rounds));
            GoneFor(rounds, m, k)
            <==> |mounts| >= k && forall i :: |mounts| - k <= i < |mounts| ==> m !in mounts[i]
  {
    if k > 0 && rounds != [] {
      var n := |rounds| - 1;
      ReportsGrow(rounds);
      var disks := rounds[n].report.disks;
      GoneForExact(rounds[..n], m, if disks == [] then k else k - 1);
      var mounts, init := MountHistory(ReportsOf(rounds)), MountHistory(ReportsOf(rounds[..n]));
      if disks != [] {
        assert mounts == init + [Mounted(disks)] && mounts[|init|] == Mounted(disks);
        assert |mounts| - k == |init| - (k - 1);
        assert m in Mounted(disks) <==> exists d :: d in disks && d.mount == m;
        assert forall i :: 0 <= i < |init| ==> mounts[i] == init[i];
      }
    }
  }

  /** What one report does to the alert of a mount. */
  lemma MissingMove(x: Evaluation, db: Db, d: Db, m: string)
    requires KindSettled(x, db, d, DISK_MISSING)
    ensures var k := Key(x.host, DISK_MISSING, m);
            PhaseAt(d, k).Firing? <==>
            if x.report.disks == [] then PhaseAt(db, k).Firing?
            else MissingStep(PhaseAt(db, k).Firing?, Expected(x.config, m),
                             MountHistory(x.history) + [Mounted(x.report.disks)], m)
    ensures var k := Key(x.host, DISK_MISSING, m);
            PhaseAt(d, k).Firing? ==>
              PhaseAt(d, k) == if PhaseAt(db, k).Firing? then PhaseAt(db, k) else Firing(Critical)
  {
    hide MissingStep;
    hide PhaseAt;
    hide Expected;
    hide Mounted;
    NotMeasured();
  }

  lemma NotMeasured()
    ensures !Measured(DISK_MISSING) && DISK_MISSING != DISK
  {
    DistinctKinds();
    assert ORDER[1] != ORDER[4] && ORDER[2] != ORDER[4] && ORDER[3] != ORDER[4] && ORDER[4] != ORDER[6]
           && ORDER[4] != ORDER[7];
  }

  lemma {:induction false} MissingFold(host: int, c: Config, rounds: seq<Round>, m: string)
    requires Reported(host, c, rounds)
    ensures Now(rounds, Key(host, DISK_MISSING, m)).Firing?
            <==> MissingAfter(MountHistory(ReportsOf(rounds)), Expected(c, m), m)
    ensures var phase := Now(rounds, Key(host, DISK_MISSING, m)); phase.Firing? ==> phase.level == Critical
  {
    hide MissingStep;
    hide KindSettled;
    hide PhaseAt;
    hide Expected;
    hide Mounted;
    if rounds != [] {
      var n, k := |rounds| - 1, Key(host, DISK_MISSING, m);
      var init, last := rounds[..n], rounds[n];
      MissingFold(host, c, init, m);
      ReportsGrow(rounds);
      var x := Evaluation(host, c, ReportsOf(init), last.report, last.now);
      MissingMove(x, last.before, last.after, m);
      assert PhaseAt(last.before, k) == Now(init, k);
      if last.report.disks != [] {
        var mounts := MountHistory(ReportsOf(rounds));
        assert mounts[..|mounts| - 1] == MountHistory(ReportsOf(init));
      }
    }
  }

  // ---- file systems that turn read-only

  ghost predicate StatesKnown(rounds: seq<Round>, m: string, states: seq<bool>) {
    |states| == |rounds| && forall i :: 0 <= i < |rounds| ==> StateIn(rounds[i].report.disks, m, states[i])
  }

  /** With an instant rule and the mount's state known in every report, its alert is active exactly when the mount is
      read-only now and was writable in some earlier report. */
  lemma {:induction false} ReadOnlyFollows(host: int, c: Config, rounds: seq<Round>, m: string, states: seq<bool>)
    requires Reported(host, c, rounds) && StatesKnown(rounds, m, states)
    requires c.readOnly.level.Some? && c.readOnly.seconds.None?
    ensures var phase := Now(rounds, Key(host, "fs_readonly", m));
            && (phase.Firing? <==> states != [] && states[|states| - 1] && exists i :: 0 <= i < |states| && !states[i])
            && (phase.Firing? ==> Some(phase.level) == c.readOnly.level)
  {
    ReadOnlyFold(host, c, rounds, m, states);
    ReadOnlyClosedForm(states);
  }

  /** What one report that knows the state of a mount does to its alert. */
  lemma ReadOnlyMove(x: Evaluation, db: Db, d: Db, m: string, readOnly: bool)
    requires AllSettled(x, db, d, KINDS) && StateIn(x.report.disks, m, readOnly)
    requires x.config.readOnly.level.Some? && x.config.readOnly.seconds.None?
    ensures var k, previous := Key(x.host, FS_READONLY, m), KnownStates(PreviousDisks(x.history));
            var was := PhaseAt(db, k).Firing?;
            && (PhaseAt(d, k).Firing? <==> if was || (m in previous && !previous[m]) then readOnly
                                           else false)
            && (PhaseAt(d, k).Firing? ==> Some(PhaseAt(d, k).level) == x.config.readOnly.level)
  {
    hide PhaseAt;
    DistinctKinds();
    assert KindSettled(x, db, d, FS_READONLY);
    assert LastOf(x.report.disks, m).readOnly == Some(readOnly);
    hide LastOf;
    hide KnownStates;
  }

  lemma {:induction false} ReadOnlyFold(host: int, c: Config, rounds: seq<Round>, m: string, states: seq<bool>)
    requires Reported(host, c, rounds) && StatesKnown(rounds, m, states)
    requires c.readOnly.level.Some? && c.readOnly.seconds.None?
    ensures var phase := Now(rounds, Key(host, FS_READONLY, m));
            (phase.Firing? <==> ReadOnlyAfter(states)) && (phase.Firing? ==> Some(phase.level) == c.readOnly.level)
  {
    hide PhaseAt;
    hide KindSettled;
    hide AllSettled;
    hide KnownStates;
    hide StatesKnown;
    hide StateIn;
    if rounds == [] {
      NoStates(rounds, m, states);
    } else {
      var n, k := |rounds| - 1, Key(host, FS_READONLY, m);
      var init, last := rounds[..n], rounds[n];
      LastKnownState(rounds, m, states);
      ReadOnlyFold(host, c, init, m, states[..n]);
      var x := Evaluation(host, c, ReportsOf(init), last.report, last.now);
      ReadOnlyMove(x, last.before, last.after, m, states[n]);
      assert PhaseAt(last.before, k) == Now(init, k);
      PreviousKnown(init, m, states[..n]);
    }
  }

  lemma NoStates(rounds: seq<Round>, m: string, states: seq<bool>)
    requires StatesKnown(rounds, m, states)
    ensures |states| == |rounds|
  {
  }

  lemma LastKnownState(rounds: seq<Round>, m: string, states: seq<bool>)
    requires StatesKnown(rounds, m, states) && rounds != []
    ensures var n := |rounds| - 1;
            && |states| == n + 1 && StatesKnown(rounds[..n], m, states[..n])
            && StateIn(rounds[n].report.disks, m, states[n])
  {
    hide StateIn;
  }

  /** What is known of the report before. */
  lemma PreviousKnown(rounds: seq<Round>, m: string, states: seq<bool>)
    requires StatesKnown(rounds, m, states)
    ensures var n, previous := |rounds| - 1, KnownStates(PreviousDisks(ReportsOf(rounds)));
            if rounds == [] then m !in previous else |states| == n + 1 && m in previous && previous[m] == states[n]
  {
    if rounds == [] {
      NothingKnown();
    } else {
      LastKnownState(rounds, m, states);
      KnownState(rounds[|rounds| - 1].report.disks, m, states[|rounds| - 1]);
    }
  }

  lemma NothingKnown()
    ensures KnownStates([]) == map[]
  {
  }

  // ---- measured values

  ghost function ThresholdIn(c: Config, kind: string, s: string): Option<Threshold> {
    if kind == "cpu" then c.cpu else if kind == "ram" then c.ram
    else if kind == "disk_latency" then ThresholdOf(c.latency, s)
    else if kind == "temperature" then ThresholdOf(c.temperature, s) else None
  }

  ghost function ValuesIn(r: Report, kind: string): Option<map<string, real>> {
    if kind == "cpu" then Some(map["" := r.cpuPct]) else if kind == "ram" then Some(map["" := r.ramPct])
    else if kind == "disk_latency" then r.latency else if kind == "temperature" then r.temperature else None
  }

  /** When a report that carries values of the kind came, and the value of the subject if it has one. */
  datatype Reading = Reading(now: int, value: Option<real>)

  ghost function ReadingsOf(rounds: seq<Round>, kind: string, s: string): seq<Reading> {
    if rounds == [] then []
    else
      var last, init := rounds[|rounds| - 1], ReadingsOf(rounds[..|rounds| - 1], kind, s);
      match ValuesIn(last.report, kind)
      case None => init
      case Some(values) => init + [Reading(last.now, if s in values then Some(values[s]) else None)]
  }

  /** At or above the warning threshold, or the critical one. */
  ghost predicate High(r: Reading, t: Threshold) {
    r.value.Some? && (r.value.value >= t.warning || r.value.value >= t.critical)
  }

  /** All readings from the b-th on are high. */
  ghost predicate HighSince(readings: seq<Reading>, t: Threshold, b: int) {
    0 <= b < |readings| && forall i :: b <= i < |readings| ==> High(readings[i], t)
  }

  /** The run of high readings at the end begins with the b-th. */
  ghost predicate BeginsAt(readings: seq<Reading>, t: Threshold, b: int) {
    HighSince(readings, t, b) && (b > 0 ==> !High(readings[b - 1], t))
  }

  /** An alert is active exactly when the last reading is high and all have been for the seconds of the threshold, if it
      has any; its level is critical exactly when the last reading reaches the critical threshold. Otherwise the
      condition waits since the first of the high readings, or there is none. */
  ghost predicate PhaseOfReadings(phase: Phase, readings: seq<Reading>, t: Threshold) {
    var n := |readings| - 1;
    && (phase.Firing? <==>
        exists b :: HighSince(readings, t, b)
                    && (t.seconds.Some? ==> readings[n].now - readings[b].now >= t.seconds.value * 1_000_000_000))
    && (phase.Firing? ==>
          readings != [] && readings[n].value.Some?
          && phase.level == if readings[n].value.value >= t.critical then Critical else Warning)
    && (phase.Waiting? ==>
          exists b :: BeginsAt(readings, t, b) && phase.since == readings[b].now)
    && (phase.Idle? <==> readings == [] || !High(readings[n], t))
  }

  /** The alert of a measured subject follows its readings. Leaving the list ends a run of readings; a report without
      values of the kind does not count. */
  lemma MeasuredFollows(host: int, c: Config, rounds: seq<Round>, kind: string, s: string, t: Threshold)
    requires Reported(host, c, rounds) && kind in {"cpu", "ram", "disk_latency", "temperature"}
    requires (kind == "cpu" || kind == "ram" ==> s == "") && ThresholdIn(c, kind, s) == Some(t)
    requires forall i, j :: 0 <= i <= j < |rounds| ==> rounds[i].now <= rounds[j].now
    ensures PhaseOfReadings(Now(rounds, Key(host, kind, s)), ReadingsOf(rounds, kind, s), t)
  {
    hide *;
    KnownThreshold(c, kind, s, t);
    MeasuredPhase(host, c, rounds, kind, s);
    var samples, readings := SamplesOf(rounds, kind, s, t), ReadingsOf(rounds, kind, s);
    SamplesAreReadings(rounds, kind, s, t);
    SamplesInOrder(rounds, kind, s, t);
    if samples == [] {
      NoReadings(readings, t);
    } else {
      RunOfReadings(samples, readings, t);
    }
  }

  /** A subject without a threshold never has an alert. */
  lemma {:induction false} NoThresholdNoAlert(host: int, c: Config, rounds: seq<Round>, kind: string, s: string)
    requires Reported(host, c, rounds) && kind in {"cpu", "ram", "disk_latency", "temperature"}
    requires (kind == "cpu" || kind == "ram" ==> s == "") && ThresholdIn(c, kind, s) == None
    ensures Now(rounds, Key(host, kind, s)) == Idle
  {
    hide PhaseAt;
    if rounds != [] {
      var n := |rounds| - 1;
      var init, last := rounds[..n], rounds[n];
      NoThresholdNoAlert(host, c, init, kind, s);
      var x := Evaluation(host, c, ReportsOf(init), last.report, last.now);
      UnjudgedIdle(x, last.before, last.after, kind, s);
      assert PhaseAt(last.before, Key(host, kind, s)) == Now(init, Key(host, kind, s));
    }
  }

  lemma UnjudgedIdle(x: Evaluation, db: Db, d: Db, kind: string, s: string)
    requires kind in {"cpu", "ram", "disk_latency", "temperature"}
    requires (kind == "cpu" || kind == "ram" ==> s == "") && ThresholdIn(x.config, kind, s) == None
    requires AllSettled(x, db, d, KINDS) && PhaseAt(db, Key(x.host, kind, s)) == Idle
    ensures PhaseAt(d, Key(x.host, kind, s)) == Idle
  {
    hide PhaseAt;
    DistinctKinds();
    assert KindSettled(x, db, d, kind);
  }

  lemma KnownThreshold(c: Config, kind: string, s: string, t: Threshold)
    requires kind in {"cpu", "ram", "disk_latency", "temperature"}
    requires (kind == "cpu" || kind == "ram" ==> s == "") && ThresholdIn(c, kind, s) == Some(t)
    ensures Measured(kind) && (HostWide(kind) ==> s == "") && ThresholdsOf(c, kind).For(s) == Some(t)
  {
    DistinctKinds();
  }

  lemma NoReadings(readings: seq<Reading>, t: Threshold)
    requires Sampled([], readings, t)
    ensures PhaseOfReadings(Idle, readings, t)
  {
  }

  /** What the reports that carry values of the kind say about one subject. */
  function SamplesOf(rounds: seq<Round>, kind: string, s: string, t: Threshold): seq<Sample>
    requires Measured(kind)
  {
    if rounds == [] then []
    else
      var last, init := rounds[|rounds| - 1], SamplesOf(rounds[..|rounds| - 1], kind, s, t);
      match ValuesOf(last.report, kind)
      case None => init
      case Some(values) => init + [Sample(last.now, if s in values then LevelFor(values[s], t) else None)]
  }

  /** The alert of a measured subject is in the phase its samples give. */
  lemma MeasuredPhase(host: int, c: Config, rounds: seq<Round>, kind: string, s: string)
    requires Reported(host, c, rounds) && Measured(kind) && (HostWide(kind) ==> s == "")
    requires ThresholdsOf(c, kind).For(s).Some?
    requires forall i, j :: 0 <= i <= j < |rounds| ==> rounds[i].now <= rounds[j].now
    ensures var t := ThresholdsOf(c, kind).For(s).value;
            var samples := SamplesOf(rounds, kind, s, t);
            Now(rounds, Key(host, kind, s)) == if samples == [] then Idle
                else SinceRunStart(samples, DurationOf(t.seconds))
  {
    var t := ThresholdsOf(c, kind).For(s).value;
    var samples := SamplesOf(rounds, kind, s, t);
    MeasuredFold(host, c, rounds, kind, s);
    SamplesInOrder(rounds, kind, s, t);
    if samples != [] {
      DurationClosedForm(samples, DurationOf(t.seconds));
    }
  }

  lemma {:induction false} SamplesInOrder(rounds: seq<Round>, kind: string, s: string, t: Threshold)
    requires Measured(kind)
    requires forall i, j :: 0 <= i <= j < |rounds| ==> rounds[i].now <= rounds[j].now
    ensures var samples := SamplesOf(rounds, kind, s, t);
            Chronological(samples) && forall i :: 0 <= i < |samples| ==>
                  rounds != [] && samples[i].now <= rounds[|rounds| - 1].now
  {
    if rounds != [] {
      SamplesInOrder(rounds[..|rounds| - 1], kind, s, t);
    }
  }

  /** What one report does to a measured subject. */
  lemma MeasuredStep(x: Evaluation, db: Db, d: Db, kind: string, s: string)
    requires Measured(kind) && KindSettled(x, db, d, kind) && (HostWide(kind) ==> s == "")
    requires ThresholdsOf(x.config, kind).For(s).Some?
    ensures var k, t := Key(x.host, kind, s), ThresholdsOf(x.config, kind).For(s).value;
            PhaseAt(d, k) == match ValuesOf(x.report, kind)
              case None => PhaseAt(db, k)
              case Some(values) =>
                var level := if s in values then LevelFor(values[s], t) else None;
                if level.None? then Idle else Sustain(PhaseAt(db, k), x.now, level.value, DurationOf(t.seconds))
  {
    hide PhaseAt;
    hide LevelFor;
  }

  lemma {:induction false} MeasuredFold(host: int, c: Config, rounds: seq<Round>, kind: string, s: string)
    requires Reported(host, c, rounds) && Measured(kind) && (HostWide(kind) ==> s == "")
    requires ThresholdsOf(c, kind).For(s).Some?
    ensures var t := ThresholdsOf(c, kind).For(s).value;
            Now(rounds, Key(host, kind, s)) == PhaseAfter(SamplesOf(rounds, kind, s, t), DurationOf(t.seconds))
  {
    hide PhaseAt;
    hide LevelFor;
    hide Sustain;
    hide KindSettled;
    hide ThresholdsOf;
    hide ValuesOf;
    if rounds != [] {
      var n, k, t := |rounds| - 1, Key(host, kind, s), ThresholdsOf(c, kind).For(s).value;
      var init, last := rounds[..n], rounds[n];
      MeasuredFold(host, c, init, kind, s);
      var x := Evaluation(host, c, ReportsOf(init), last.report, last.now);
      MeasuredStep(x, last.before, last.after, kind, s);
      assert PhaseAt(last.before, k) == Now(init, k);
      var samples := SamplesOf(rounds, kind, s, t);
      if ValuesOf(last.report, kind).Some? {
        assert samples[..|samples| - 1] == SamplesOf(init, kind, s, t);
      }
    }
  }

  /** The samples are the readings and the levels they reach. */
  ghost predicate Sampled(samples: seq<Sample>, readings: seq<Reading>, t: Threshold) {
    |samples| == |readings| && forall i :: 0 <= i < |samples| ==>
      && samples[i].now == readings[i].now
      && samples[i].level == if !High(readings[i], t) then None
                             else Some(if readings[i].value.value >= t.critical then Critical else Warning)
  }

  lemma {:induction false} SamplesAreReadings(rounds: seq<Round>, kind: string, s: string, t: Threshold)
    requires Measured(kind)
    ensures Sampled(SamplesOf(rounds, kind, s, t), ReadingsOf(rounds, kind, s), t)
  {
    if rounds != [] {
      SamplesAreReadings(rounds[..|rounds| - 1], kind, s, t);
      SameValues(rounds[|rounds| - 1].report, kind);
      hide ValuesOf;
      hide ValuesIn;
    }
  }

  lemma SameValues(r: Report, kind: string)
    requires Measured(kind)
    ensures ValuesOf(r, kind) == ValuesIn(r, kind)
  {
    DistinctKinds();
  }

  /** The phase since the start of the current run, read off the readings. */
  lemma {:induction false} RunOfReadings(samples: seq<Sample>, readings: seq<Reading>, t: Threshold)
    requires samples != [] && Sampled(samples, readings, t) && Chronological(samples)
    ensures PhaseOfReadings(SinceRunStart(samples, DurationOf(t.seconds)), readings, t)
  {
    var n := |readings| - 1;
    if High(readings[n], t) {
      var start := RunStart(samples);
      StartOfReadings(samples, readings, t, start);
      hide RunStart;
      hide Sampled;
      hide Chronological;
      hide High;
      hide HighSince;
      hide BeginsAt;
      var long := t.seconds.Some? ==> readings[n].now - readings[start].now >= t.seconds.value * 1_000_000_000;
      assert long <==> readings[n].now - readings[start].now >= DurationOf(t.seconds);
      assert HighSince(readings, t, start) && BeginsAt(readings, t, start);
    }
  }

  /** A run of high readings starts where the run of samples does, and no later. */
  lemma {:induction false} StartOfReadings(samples: seq<Sample>, readings: seq<Reading>, t: Threshold, start: nat)
    requires samples != [] && Sampled(samples, readings, t) && Chronological(samples)
    requires High(readings[|readings| - 1], t)
    requires start == RunStart(samples)
    ensures HighSince(readings, t, start) && BeginsAt(readings, t, start)
    ensures forall b :: HighSince(readings, t, b) ==> start <= b && readings[start].now <= readings[b].now
    ensures samples[start].now == readings[start].now && samples[|samples| - 1].now == readings[|samples| - 1].now
    ensures samples[|samples| - 1].level
            == Some(if readings[|samples| - 1].value.value >= t.critical then Critical else Warning)
    ensures |samples| == |readings| && readings[|samples| - 1].value.Some?
    ensures readings[start].now <= readings[|samples| - 1].now
  {
    assert start > 0 ==> !High(readings[start - 1], t);
    forall b | HighSince(readings, t, b) ensures start <= b && readings[start].now <= readings[b].now {
      assert start <= b;
      assert samples[start].now <= samples[b].now;
    }
  }
}

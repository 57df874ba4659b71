/** Schema migrations: what is planned, and that over any run each is executed at most once, in order. */
module Migrate {
  import opened Options

  datatype Migration = Migration(version: nat, name: string, sql: string, checksum: string)

  /** A line of the history table. */
  datatype Row = Row(version: nat, name: string, checksum: string)

  datatype Plan = Pending(migs: seq<Migration>) | DatabaseNewer | ChecksumMismatch | OutOfOrder

  function RowOf(m: Migration): Row { Row(m.version, m.name, m.checksum) }

  function RowsOf(migs: seq<Migration>): (rows: seq<Row>)
    ensures |rows| == |migs| && forall i :: 0 <= i < |migs| ==> rows[i] == RowOf(migs[i])
  {
    seq(|migs|, i requires 0 <= i < |migs| => RowOf(migs[i]))
  }

  ghost predicate Ordered(migs: seq<Migration>) {
    forall i, j :: 0 <= i < j < |migs| ==> migs[i].version < migs[j].version
  }

  ghost predicate OrderedRows(rows: seq<Row>) {
    forall i, j :: 0 <= i < j < |rows| ==> rows[i].version < rows[j].version
  }

  predicate Records(a: Row, m: Migration) { a.version == m.version && a.checksum == m.checksum }

  /** The history is a prefix of the known migrations, unmodified. */
  predicate Prefix(history: seq<Row>, migs: seq<Migration>) {
    |history| <= |migs| && forall i :: 0 <= i < |history| ==> Records(history[i], migs[i])
  }

  ghost predicate Known(migs: seq<Migration>, version: nat) {
    exists m :: m in migs && m.version == version
  }

  ghost predicate Recorded(migs: seq<Migration>, a: Row) {
    exists m :: m in migs && m.version == a.version && m.checksum == a.checksum
  }

  ghost predicate Applied(history: seq<Row>, version: nat) {
    exists a :: a in history && a.version == version
  }

  ghost predicate Passed(history: seq<Row>, version: nat) {
    exists a :: a in history && version < a.version
  }

  /** A migration that was not applied although a later one was. */
  ghost predicate Skipped(history: seq<Row>, m: Migration) {
    !Applied(history, m.version) && Passed(history, m.version)
  }

  /** Every applied migration is known as it was, and none was skipped: exactly then the history is a prefix. */
  lemma PrefixExact(history: seq<Row>, migs: seq<Migration>)
    requires Ordered(migs) && OrderedRows(history)
    ensures Prefix(history, migs)
            <==> (forall a :: a in history ==> Recorded(migs, a)) && (forall m :: m in migs ==> !Skipped(history, m))
  {
    if Prefix(history, migs) {
      forall a | a in history ensures Recorded(migs, a) {
        var i :| 0 <= i < |history| && history[i] == a;
        assert Records(a, migs[i]);
      }
      forall m | m in migs ensures !Skipped(history, m) {
        var i :| 0 <= i < |migs| && migs[i] == m;
        if a :| a in history && m.version < a.version {
          var j :| 0 <= j < |history| && history[j] == a;
          assert Records(history[j], migs[j]);
          assert i < j && Records(history[i], migs[i]) && history[i] in history;
        }
      }
    } else if (forall a :: a in history ==> Recorded(migs, a)) && (forall m :: m in migs ==> !Skipped(history, m)) {
      AgreesUpTo(history, migs, |history|);
    }
  }

  lemma {:induction false} AgreesUpTo(history: seq<Row>, migs: seq<Migration>, n: nat)
    requires Ordered(migs) && OrderedRows(history) && n <= |history|
    requires forall a :: a in history ==> Recorded(migs, a)
    requires forall m :: m in migs ==> !Skipped(history, m)
    ensures n <= |migs| && forall i :: 0 <= i < n ==> Records(history[i], migs[i])
  {
    if n > 0 {
      hide Skipped;
      var p: nat := n - 1;
      AgreesUpTo(history, migs, p);
      assert history[p] in history;
      var k := RecordedAt(history[p], migs);
      assert forall i :: 0 <= i < p ==> Records(history[i], migs[i]) && history[i].version == migs[i].version;
      assert k >= p;
      if k > p {
        LeftBehind(history, migs, p);
        assert false;
      }
    }
  }

  lemma RecordedAt(a: Row, migs: seq<Migration>) returns (k: nat)
    requires Recorded(migs, a)
    ensures k < |migs| && Records(a, migs[k])
  {
    var m :| m in migs && Records(a, m);
    k :| 0 <= k < |migs| && migs[k] == m;
  }

  /** Where the history jumps ahead of the known migrations, one was skipped. */
  lemma LeftBehind(history: seq<Row>, migs: seq<Migration>, n: nat)
    requires Ordered(migs) && OrderedRows(history) && n < |history| && n < |migs|
    requires (forall i :: 0 <= i < n ==> Records(history[i], migs[i])) && migs[n].version < history[n].version
    ensures Skipped(history, migs[n])
  {
    forall a | a in history ensures a.version != migs[n].version {
      var j :| 0 <= j < |history| && history[j] == a;
      if j < n {
        assert Records(history[j], migs[j]);
      }
    }
    assert history[n] in history;
  }

  /** The migrations that were not applied. */
  ghost function Rest(history: seq<Row>, migs: seq<Migration>): seq<Migration> {
    if migs == [] then []
    else
      var last, init := migs[|migs| - 1], Rest(history, migs[..|migs| - 1]);
      if Applied(history, last.version) then init else init + [last]
  }

  lemma AppliedInPrefix(history: seq<Row>, migs: seq<Migration>, i: nat)
    requires Ordered(migs) && Prefix(history, migs) && i < |migs|
    ensures Applied(history, migs[i].version) <==> i < |history|
  {
    if i < |history| {
      assert Records(history[i], migs[i]) && history[i] in history;
    } else {
      forall a | a in history ensures a.version != migs[i].version {
        var j :| 0 <= j < |history| && history[j] == a;
        assert Records(history[j], migs[j]);
      }
    }
  }

  lemma {:induction false} RestOfPrefix(history: seq<Row>, migs: seq<Migration>, n: nat)
    requires Ordered(migs) && Prefix(history, migs) && n <= |migs|
    ensures Rest(history, migs[..n]) == if n <= |history| then [] else migs[|history|..n]
  {
    hide Applied;
    hide Ordered;
    if n > 0 {
      RestOfPrefix(history, migs, n - 1);
      AppliedInPrefix(history, migs, n - 1);
      hide Prefix;
      assert migs[..n][..n - 1] == migs[..n - 1];
    }
  }

  /** Compare the history with the known migrations: it must be a prefix of them, and then the rest is pending;
      otherwise the first line that does not fit, or a skipped migration, says why. */
  method MakePlan(history: seq<Row>, migs: seq<Migration>) returns (r: Plan)
    requires Ordered(migs) && OrderedRows(history)
    ensures r.Pending? <==> Prefix(history, migs)
    ensures r.Pending? <==> |history| <= |migs| && forall i :: 0 <= i < |history| ==>
              history[i].version == migs[i].version && history[i].checksum == migs[i].checksum
    ensures r.Pending? ==> r.migs == migs[|history|..]
    ensures r.DatabaseNewer? <==> exists i :: FirstUnfit(history, migs, i) && !Known(migs, history[i].version)
    ensures r.ChecksumMismatch? <==> exists i :: FirstUnfit(history, migs, i) && Known(migs, history[i].version)
    ensures r.OutOfOrder?
            <==> (forall a :: a in history ==> Recorded(migs, a)) && exists m :: m in migs && Skipped(history, m)
  {
    hide Skipped;
    hide Known;
    hide Recorded;
    hide Prefix;
    hide Rest;
    PrefixInWords(history, migs);
    PrefixExact(history, migs);
    var unfit, applied, maxApplied := CheckHistory(history, migs);
    if unfit.Some? {
      ghost var i :| FirstUnfit(history, migs, i);
      OnlyOneFirst(history, migs, i);
      return unfit.value;
    }
    r := CollectPending(history, migs, applied, maxApplied);
    if Prefix(history, migs) {
      RestOfPrefix(history, migs, |migs|);
      assert migs[..|migs|] == migs;
      PrefixSize(history, migs);
    }
  }

  lemma PrefixInWords(history: seq<Row>, migs: seq<Migration>)
    ensures Prefix(history, migs)
            <==> |history| <= |migs| && forall i :: 0 <= i < |history| ==>
                   history[i].version == migs[i].version && history[i].checksum == migs[i].checksum
  {
  }

  lemma PrefixSize(history: seq<Row>, migs: seq<Migration>)
    requires Prefix(history, migs)
    ensures |history| <= |migs| && (|history| == |migs| ==> migs[|history|..] == [])
  {
  }

  /** The first line of the history that no known migration records. */
  ghost predicate FirstUnfit(history: seq<Row>, migs: seq<Migration>, i: int) {
    0 <= i < |history| && !Recorded(migs, history[i]) && forall j :: 0 <= j < i ==> Recorded(migs, history[j])
  }

  lemma OnlyOneFirst(history: seq<Row>, migs: seq<Migration>, i: int)
    requires FirstUnfit(history, migs, i)
    ensures forall j :: FirstUnfit(history, migs, j) ==> j == i
    ensures history[i] in history && !Recorded(migs, history[i])
  {
  }

  method CheckHistory(history: seq<Row>, migs: seq<Migration>)
    returns (unfit: Option<Plan>, applied: set<nat>, maxApplied: nat)
    requires Ordered(migs) && OrderedRows(history)
    ensures unfit.Some? ==>
              exists i :: FirstUnfit(history, migs, i)
                          && unfit.value == if Known(migs, history[i].version) then ChecksumMismatch else DatabaseNewer
    ensures unfit.None? ==>
              && (forall a :: a in history ==> Recorded(migs, a))
              && (forall v: nat :: v in applied <==> Applied(history, v))
              && (forall v: nat :: v < maxApplied <==> Passed(history, v))
  {
    var known: map<nat, Migration> := map[];
    for i := 0 to |migs|
      invariant forall v :: v in known ==> known[v] in migs[..i] && known[v].version == v
      invariant forall j :: 0 <= j < i ==> migs[j].version in known && known[migs[j].version] == migs[j]
    {
      known := known[migs[i].version := migs[i]];
    }
    applied, maxApplied := {}, 0;
    for i := 0 to |history|
      invariant forall j :: 0 <= j < i ==> Recorded(migs, history[j])
      invariant forall v: nat :: v in applied <==> Applied(history[..i], v)
      invariant maxApplied == if i == 0 then 0 else history[i - 1].version
    {
      var a := history[i];
      assert history[..i + 1] == history[..i] + [a];
      OneApplied(history[..i], a);
      if a.version !in known {
        return Some(DatabaseNewer), applied, maxApplied;
      }
      if known[a.version].checksum != a.checksum {
        return Some(ChecksumMismatch), applied, maxApplied;
      }
      assert Records(a, known[a.version]);
      applied := applied + {a.version};
      if a.version > maxApplied {
        maxApplied := a.version;
      }
    }
    unfit := None;
    assert history[..|history|] == history;
    LastIsLargest(history);
  }

  lemma OneApplied(history: seq<Row>, a: Row)
    ensures forall v: nat :: Applied(history + [a], v) <==> Applied(history, v) || v == a.version
  {
    forall v: nat ensures Applied(history + [a], v) <==> Applied(history, v) || v == a.version {
      assert (history + [a])[|history|] == a;
      assert forall b :: b in history + [a] <==> b in history || b == a;
    }
  }

  lemma LastIsLargest(history: seq<Row>)
    requires OrderedRows(history)
    ensures forall v: nat :: v < (if history == [] then 0 else history[|history| - 1].version) <==> Passed(history, v)
  {
    if history != [] {
      assert history[|history| - 1] in history;
    }
  }

  method CollectPending(history: seq<Row>, migs: seq<Migration>, applied: set<nat>, maxApplied: nat) returns (r: Plan)
    requires forall v: nat :: v in applied <==> Applied(history, v)
    requires forall v: nat :: v < maxApplied <==> Passed(history, v)
    ensures r.Pending? || r.OutOfOrder?
    ensures r.OutOfOrder? <==> exists m :: m in migs && Skipped(history, m)
    ensures r.Pending? ==> r.migs == Rest(history, migs)
  {
    var pending: seq<Migration> := [];
    for i := 0 to |migs|
      invariant forall j :: 0 <= j < i ==> !Skipped(history, migs[j])
      invariant pending == Rest(history, migs[..i])
    {
      assert migs[..i + 1][..i] == migs[..i];
      if migs[i].version !in applied {
        if migs[i].version < maxApplied {
          assert migs[i] in migs && Skipped(history, migs[i]);
          return OutOfOrder;
        }
        pending := pending + [migs[i]];
      }
    }
    assert migs[..|migs|] == migs;
    return Pending(pending);
  }

  // ---- the database

  /** The history table, absent before the first run; whether the tables of the schema exist; the
      migrations executed. */
  datatype Db = Db(history: Option<seq<Row>>, organizations: bool, ran: seq<Migration>)

  function Lines(db: Db): seq<Row> { if db.history.Some? then db.history.value else [] }

  /** Tables but no history table: a database migrated by hand. */
  predicate Legacy(db: Db) { db.history.None? && db.organizations }

  function WithTable(db: Db): Db { db.(history := Some(Lines(db))) }

  /** Executed and recorded in one transaction. */
  function Executed(db: Db, m: Migration): Db {
    Db(Some(Lines(db) + [RowOf(m)]), true, db.ran + [m])
  }

  function ExecutedAll(db: Db, migs: seq<Migration>): Db {
    if migs == [] then db else Executed(ExecutedAll(db, migs[..|migs| - 1]), migs[|migs| - 1])
  }

  lemma {:induction false} ExecutedExact(db: Db, migs: seq<Migration>)
    ensures var d := ExecutedAll(db, migs); Lines(d) == Lines(db) + RowsOf(migs) && d.ran == db.ran + migs
  {
    if migs != [] {
      ExecutedExact(db, migs[..|migs| - 1]);
      assert migs == migs[..|migs| - 1] + [migs[|migs| - 1]];
    }
  }

  /** How many of the pending migrations, from the k-th on, follow one another before one does not fit. */
  ghost function Fitting(fits: (Migration, Db) -> bool, db: Db, pending: seq<Migration>, k: nat): (r: nat)
    requires k <= |pending|
    ensures k <= r <= |pending| && (r < |pending| ==> !fits(pending[r], ExecutedAll(db, pending[..r])))
    decreases |pending| - k
  {
    if k == |pending| || !fits(pending[k], ExecutedAll(db, pending[..k])) then k else Fitting(fits, db, pending, k + 1)
  }

  /** What a run without failures does: as far as the migrations fit what is there. */
  ghost function Upgraded(fits: (Migration, Db) -> bool, db: Db, migs: seq<Migration>): Db {
    if Legacy(db) || !Prefix(Lines(db), migs) || |Lines(db)| == |migs| then db
    else
      var pending := migs[|Lines(db)|..];
      ExecutedAll(WithTable(db), pending[..Fitting(fits, WithTable(db), pending, 0)])
  }

  function Adopted(migs: seq<Migration>, version: nat): seq<Migration> {
    if migs == [] || migs[0].version > version then [] else [migs[0]] + Adopted(migs[1..], version)
  }

  /** The history is a prefix of all migrations there will be; past those adopted without being run, the migrations
      run are those of the history, each once, in order. */
  ghost predicate Orderly(db: Db, all: seq<Migration>, adopted: nat) {
    && Prefix(Lines(db), all) && adopted <= |Lines(db)|
    && db.ran == all[adopted..|Lines(db)|]
  }

  /** No migration ran twice or after a later one, and every one that ran is recorded. */
  lemma RanOnceInOrder(db: Db, all: seq<Migration>, adopted: nat)
    requires Ordered(all) && Orderly(db, all, adopted)
    ensures Ordered(db.ran)
    ensures forall m :: m in db.ran ==>
              exists a :: a in Lines(db) && a.version == m.version && a.checksum == m.checksum
  {
    forall m | m in db.ran ensures exists a :: a in Lines(db) && a.version == m.version && a.checksum == m.checksum {
      var i :| 0 <= i < |db.ran| && db.ran[i] == m;
      assert Records(Lines(db)[adopted + i], all[adopted + i]);
      assert Lines(db)[adopted + i] in Lines(db);
    }
  }

  lemma {:induction false} LongerPrefix(history: seq<Row>, all: seq<Migration>, n: nat)
    requires Prefix(history, all) && |history| <= n <= |all|
    ensures Prefix(history + RowsOf(all[|history|..n]), all)
  {
    var k := |history|;
    var longer := history + RowsOf(all[k..n]);
    forall i | 0 <= i < n ensures Records(longer[i], all[i]) {
      assert i < k ==> longer[i] == history[i];
      assert i >= k ==> longer[i] == RowOf(all[k..n][i - k]);
    }
  }

  lemma Adjacent<T>(s: seq<T>, a: nat, k: nat, n: nat)
    requires a <= k <= n <= |s|
    ensures s[a..k] + s[k..n] == s[a..n]
  {
  }

  lemma {:induction false} ExecutedOrderly(db: Db, all: seq<Migration>, adopted: nat, n: nat)
    requires Orderly(db, all, adopted) && |Lines(db)| <= n <= |all|
    ensures Orderly(ExecutedAll(db, all[|Lines(db)|..n]), all, adopted)
    ensures |Lines(ExecutedAll(db, all[|Lines(db)|..n]))| == n
  {
    hide ExecutedAll;
    hide Prefix;
    hide RowsOf;
    var k := |Lines(db)|;
    ExecutedExact(db, all[k..n]);
    LongerPrefix(Lines(db), all, n);
    Adjacent(all, adopted, k, n);
    RowsLength(all[k..n]);
  }

  lemma StillOrderly(db: Db, all: seq<Migration>, adopted: nat)
    requires Orderly(db, all, adopted)
    ensures Orderly(WithTable(db), all, adopted) && Lines(WithTable(db)) == Lines(db)
  {
  }

  lemma OrderlyLines(db: Db, migs: seq<Migration>, all: seq<Migration>, adopted: nat)
    requires Ordered(all) && migs <= all && Orderly(db, all, adopted)
    ensures Ordered(migs) && OrderedRows(Lines(db))
  {
    PrefixIsOrdered(Lines(db), all);
    assert migs == all[..|migs|];
  }

  lemma RowsLength(migs: seq<Migration>)
    ensures |RowsOf(migs)| == |migs|
  {
  }

  lemma SameSlice<T>(s: seq<T>, all: seq<T>, n: nat, k: nat)
    requires s <= all && n + k <= |s|
    ensures s[n..][..k] == all[n..n + k] && (n + k == |s| ==> s[n..][..k] == s[n..|s|])
  {
  }

  /** Catching up with a list that is a prefix of all, as far as it gets. */
  lemma {:induction false} SomeExecuted(db: Db, migs: seq<Migration>, all: seq<Migration>, adopted: nat, k: nat)
    requires migs <= all && Orderly(db, all, adopted) && Prefix(Lines(db), migs) && k <= |migs| - |Lines(db)|
    ensures var n := |Lines(db)|;
            var d := ExecutedAll(WithTable(db), migs[n..][..k]);
            && Orderly(d, all, adopted) && Lines(d) == Lines(db) + RowsOf(migs[n..][..k])
  {
    PrefixSize(Lines(db), migs);
    hide Orderly;
    hide Prefix;
    hide RowsOf;
    hide ExecutedAll;
    hide WithTable;
    var n: nat := |Lines(db)|;
    SameSlice(migs, all, n, k);
    NextExecuted(db, all, adopted, migs[n..][..k]);
  }

  lemma {:induction false} NextExecuted(db: Db, all: seq<Migration>, adopted: nat, next: seq<Migration>)
    requires var n := |Lines(db)|; n + |next| <= |all| && next == all[n..n + |next|]
    requires Orderly(db, all, adopted)
    ensures var d := ExecutedAll(WithTable(db), next);
            Orderly(d, all, adopted) && Lines(d) == Lines(db) + RowsOf(next)
  {
    hide *;
    StillOrderly(db, all, adopted);
    ExecutedExact(WithTable(db), next);
    ExecutedOrderly(WithTable(db), all, adopted, |Lines(db)| + |next|);
  }

  /** Catching up all the way. */
  lemma {:induction false} AllExecuted(db: Db, migs: seq<Migration>)
    requires Prefix(Lines(db), migs) && |Lines(db)| <= |migs|
    ensures var d := ExecutedAll(WithTable(db), migs[|Lines(db)|..]);
            Prefix(Lines(d), migs) && |Lines(d)| == |migs|
  {
    hide Prefix;
    hide ExecutedAll;
    var n := |Lines(db)|;
    ExecutedExact(WithTable(db), migs[n..]);
    LongerPrefix(Lines(db), migs, |migs|);
    assert migs[n..|migs|] == migs[n..];
  }

  lemma PrefixIsOrdered(history: seq<Row>, all: seq<Migration>)
    requires Ordered(all) && Prefix(history, all)
    ensures OrderedRows(history)
  {
    forall i, j | 0 <= i < j < |history| ensures history[i].version < history[j].version {
      assert Records(history[i], all[i]) && Records(history[j], all[j]);
    }
  }

  lemma {:induction false} AdoptedIsPrefix(migs: seq<Migration>, version: nat)
    ensures Adopted(migs, version) <= migs
    ensures Ordered(migs) ==> forall m :: m in migs ==> (m in Adopted(migs, version) <==> m.version <= version)
  {
    if migs != [] && migs[0].version <= version {
      AdoptedIsPrefix(migs[1..], version);
      assert migs == [migs[0]] + migs[1..];
    }
  }

  /** The history table is there and has no line of this version: its primary key. */
  predicate Recordable(db: Db, version: nat) {
    db.history.Some? && forall a <- db.history.value :: a.version != version
  }

  lemma {:induction false} PendingIsRecordable(db: Db, migs: seq<Migration>, k: nat)
    requires Ordered(migs) && Prefix(Lines(db), migs) && |Lines(db)| + k < |migs|
    ensures var n := |Lines(db)|;
            Recordable(ExecutedAll(WithTable(db), migs[n..][..k]), migs[n..][k].version)
  {
    var n: nat := |Lines(db)|;
    var some := migs[n..][..k];
    ExecutedExact(WithTable(db), some);
    TableStays(WithTable(db), some);
    hide ExecutedAll;
    SameSlice(migs, migs, n, k);
    LongerPrefix(Lines(db), migs, n + k);
    LaterVersion(Lines(db) + RowsOf(some), migs);
  }

  lemma LaterVersion(history: seq<Row>, migs: seq<Migration>)
    requires Ordered(migs) && Prefix(history, migs) && |history| < |migs|
    ensures forall a :: a in history ==> a.version != migs[|history|].version
  {
    forall a | a in history ensures a.version != migs[|history|].version {
      var i :| 0 <= i < |history| && history[i] == a;
      assert Records(history[i], migs[i]);
    }
  }

  lemma TableStays(db: Db, migs: seq<Migration>)
    requires db.history.Some?
    ensures ExecutedAll(db, migs).history.Some?
  {
  }

  lemma {:induction false} AdoptOneMore(migs: seq<Migration>, version: nat, i: nat)
    requires i < |migs| && migs[i].version <= version
    requires migs[..i] + Adopted(migs[i..], version) == Adopted(migs, version)
    ensures migs[..i + 1] + Adopted(migs[i + 1..], version) == Adopted(migs, version)
            && migs[..i + 1] == migs[..i] + [migs[i]]
    ensures RowsOf(migs[..i + 1]) == RowsOf(migs[..i]) + [RowOf(migs[i])]
    ensures Ordered(migs) ==>
              forall d: Db :: d.history == Some(RowsOf(migs[..i])) ==> Recordable(d, migs[i].version)
  {
    assert migs[i..][1..] == migs[i + 1..];
  }

  lemma AdoptNoMore(migs: seq<Migration>, version: nat, i: nat)
    requires i == |migs| || (i < |migs| && migs[i].version > version)
    ensures Adopted(migs[i..], version) == [] && migs[..i] + [] == migs[..i]
  {
  }

  datatype Outcome = Done(applied: seq<Migration>) | Failed(kept: seq<Migration>) | LegacyDatabase | Refused(why: Plan)
                   | UnknownVersion | HasHistory

  /** What is committed, and the state an open transaction works on, which others do not see. Any statement may fail
      when the database is faulty. */
  class Database {
    const faulty: bool
    /** Whether the statements of a migration succeed on what is there: creating a table that exists does not. */
    const fits: (Migration, Db) -> bool
    var db: Db
    var tx: Option<Db>

    constructor (faulty: bool, fits: (Migration, Db) -> bool, db: Db)
      ensures this.faulty == faulty && this.fits == fits && this.db == db && tx.None?
    {
      this.faulty, this.fits, this.db, this.tx := faulty, fits, db, None;
    }

    method Fails() returns (b: bool)
      ensures b ==> faulty
    {
      b := *;
      b := b && faulty;
    }

    method Begin() returns (err: bool)
      requires tx.None?
      modifies this`tx
      ensures err ==> faulty && tx.None?
      ensures !err ==> tx == Some(db)
    {
      err := Fails();
      if !err {
        tx := Some(db);
      }
    }

    /** A file of several statements: when one fails those before it may have had effects on the transaction. */
    method Execute(m: Migration) returns (err: bool)
      requires tx.Some?
      modifies this`tx
      ensures tx.Some? && (err ==> faulty || !fits(m, old(tx).value))
      ensures !err ==> fits(m, old(tx).value)
      ensures !err ==> tx.value == old(tx).value.(organizations := true, ran := old(tx).value.ran + [m])
    {
      err := Fails();
      err := err || !fits(m, tx.value);
      if err {
        var halfway: bool := *;
        tx := Some(tx.value.(organizations := halfway));
      } else {
        tx := Some(tx.value.(organizations := true, ran := tx.value.ran + [m]));
      }
    }

    /** A line of the history; a version can have only one. */
    method Insert(a: Row) returns (err: bool)
      requires tx.Some?
      modifies this`tx
      ensures tx.Some? && (err ==> tx == old(tx) && (faulty || !Recordable(old(tx).value, a.version)))
      ensures !err ==> Recordable(old(tx).value, a.version)
                       && tx.value == old(tx).value.(history := Some(old(tx).value.history.value + [a]))
    {
      err := Fails();
      if err || !Recordable(tx.value, a.version) {
        return true;
      }
      tx := Some(tx.value.(history := Some(tx.value.history.value + [a])));
    }

    method Commit() returns (err: bool)
      requires tx.Some?
      modifies this
      ensures err ==> faulty && db == old(db)
      ensures !err ==> Some(db) == old(tx) && tx.None?
    {
      err := Fails();
      if !err {
        db, tx := tx.value, None;
      }
    }

    /** Nothing after a commit. */
    method Rollback()
      modifies this`tx
      ensures tx.None?
    {
      tx := None;
    }

    /** One transaction: a migration is executed and recorded, or leaves no trace, wherever it fails; a version already
        recorded is not applied again. */
    method Apply(m: Migration) returns (ok: bool)
      requires tx.None?
      modifies this
      ensures tx.None? && db == if ok then Executed(old(db), m) else old(db)
      ensures ok ==> db == Db(Some(Lines(old(db)) + [Row(m.version, m.name, m.checksum)]), true, old(db).ran + [m])
      ensures ok ==> Recordable(old(db), m.version) && fits(m, old(db))
      ensures !faulty && Recordable(old(db), m.version) && fits(m, old(db)) ==> ok
    {
      var err := Begin();
      if err {
        return false;
      }
      err := Execute(m);
      if !err {
        err := Insert(RowOf(m));
      }
      if !err {
        err := Commit();
      }
      Rollback();
      return !err;
    }

    /** Apply what is pending. A failure on the way keeps the migrations applied so far. */
    method Up(migs: seq<Migration>, ghost all: seq<Migration>, ghost adopted: nat)
      returns (r: Outcome, ghost op: Operation)
      requires Ordered(all) && migs <= all && Orderly(db, all, adopted) && tx.None?
      modifies this
      ensures tx.None? && Orderly(db, all, adopted)
      ensures op.Upgrade? && op.migs == migs && db == After(old(db), op)
      ensures !faulty ==> db == Upgraded(fits, old(db), migs)
      ensures !faulty && r.Failed? ==> |Lines(db)| < |migs| && !fits(migs[|Lines(db)|], db)
      ensures !faulty ==> (r.LegacyDatabase? <==> old(db).history.None? && old(db).organizations)
      ensures !faulty ==> (r.Refused? <==> !Legacy(old(db)) && !Prefix(Lines(old(db)), migs))
      ensures r.LegacyDatabase? || r.Refused? || r.Done? || r.Failed?
      ensures Legacy(old(db)) || !Prefix(Lines(old(db)), migs) ==>
                db == old(db) && (r.LegacyDatabase? || r.Refused? || r == Failed([]))
      ensures r.LegacyDatabase? ==> Legacy(old(db))
      ensures r.Refused? ==> !Prefix(Lines(old(db)), migs)
      ensures r.Done? ==>
                Lines(db) == Lines(old(db)) + RowsOf(r.applied) && Prefix(Lines(db), migs) && |Lines(db)| == |migs|
      ensures r.Failed? ==> Lines(db) == Lines(old(db)) + RowsOf(r.kept)
    {
      hide Prefix;
      hide Orderly;
      hide ExecutedAll;
      hide After;
      op := Upgrade(migs, false, 0);
      NotReached(db, op);
      var failed := Fails();
      if failed {
        return Failed([]), op;
      }
      if Legacy(db) {
        return LegacyDatabase, op;
      }
      OrderlyLines(db, migs, all, adopted);
      var plan := MakePlan(Lines(db), migs);
      if !plan.Pending? {
        return Refused(plan), op;
      }
      PrefixSize(Lines(db), migs);
      if |plan.migs| == 0 {
        return Done([]), op;
      }
      failed := Fails();
      if failed {
        return Failed([]), op;
      }
      ghost var k;
      r, k := CatchUp(plan.migs, migs, all, adopted);
      RowsLength(plan.migs[..k]);
      op := Upgrade(migs, true, k);
      CaughtUp(old(db), migs, k);
    }

    method CatchUp(pending: seq<Migration>, ghost migs: seq<Migration>, ghost all: seq<Migration>, ghost adopted: nat)
      returns (r: Outcome, ghost k: nat)
      requires Ordered(migs) && migs <= all && Orderly(db, all, adopted) && Prefix(Lines(db), migs) && tx.None?
      requires |Lines(db)| <= |migs| && pending == migs[|Lines(db)|..]
      modifies this
      ensures tx.None? && Orderly(db, all, adopted) && (r.Done? || r.Failed?)
      ensures k <= |pending| && db == ExecutedAll(WithTable(old(db)), pending[..k])
      ensures r.Done? ==> r.applied == pending && k == |pending| && db == ExecutedAll(WithTable(old(db)), pending)
                          && Prefix(Lines(db), migs) && |Lines(db)| == |migs|
      ensures !faulty ==> k == Fitting(fits, WithTable(old(db)), pending, 0)
      ensures r.Failed? ==> k < |pending| && r.kept == pending[..k]
      ensures Lines(db) == Lines(old(db)) + RowsOf(if r.Done? then r.applied else r.kept)
    {
      hide Prefix;
      hide Orderly;
      hide ExecutedAll;
      ghost var start := db;
      db := WithTable(db);
      var done := ApplyAll(pending, start, migs);
      k := done;
      SomeExecuted(start, migs, all, adopted, k);
      AllExecuted(start, migs);
      assert pending[..|pending|] == pending;
      if done < |pending| {
        return Failed(pending[..done]), k;
      }
      return Done(pending), k;
    }

    /** Apply migrations until one fails. */
    method ApplyAll(pending: seq<Migration>, ghost start: Db, ghost migs: seq<Migration>) returns (k: nat)
      requires tx.None? && db == WithTable(start) && Ordered(migs) && Prefix(Lines(start), migs)
      requires |Lines(start)| <= |migs| && pending == migs[|Lines(start)|..]
      modifies this
      ensures tx.None? && k <= |pending| && db == ExecutedAll(WithTable(start), pending[..k])
      ensures !faulty ==> k == Fitting(fits, WithTable(start), pending, 0)
    {
      hide Prefix;
      hide Recordable;
      k := 0;
      while k < |pending|
        invariant tx.None? && k <= |pending| && db == ExecutedAll(WithTable(start), pending[..k])
        invariant Fitting(fits, WithTable(start), pending, 0) == Fitting(fits, WithTable(start), pending, k)
      {
        assert pending[..k + 1][..k] == pending[..k];
        PendingIsRecordable(start, migs, k);
        var ok := Apply(pending[k]);
        if !ok {
          return;
        }
        k := k + 1;
      }
    }

    /** Insert the lines of the migrations up to a version, until an insertion fails. */
    method Mark(migs: seq<Migration>, version: nat) returns (err: bool, marked: seq<Migration>)
      requires tx.Some? && tx.value.history == Some([]) && Ordered(migs)
      modifies this`tx
      ensures tx.Some? && (err ==> faulty)
      ensures !err ==> marked == Adopted(migs, version) && tx.value == old(tx).value.(history := Some(RowsOf(marked)))
    {
      hide Adopted;
      hide Recordable;
      marked := [];
      var i := 0;
      err := false;
      assert migs[0..] == migs && migs[..0] == [];
      while i < |migs| && migs[i].version <= version
        invariant i <= |migs| && marked == migs[..i]
                  && migs[..i] + Adopted(migs[i..], version) == Adopted(migs, version)
        invariant tx.Some? && tx.value == old(tx).value.(history := Some(RowsOf(marked)))
      {
        AdoptOneMore(migs, version, i);
        err := Insert(RowOf(migs[i]));
        if err {
          return;
        }
        marked := marked + [migs[i]];
        i := i + 1;
      }
      AdoptNoMore(migs, version, i);
    }

    /** Record the migrations up to a version as applied without executing them, unless there is history. A failure on
        the way can leave an empty history table. */
    method Baseline(migs: seq<Migration>, version: nat, ghost all: seq<Migration>, ghost adopted: nat)
      returns (r: Outcome, ghost op: Operation)
      requires Ordered(all) && migs <= all && Orderly(db, all, adopted) && tx.None?
      modifies this
      ensures tx.None? && op.Adopt? && op.migs == migs && db == After(old(db), op)
      ensures r.Done? ==> Lines(old(db)) == [] && Known(migs, version) && r.applied == Adopted(migs, version)
                          && db == old(db).(history := Some(RowsOf(r.applied))) && Orderly(db, all, |r.applied|)
      ensures !r.Done? ==>
                Orderly(db, all, adopted) && (db == old(db) || (Lines(old(db)) == [] && db == WithTable(old(db))))
      ensures r.UnknownVersion? ==> !Known(migs, version)
      ensures r.HasHistory? ==> Lines(old(db)) != []
      ensures !faulty ==> r.Done? || r.UnknownVersion? || r.HasHistory?
    {
      AdoptedIsPrefix(migs, version);
      OrderlyLines(db, migs, all, adopted);
      hide Adopted;
      hide After;
      hide Orderly;
      op := Adopt(migs, version, false, false);
      NotReached(db, op);
      var failed := Fails();
      if failed {
        return Failed([]), op;
      }
      var found := HasVersion(migs, version);
      if !found {
        return UnknownVersion, op;
      }
      failed := Fails();
      if failed {
        return Failed([]), op;
      }
      if db.history.Some? && |db.history.value| > 0 {
        return HasHistory, op;
      }
      failed := Fails();
      if failed {
        return Failed([]), op;
      }
      AdoptReached(db, migs, version, all, adopted);
      db := WithTable(db);
      op := Adopt(migs, version, true, false);
      failed := Begin();
      if failed {
        return Failed([]), op;
      }
      var marked;
      failed, marked := Mark(migs, version);
      if !failed {
        failed := Commit();
      }
      Rollback();
      if failed {
        return Failed([]), op;
      }
      op := Adopt(migs, version, true, true);
      return Done(marked), op;
    }

    method HasVersion(migs: seq<Migration>, version: nat) returns (found: bool)
      ensures found <==> Known(migs, version)
    {
      found := false;
      for i := 0 to |migs|
        invariant found <==> exists j :: 0 <= j < i && migs[j].version == version
      {
        if migs[i].version == version {
          found := true;
        }
      }
    }

    /** A binary runs only on a schema it knows in full. */
    method RequireUpToDate(migs: seq<Migration>) returns (ok: bool)
      requires Ordered(migs) && OrderedRows(Lines(db))
      ensures ok ==> Prefix(Lines(db), migs) && |Lines(db)| == |migs| && (db.history.Some? || !db.organizations)
      ensures !faulty && (db.history.Some? || !db.organizations) && Prefix(Lines(db), migs) && |Lines(db)| == |migs| ==>
                ok
    {
      var failed := Fails();
      if failed || Legacy(db) {
        return false;
      }
      var plan := MakePlan(Lines(db), migs);
      return plan.Pending? && |plan.migs| == 0;
    }
  }

  // ---- runs

  /** A run of a binary that knows some migrations, and how far it gets: whether it reaches the history table, and
      then how many migrations it applies; or an adoption, whether it reaches the history table and commits. */
  datatype Operation =
    | Upgrade(migs: seq<Migration>, reached: bool, applied: nat)
    | Adopt(migs: seq<Migration>, version: nat, reached: bool, committed: bool)

  ghost function After(db: Db, op: Operation): Db {
    match op
    case Upgrade(migs, reached, applied) =>
      if !reached || Legacy(db) || !Prefix(Lines(db), migs) || |Lines(db)| == |migs| then db
      else
        var pending := migs[|Lines(db)|..];
        ExecutedAll(WithTable(db), if applied < |pending| then pending[..applied] else pending)
    case Adopt(migs, version, reached, committed) =>
      if !reached || !Known(migs, version) || Lines(db) != [] then db
      else if !committed then WithTable(db)
      else db.(history := Some(RowsOf(Adopted(migs, version))))
  }

  lemma NotReached(db: Db, op: Operation)
    requires !op.reached
    ensures After(db, op) == db
  {
  }

  lemma AdoptReached(db: Db, migs: seq<Migration>, version: nat, all: seq<Migration>, adopted: nat)
    requires Known(migs, version) && Lines(db) == [] && migs <= all && Orderly(db, all, adopted)
    ensures After(db, Adopt(migs, version, true, false)) == WithTable(db) && Orderly(WithTable(db), all, adopted)
    ensures var marked := Adopted(migs, version);
            var d := db.(history := Some(RowsOf(marked)));
            After(db, Adopt(migs, version, true, true)) == d && Orderly(d, all, |marked|)
  {
    AdoptedIsPrefix(migs, version);
    var marked := Adopted(migs, version);
    hide Adopted;
    assert marked == all[..|marked|];
  }

  lemma CaughtUp(db: Db, migs: seq<Migration>, k: nat)
    requires !Legacy(db) && Prefix(Lines(db), migs) && |Lines(db)| < |migs| && k <= |migs| - |Lines(db)|
    ensures After(db, Upgrade(migs, true, k)) == ExecutedAll(WithTable(db), migs[|Lines(db)|..][..k])
  {
    hide ExecutedAll;
    var pending := migs[|Lines(db)|..];
    assert pending[..|pending|] == pending;
  }

  ghost function RunOf(db: Db, ops: seq<Operation>): Db {
    if ops == [] then db else After(RunOf(db, ops[..|ops| - 1]), ops[|ops| - 1])
  }

  lemma AfterIsOrderly(db: Db, all: seq<Migration>, adopted: nat, op: Operation) returns (adopted': nat)
    requires Ordered(all) && op.migs <= all && Orderly(db, all, adopted)
    ensures Orderly(After(db, op), all, adopted')
  {
    hide After;
    match op {
      case Upgrade(migs, reached, applied) =>
        UpgradeIsOrderly(db, all, adopted, op);
        adopted' := adopted;
      case Adopt(migs, version, reached, committed) =>
        adopted' := AdoptIsOrderly(db, all, adopted, op);
    }
  }

  lemma UpgradeIsOrderly(db: Db, all: seq<Migration>, adopted: nat, op: Operation)
    requires Ordered(all) && op.migs <= all && Orderly(db, all, adopted) && op.Upgrade?
    ensures Orderly(After(db, op), all, adopted)
  {
    hide Orderly;
    hide ExecutedAll;
    if Prefix(Lines(db), op.migs) {
      PrefixSize(Lines(db), op.migs);
      hide Prefix;
      var pending := op.migs[|Lines(db)|..];
      assert pending[..|pending|] == pending;
      SomeExecuted(db, op.migs, all, adopted, if op.applied < |pending| then op.applied else |pending|);
    }
  }

  lemma AdoptIsOrderly(db: Db, all: seq<Migration>, adopted: nat, op: Operation) returns (adopted': nat)
    requires Ordered(all) && op.migs <= all && Orderly(db, all, adopted) && op.Adopt?
    ensures Orderly(After(db, op), all, adopted')
  {
    adopted' := adopted;
    StillOrderly(db, all, adopted);
    if After(db, op) != db && After(db, op) != WithTable(db) {
      AdoptedIsPrefix(op.migs, op.version);
      var marked := Adopted(op.migs, op.version);
      adopted' := |marked|;
      assert marked == all[..adopted'];
    }
  }

  /** Whatever runs, adoptions and interruptions follow one another, by binaries whose lists of migrations extend one
      another: the history stays a prefix of all migrations, those that ran did so once and in order, and each is
      recorded. */
  lemma {:induction false} RunsStayOrderly(db: Db, all: seq<Migration>, adopted: nat, ops: seq<Operation>)
    returns (adopted': nat)
    requires Ordered(all) && Orderly(db, all, adopted) && forall op :: op in ops ==> op.migs <= all
    ensures Orderly(RunOf(db, ops), all, adopted') && Ordered(RunOf(db, ops).ran)
    ensures forall m :: m in RunOf(db, ops).ran ==>
              exists a :: a in Lines(RunOf(db, ops)) && a.version == m.version && a.checksum == m.checksum
  {
    if ops == [] {
      adopted' := adopted;
    } else {
      var init, last := ops[..|ops| - 1], ops[|ops| - 1];
      var before := RunsStayOrderly(db, all, adopted, init);
      assert last in ops;
      adopted' := AfterIsOrderly(RunOf(db, init), all, before, last);
    }
    RanOnceInOrder(RunOf(db, ops), all, adopted');
  }

  /** That holds of every run from an empty database or one made by hand. */
  lemma RunsFromTheStart(all: seq<Migration>, organizations: bool, ops: seq<Operation>) returns (adopted: nat)
    requires Ordered(all) && forall op :: op in ops ==> op.migs <= all
    ensures var db := RunOf(Db(None, organizations, []), ops);
            && Prefix(Lines(db), all) && Ordered(db.ran)
            && adopted <= |Lines(db)| && db.ran == all[adopted..|Lines(db)|]
  {
    adopted := RunsStayOrderly(Db(None, organizations, []), all, 0, ops);
  }

  // ---- databases migrated by hand

  /** A run takes the database for an empty one: it is not refused, and every migration is pending. */
  predicate TakenForEmpty(db: Db, migs: seq<Migration>) {
    !Legacy(db) && Prefix(Lines(db), migs) && migs[|Lines(db)|..] == migs
  }

  /** A database with tables and no recorded migration is refused exactly when it has no history table; with one it is
      taken for empty. */
  lemma LegacyRefusedExactly(db: Db, migs: seq<Migration>)
    requires db.organizations && Lines(db) == []
    ensures Legacy(db) <==> db.history.None?
    ensures TakenForEmpty(db, migs) <==> db.history.Some?
  {
    assert migs[0..] == migs;
  }

  /** An adoption interrupted after it made the history table leaves such a database. */
  lemma InterruptedAdoption(db: Db, migs: seq<Migration>, version: nat)
    requires Legacy(db) && Known(migs, version)
    ensures var d := After(db, Adopt(migs, version, true, false));
            d == WithTable(db) && !Legacy(d) && TakenForEmpty(d, migs)
  {
    LegacyRefusedExactly(WithTable(db), migs);
  }

  /** A run without failures then attempts the first migration on the tables made by hand, and keeps nothing exactly
      when it does not fit them, as creating a table again does not. */
  lemma RunAfterInterruption(fits: (Migration, Db) -> bool, db: Db, migs: seq<Migration>)
    requires Legacy(db) && migs != []
    ensures var d := WithTable(db); Upgraded(fits, d, migs) == d <==> !fits(migs[0], d)
  {
    var d := WithTable(db);
    assert migs[0..] == migs && migs[..0] == [];
    var k := Fitting(fits, d, migs, 0);
    ExecutedExact(d, migs[..k]);
  }
}

/** Paged reading of one day's log, newest matches first, from parts scanned in writing order. */
module LogReader {
  import opened Options

  datatype Attr = Attr(key: string, value: string)

  /** A line as read, with what parsing it yields; a line without a level has no rank. */
  datatype Line = Line(raw: string, time: Option<int>, rank: Option<int>, attrs: seq<Attr>)

  /** A parsed line and its number within the day, from 1. */
  datatype Entry = Entry(number: int, line: Line)

  /** Zero or empty fields filter nothing; minRank is below zero for no level filter. */
  datatype Query = Query(day: string, minRank: int, text: string, requestId: string, from: Option<int>, to: Option<int>,
                         before: int, limit: int)

  datatype Outcome = Page(entries: seq<Entry>, nextBefore: int, scanned: int) | BadDay | BadLimit | NoSuchDay

  // ---- what matches

  function Lower(s: string): string {
    seq(|s|, i requires 0 <= i < |s| => if 'A' <= s[i] <= 'Z' then s[i] - 'A' + 'a' else s[i])
  }

  predicate Contains(s: string, t: string) {
    exists i :: 0 <= i <= |s| - |t| && s[i..][..|t|] == t
  }

  /** The line carries the text searched for, in any case. */
  predicate Hit(q: Query, l: Line) { Lower(q.text) == "" || Contains(Lower(l.raw), Lower(q.text)) }

  predicate Accepts(q: Query, l: Line, at: Option<int>) {
    && !(q.minRank >= 0 && l.rank.Some? && l.rank.value < q.minRank)
    && (q.requestId == "" || exists a <- l.attrs :: a.key == "request_id" && a.value == q.requestId)
    && (q.from.Some? ==> at.Some? && at.value >= q.from.value)
    && (q.to.Some? ==> at.Some? && at.value < q.to.value)
  }

  /** The number of the line whose time line n has: the last one up to n that carries the text and a
      time; 0 for none. */
  function Source(q: Query, lines: seq<Line>, n: nat): (i: nat)
    requires n <= |lines|
    ensures i <= n && (i > 0 ==> lines[i - 1].time.Some? && Hit(q, lines[i - 1]))
    ensures forall j :: i <= j < n ==> lines[j].time.None? || !Hit(q, lines[j])
  {
    if n == 0 then 0
    else if Hit(q, lines[n - 1]) && lines[n - 1].time.Some? then n
    else Source(q, lines, n - 1)
  }

  function TimeAt(q: Query, lines: seq<Line>, n: nat): Option<int>
    requires n <= |lines|
  {
    var i := Source(q, lines, n);
    if i == 0 then None else lines[i - 1].time
  }

  predicate Matches(q: Query, lines: seq<Line>, n: nat)
    requires 0 < n <= |lines|
  {
    Hit(q, lines[n - 1]) && Accepts(q, lines[n - 1], TimeAt(q, lines, n))
  }

  /** The matches among the first n lines, oldest first. */
  function Found(q: Query, lines: seq<Line>, n: nat): (found: seq<Entry>)
    requires n <= |lines|
    ensures forall i :: 0 <= i < |found| ==> 0 < found[i].number <= n && found[i].line == lines[found[i].number - 1]
                                             && Matches(q, lines, found[i].number)
    ensures forall i, j :: 0 <= i < j < |found| ==> found[i].number < found[j].number
  {
    if n == 0 then []
    else Found(q, lines, n - 1) + (if Matches(q, lines, n) then [Entry(n, lines[n - 1])] else [])
  }

  /** Every match is found. */
  lemma {:induction false} FoundAll(q: Query, lines: seq<Line>, n: nat, k: nat)
    requires 0 < k <= n <= |lines| && Matches(q, lines, k)
    ensures exists e :: e in Found(q, lines, n) && e.number == k
  {
    if k < n {
      FoundAll(q, lines, n - 1, k);
      var e :| e in Found(q, lines, n - 1) && e.number == k;
      assert e in Found(q, lines, n);
    } else {
      assert Found(q, lines, n)[|Found(q, lines, n - 1)|] == Entry(n, lines[n - 1]);
    }
  }

  /** Without a text a line takes the time of the last line up to it that has one. With a text that is so exactly when
      that line carries the text as well, or no line up to it has a time. */
  lemma InheritedTimeExact(q: Query, lines: seq<Line>, n: nat)
    requires n <= |lines|
    ensures var any := Source(q.(text := ""), lines, n);
            Source(q, lines, n) == any <==> any == 0 || Hit(q, lines[any - 1])
  {
  }

  /** A line that carries the text but no time can be given the time of a line long before the one it follows. */
  lemma OlderTimeInherited()
    ensures var q := Query("2024-01-01", -1, "x", "", None, None, 0, 10);
            var lines := [Line("x", Some(1), None, []), Line("y", Some(9), None, []), Line("x", None, None, [])];
            TimeAt(q, lines, 3) == Some(1) && TimeAt(q.(text := ""), lines, 3) == Some(9)
  {
    var q := Query("2024-01-01", -1, "x", "", None, None, 0, 10);
    var lines := [Line("x", Some(1), None, []), Line("y", Some(9), None, []), Line("x", None, None, [])];
    assert Lower("x") == "x" && Lower("y") == "y" && Lower("") == "";
    assert "x"[0..][..1] == "x";
    assert Hit(q, lines[0]);
    assert "y"[0..][..1] == "y";
    assert Source(q, lines, 1) == 1 && Source(q, lines, 2) == 1 && Source(q, lines, 3) == 1;
    var all := q.(text := "");
    assert Source(all, lines, 2) == 2 && Source(all, lines, 3) == 2;
  }

  // ---- one page

  function LastOf<T>(s: seq<T>, n: nat): seq<T> { if |s| <= n then s else s[|s| - n..] }

  /** A full window drops its oldest for a new last element. */
  lemma OneMore<T>(s: seq<T>, x: T, n: nat)
    requires 0 < n
    ensures var kept := LastOf(s, n);
            LastOf(s + [x], n) == (if |kept| == n then kept[1..] else kept) + [x]
  {
  }

  function Reversed<T>(s: seq<T>): (r: seq<T>)
    ensures |r| == |s| && forall i :: 0 <= i < |s| ==> r[i] == s[|s| - 1 - i]
  {
    seq(|s|, i requires 0 <= i < |s| => s[|s| - 1 - i])
  }

  lemma ReversedSplit<T>(s: seq<T>, j: nat)
    requires j <= |s|
    ensures Reversed(s) == Reversed(s[j..]) + Reversed(s[..j])
  {
  }

  /** The lines a query looks at: those numbered below `before`, if given. */
  function Visible(before: int, lines: seq<Line>): (n: nat)
    ensures n <= |lines|
  {
    if 0 < before <= |lines| then before - 1 else |lines|
  }

  /** The newest matches below `before`, newest first, and where the next page starts: 0 when nothing older matches. */
  function PageOf(q: Query, before: int, lines: seq<Line>): (page: Outcome)
    requires q.limit > 0
    ensures page.Page?
    ensures page.nextBefore > 0 ==> |page.entries| == q.limit && (before > 0 ==> page.nextBefore < before)
  {
    var found := Found(q, lines, Visible(before, lines));
    var shown := LastOf(found, q.limit);
    Page(Reversed(shown), if |found| > q.limit then shown[0].number else 0, Visible(before, lines))
  }

  // ---- a page in plain terms

  /** The same letter in any case, or the same character. */
  ghost predicate SameLetter(a: char, b: char) {
    a == b || ('A' <= a <= 'Z' && b as int == a as int + 32) || ('A' <= b <= 'Z' && a as int == b as int + 32)
  }

  ghost predicate CarriesAt(raw: string, text: string, i: int) {
    0 <= i <= |raw| - |text| && forall j :: 0 <= j < |text| ==> SameLetter(raw[i + j], text[j])
  }

  ghost predicate Carries(raw: string, text: string) {
    exists i :: CarriesAt(raw, text, i)
  }

  lemma LowerLetters(a: string, b: string)
    requires |a| == |b|
    ensures Lower(a) == Lower(b) <==> forall j :: 0 <= j < |a| ==> SameLetter(a[j], b[j])
  {
    if Lower(a) == Lower(b) {
      forall j | 0 <= j < |a| ensures SameLetter(a[j], b[j]) {
        assert Lower(a)[j] == Lower(b)[j];
      }
    }
  }

  lemma LowerSlice(s: string, i: nat, n: nat)
    requires i + n <= |s|
    ensures Lower(s)[i..][..n] == Lower(s[i..][..n])
  {
  }

  lemma HitExact(q: Query, l: Line)
    ensures Hit(q, l) <==> Carries(l.raw, q.text)
  {
    var n := |q.text|;
    forall i: nat | i + n <= |l.raw|
      ensures CarriesAt(l.raw, q.text, i) <==> Lower(l.raw)[i..][..n] == Lower(q.text) {
      LowerSlice(l.raw, i, n);
      LowerLetters(l.raw[i..][..n], q.text);
    }
    if Lower(q.text) == "" {
      assert CarriesAt(l.raw, q.text, 0);
    }
  }

  /** Line i is the last one up to line n that carries the text and a time. */
  ghost predicate TimedAt(q: Query, lines: seq<Line>, n: nat, i: int)
    requires n <= |lines|
  {
    && 0 < i <= n && lines[i - 1].time.Some? && Carries(lines[i - 1].raw, q.text)
    && forall j :: i <= j < n && Carries(lines[j].raw, q.text) ==> lines[j].time.None?
  }

  /** The line carries the text; its rank, if it has one, and its request id are as asked for, and so is its time, which
      it may inherit. */
  ghost predicate Asked(q: Query, lines: seq<Line>, n: nat)
    requires 0 < n <= |lines|
  {
    var l := lines[n - 1];
    && Carries(l.raw, q.text)
    && (0 <= q.minRank && l.rank.Some? ==> q.minRank <= l.rank.value)
    && (q.requestId != "" ==> Attr("request_id", q.requestId) in l.attrs)
    && (q.from.Some? ==> exists i :: TimedAt(q, lines, n, i) && q.from.value <= lines[i - 1].time.value)
    && (q.to.Some? ==> exists i :: TimedAt(q, lines, n, i) && lines[i - 1].time.value < q.to.value)
  }

  lemma SourceExact(q: Query, lines: seq<Line>, n: nat)
    requires n <= |lines|
    ensures forall i :: TimedAt(q, lines, n, i) <==> i == Source(q, lines, n) > 0
  {
    forall l ensures Hit(q, l) <==> Carries(l.raw, q.text) {
      HitExact(q, l);
    }
    hide Hit;
    hide Carries;
    var s := Source(q, lines, n);
    forall i | TimedAt(q, lines, n, i) ensures i == s {
      assert Hit(q, lines[i - 1]);
    }
  }

  /** The lines that match are those. */
  lemma MatchesExact(q: Query, lines: seq<Line>, n: nat)
    requires 0 < n <= |lines|
    ensures Matches(q, lines, n) <==> Asked(q, lines, n)
  {
    HitExact(q, lines[n - 1]);
    SourceExact(q, lines, n);
    hide Hit;
    hide Carries;
    hide TimedAt;
    hide Source;
    var l, s := lines[n - 1], Source(q, lines, n);
    assert TimedAt(q, lines, n, s) <==> s > 0;
    assert (exists a <- l.attrs :: a.key == "request_id" && a.value == q.requestId)
           <==> Attr("request_id", q.requestId) in l.attrs;
  }

  /** Lines that were asked for, newest first. */
  ghost predicate ShowsAsked(q: Query, lines: seq<Line>, visible: nat, entries: seq<Entry>)
    requires visible <= |lines|
  {
    && (forall e :: e in entries ==>
          0 < e.number <= visible && e.line == lines[e.number - 1] && Asked(q, lines, e.number))
    && (forall i, j :: 0 <= i < j < |entries| ==> entries[j].number < entries[i].number)
  }

  /** A line asked for is shown, unless there is a next page and it is older than all that is shown. */
  ghost predicate LeavesOlder(q: Query, lines: seq<Line>, visible: nat, entries: seq<Entry>, more: bool)
    requires visible <= |lines|
  {
    forall n: nat :: 0 < n <= visible && Asked(q, lines, n) ==>
      (exists e :: e in entries && e.number == n) || (more && forall e :: e in entries ==> n < e.number)
  }

  /** The newest of the lines asked for below `before`. There is a next page exactly when there are more, and then this
      one is full and the next starts below its last line. */
  ghost predicate IsPage(q: Query, before: int, lines: seq<Line>, r: Outcome) {
    r.Page? &&
    var visible := if 0 < before <= |lines| then before - 1 else |lines|;
    && r.scanned == visible && |r.entries| <= q.limit
    && ShowsAsked(q, lines, visible, r.entries)
    && LeavesOlder(q, lines, visible, r.entries, r.nextBefore > 0)
    && (r.nextBefore > 0 ==>
          && |r.entries| == q.limit > 0 && r.entries[q.limit - 1].number == r.nextBefore <= visible
          && exists n: nat :: 0 < n < r.nextBefore && Asked(q, lines, n))
  }

  lemma PageExact(q: Query, before: int, lines: seq<Line>)
    requires q.limit > 0
    ensures IsPage(q, before, lines, PageOf(q, before, lines))
  {
    hide Found;
    hide Asked;
    hide ShowsAsked;
    hide LeavesOlder;
    hide Reversed;
    var visible := Visible(before, lines);
    var found, r := Found(q, lines, visible), PageOf(q, before, lines);
    FoundAsked(q, lines, visible);
    NewestShown(found, q.limit);
    hide LastOf;
    ShownOfFound(q, lines, visible, found, r.entries, r.nextBefore > 0);
    if r.nextBefore > 0 {
      OlderAsked(q, lines, visible, found);
    }
  }

  lemma OlderAsked(q: Query, lines: seq<Line>, n: nat, found: seq<Entry>)
    requires n <= |lines| && found == Found(q, lines, n) && 0 < q.limit < |found|
    ensures exists k: nat :: 0 < k < found[|found| - q.limit].number && Asked(q, lines, k)
  {
    FoundAsked(q, lines, n);
    hide Asked;
    var older := found[|found| - q.limit - 1];
    assert older in found && older.number < found[|found| - q.limit].number;
  }

  lemma FoundAsked(q: Query, lines: seq<Line>, n: nat)
    requires n <= |lines|
    ensures LeavesOlder(q, lines, n, Found(q, lines, n), false)
    ensures forall e :: e in Found(q, lines, n) ==>
              0 < e.number <= n && e.line == lines[e.number - 1] && Asked(q, lines, e.number)
  {
    var found := Found(q, lines, n);
    forall k: nat | 0 < k <= n ensures Matches(q, lines, k) <==> Asked(q, lines, k) {
      MatchesExact(q, lines, k);
    }
    forall k: nat | 0 < k <= n && Asked(q, lines, k) ensures exists e :: e in found && e.number == k {
      FoundAll(q, lines, n, k);
    }
    hide Matches;
    hide Asked;
    hide Found;
  }

  lemma ShownOfFound(q: Query, lines: seq<Line>, n: nat, found: seq<Entry>, shown: seq<Entry>, more: bool)
    requires n <= |lines| && LeavesOlder(q, lines, n, found, false)
    requires forall e :: e in found ==>
               0 < e.number <= n && e.line == lines[e.number - 1] && Asked(q, lines, e.number)
    requires forall e :: e in shown ==> e in found
    requires forall i, j :: 0 <= i < j < |shown| ==> shown[j].number < shown[i].number
    requires forall e :: e in found ==> e in shown || (more && forall f :: f in shown ==> e.number < f.number)
    ensures ShowsAsked(q, lines, n, shown) && LeavesOlder(q, lines, n, shown, more)
  {
    hide Asked;
  }

  /** The last of some entries, newest first: what is left out is older. */
  lemma NewestShown(found: seq<Entry>, limit: nat)
    requires limit > 0 && forall i, j :: 0 <= i < j < |found| ==> found[i].number < found[j].number
    ensures var shown := Reversed(LastOf(found, limit));
            && (forall i, j :: 0 <= i < j < |shown| ==> shown[j].number < shown[i].number)
            && (forall e :: e in found ==>
                  e in shown || (|found| > limit && forall f :: f in shown ==> e.number < f.number))
            && (forall e :: e in shown ==> e in found)
            && (|found| > limit ==> |shown| == limit && shown[limit - 1] == LastOf(found, limit)[0])
            && (|found| > limit ==> LastOf(found, limit)[0] == found[|found| - limit])
            && |shown| <= limit
  {
    var shown := Reversed(LastOf(found, limit));
    var k := |found| - |shown|;
    assert forall i :: 0 <= i < |shown| ==> shown[i] == found[|found| - 1 - i];
    forall e | e in found ensures e in shown || (|found| > limit && forall f :: f in shown ==> e.number < f.number) {
      var i :| 0 <= i < |found| && found[i] == e;
      if k <= i {
        assert shown[|found| - 1 - i] == e;
      }
    }
  }

  // ---- the scan

  /** The lines of the parts that can still be read; a part removed since it was listed is skipped. */
  function DayLines(parts: seq<Option<seq<Line>>>): seq<Line> {
    if parts == [] then []
    else (if parts[0].Some? then parts[0].value else []) + DayLines(parts[1..])
  }

  predicate DayPattern(s: string) {
    && |s| == 10 && s[4] == '-' && s[7] == '-'
    && forall i :: 0 <= i < 10 && i != 4 && i != 7 ==> '0' <= s[i] <= '9'
  }

  ghost predicate Number(s: string, digits: nat) {
    |s| == digits && forall i :: 0 <= i < digits ==> '0' <= s[i] <= '9'
  }

  /** Four, two and two digits with hyphens between them. */
  ghost predicate IsDay(s: string) {
    exists y, m, d :: Number(y, 4) && Number(m, 2) && Number(d, 2) && s == y + "-" + m + "-" + d
  }

  lemma DayPatternExact(s: string)
    ensures DayPattern(s) <==> IsDay(s)
  {
    if DayPattern(s) {
      var y, m, d := s[..4], s[5..7], s[8..];
      assert Number(y, 4) && Number(m, 2) && Number(d, 2);
      assert s == y + "-" + m + "-" + d;
    }
  }

  /** The scan after n lines: the last limit + 1 matches, and the time the next line may inherit. */
  ghost predicate Scanned(q: Query, lines: seq<Line>, n: nat, ring: seq<Entry>, lastTime: Option<int>) {
    n <= |lines| && q.limit > 0 && ring == LastOf(Found(q, lines, n), q.limit + 1) && lastTime == TimeAt(q, lines, n)
  }

  /** One line of the scan. */
  method Look(q: Query, line: Line, number: nat, ring: seq<Entry>, lastTime: Option<int>, ghost lines: seq<Line>)
    returns (ring': seq<Entry>, lastTime': Option<int>)
    requires q.limit > 0 && 0 < number <= |lines| && lines[number - 1] == line
    requires Scanned(q, lines, number - 1, ring, lastTime)
    ensures Scanned(q, lines, number, ring', lastTime')
  {
    hide Hit;
    hide Accepts;
    hide LastOf;
    ghost var found := Found(q, lines, number - 1);
    OneMore(found, Entry(number, line), q.limit + 1);
    assert found + [] == found;
    ring', lastTime' := ring, lastTime;
    if !Hit(q, line) {
      return;
    }
    if line.time.Some? {
      lastTime' := line.time;
    }
    if !Accepts(q, line, lastTime') {
      return;
    }
    if |ring'| == q.limit + 1 {
      ring' := ring'[1..];
    }
    ring' := ring' + [Entry(number, line)];
  }

  /** Scan a part until it ends or the line numbered `before` is reached. */
  method ScanPart(q: Query, part: seq<Line>, start: nat, ring: seq<Entry>, lastTime: Option<int>,
                  ghost lines: seq<Line>)
    returns (n: nat, ring': seq<Entry>, lastTime': Option<int>, stopped: bool)
    requires q.limit > 0 && start + |part| <= |lines| && lines[start..start + |part|] == part
    requires q.before > 0 ==> start < q.before
    requires Scanned(q, lines, start, ring, lastTime)
    ensures stopped <==> 0 < q.before <= start + |part|
    ensures n == if stopped then q.before else start + |part|
    ensures Scanned(q, lines, if stopped then n - 1 else n, ring', lastTime')
  {
    n, ring', lastTime', stopped := start, ring, lastTime, false;
    for i := 0 to |part|
      invariant n == start + i && (q.before > 0 ==> n < q.before)
      invariant Scanned(q, lines, n, ring', lastTime')
    {
      n := n + 1;
      if q.before > 0 && n >= q.before {
        stopped := true;
        return;
      }
      assert lines[n - 1] == lines[start..start + |part|][i];
      ring', lastTime' := Look(q, part[i], n, ring', lastTime', lines);
    }
  }

  lemma NextPart(parts: seq<Option<seq<Line>>>, i: nat, lines: seq<Line>, n: nat)
    requires i < |parts| && n <= |lines| && lines[n..] == DayLines(parts[i..])
    ensures var part := if parts[i].Some? then parts[i].value else [];
            && n + |part| <= |lines| && lines[n..n + |part|] == part
            && lines[n + |part|..] == DayLines(parts[i + 1..])
  {
    var part := if parts[i].Some? then parts[i].value else [];
    assert parts[i..][1..] == parts[i + 1..];
    assert lines[n..] == part + DayLines(parts[i + 1..]);
    assert lines[n..n + |part|] == lines[n..][..|part|];
    assert lines[n + |part|..] == lines[n..][|part|..];
  }

  /** Scan the parts in order, up to the line numbered `before`. */
  method Scan(q: Query, parts: seq<Option<seq<Line>>>)
    returns (line: nat, ring: seq<Entry>, ghost lastTime': Option<int>)
    requires q.limit > 0
    ensures var n := Visible(q.before, DayLines(parts));
            Scanned(q, DayLines(parts), n, ring, lastTime') && line == if n < |DayLines(parts)| then n + 1 else n
  {
    hide Scanned;
    hide DayLines;
    ghost var lines := DayLines(parts);
    StartOfScan(q, lines);
    line, ring := 0, [];
    var lastTime: Option<int> := None;
    var stopped := false;
    var i := 0;
    assert lines[0..] == lines && parts[0..] == parts;
    while i < |parts| && !stopped
      invariant 0 <= i <= |parts|
      invariant !stopped ==>
                  line <= |lines| && lines[line..] == DayLines(parts[i..]) && (q.before > 0 ==> line < q.before)
      invariant stopped ==> line == q.before && 0 < q.before <= |lines|
      invariant Scanned(q, lines, if stopped then line - 1 else line, ring, lastTime)
    {
      NextPart(parts, i, lines, line);
      if parts[i].Some? {
        line, ring, lastTime, stopped := ScanPart(q, parts[i].value, line, ring, lastTime, lines);
      }
      i := i + 1;
    }
    lastTime' := lastTime;
    if !stopped {
      NoParts();
      assert parts[i..] == [];
    }
  }

  lemma NoParts()
    ensures DayLines([]) == []
  {
  }

  /** A page of a day's matches, or why there is none. */
  method Read(q: Query, parts: seq<Option<seq<Line>>>) returns (r: Outcome)
    ensures if !IsDay(q.day) then r == BadDay
            else if q.limit < 1 then r == BadLimit
            else if parts == [] then r == NoSuchDay
            else r == PageOf(q, q.before, DayLines(parts)) && IsPage(q, q.before, DayLines(parts), r)
  {
    hide IsDay;
    hide IsPage;
    hide DayPattern;
    DayPatternExact(q.day);
    if !DayPattern(q.day) {
      return BadDay;
    }
    if q.limit < 1 {
      return BadLimit;
    }
    if parts == [] {
      return NoSuchDay;
    }
    hide Scanned;
    hide Found;
    PageExact(q, q.before, DayLines(parts));
    var line, ring, lastTime := Scan(q, parts);
    EndOfScan(q, DayLines(parts), Visible(q.before, DayLines(parts)), ring, lastTime);
    var scanned := line;
    if q.before > 0 && line >= q.before {
      scanned := q.before - 1;
    }
    var nextBefore := 0;
    if |ring| > q.limit {
      ring := ring[1..];
      nextBefore := ring[0].number;
    }
    r := Page(Reversed(ring), nextBefore, scanned);
  }

  lemma StartOfScan(q: Query, lines: seq<Line>)
    requires q.limit > 0
    ensures Scanned(q, lines, 0, [], None)
  {
  }

  /** The extra match of the window tells whether an older one remains. */
  lemma EndOfScan(q: Query, lines: seq<Line>, n: nat, ring: seq<Entry>, lastTime: Option<int>)
    requires q.limit > 0 && Scanned(q, lines, n, ring, lastTime) && n == Visible(q.before, lines)
    ensures var found := Found(q, lines, n);
            && (|ring| > q.limit <==> |found| > q.limit)
            && LastOf(found, q.limit) == if |ring| > q.limit then ring[1..] else ring
  {
  }

  // ---- paging through a day that may still be growing

  /** Whether a line matches depends on it and the lines before it only. */
  lemma {:induction false} FoundStable(q: Query, lines: seq<Line>, longer: seq<Line>, n: nat)
    requires n <= |lines| && lines <= longer
    ensures Found(q, longer, n) == Found(q, lines, n) && Source(q, longer, n) == Source(q, lines, n)
  {
    if n > 0 {
      FoundStable(q, lines, longer, n - 1);
      assert longer[n - 1] == lines[n - 1];
    }
  }

  /** The matches below a match are those found before it. */
  lemma {:induction false} FoundBelow(q: Query, lines: seq<Line>, n: nat, j: nat)
    requires n <= |lines| && j < |Found(q, lines, n)|
    ensures Found(q, lines, Found(q, lines, n)[j].number - 1) == Found(q, lines, n)[..j]
  {
    var found, init := Found(q, lines, n), Found(q, lines, n - 1);
    if j < |init| {
      FoundBelow(q, lines, n - 1, j);
      assert found[..j] == init[..j];
    } else {
      assert found[..j] == init;
    }
  }

  ghost predicate Growing(day: nat -> seq<Line>) {
    forall i: nat, j: nat :: i <= j ==> day(i) <= day(j)
  }

  /** Pages read one after the other, each where the one before it says; page i sees the day as it is then. */
  ghost function Pages(q: Query, day: nat -> seq<Line>, i: nat, before: int): seq<Entry>
    requires q.limit > 0
    decreases before <= 0, before
  {
    var page := PageOf(q, before, day(i));
    page.entries + if page.nextBefore == 0 then [] else Pages(q, day, i + 1, page.nextBefore)
  }

  /** However many lines are added meanwhile, the pages together are every match the day held when the first was read,
      newest first, each once. */
  lemma {:induction false} PagesTogether(q: Query, day: nat -> seq<Line>, i: nat, before: int)
    requires q.limit > 0 && Growing(day)
    ensures Pages(q, day, i, before) == Reversed(Found(q, day(i), Visible(before, day(i))))
    decreases before <= 0, before
  {
    hide Found;
    hide Hit;
    hide Accepts;
    var lines, n := day(i), Visible(before, day(i));
    var found, page := Found(q, lines, n), PageOf(q, before, lines);
    if |found| > q.limit {
      var j := |found| - q.limit;
      var next := page.nextBefore;
      assert next == found[j].number;
      PagesTogether(q, day, i + 1, next);
      assert lines <= day(i + 1);
      FoundStable(q, lines, day(i + 1), next - 1);
      FoundBelow(q, lines, n, j);
      ReversedSplit(found, j);
    }
  }
}

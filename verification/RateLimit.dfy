/** A token-bucket limiter that keeps only the buckets it needs, against an ideal bucket that is never dropped. Times
    are seconds, exact, on a clock that does not step back. */
module RateLimit {
  import opened Options

  // ---- the ideal bucket

  function Min(a: real, b: real): real { if a <= b then a else b }

  /** What a span adds at a rate. */
  function Gain(rate: real, span: real): real { span * rate }

  lemma GainAdds(rate: real, a: real, b: real)
    ensures Gain(rate, a) + Gain(rate, b) == Gain(rate, a + b)
  {
  }

  lemma GainGrows(rate: real, a: real, b: real)
    requires 0.0 < rate
    ensures Gain(rate, a) <= Gain(rate, b) <==> a <= b
  {
    assert (b - a) * rate == Gain(rate, b) - Gain(rate, a);
    if b < a {
      assert 0.0 < (a - b) * rate;
    }
  }

  lemma NoGain(rate: real)
    ensures Gain(rate, 0.0) == 0.0
  {
  }

  lemma GainOf(rate: real, tokens: real)
    requires 0.0 < rate
    ensures Gain(rate, tokens / rate) == tokens
  {
  }

  /** A bucket of capacity burst holding tokens, a span later. */
  function Refill(rate: real, burst: real, tokens: real, span: real): real { Min(burst, tokens + Gain(rate, span)) }

  /** The tokens at t of a bucket that was full at first and gave one token at each of the times. */
  function Avail(rate: real, burst: real, times: seq<real>, t: real): real {
    if times == [] then burst
    else
      var n := |times| - 1;
      Refill(rate, burst, Avail(rate, burst, times[..n], times[n]) - 1.0, t - times[n])
  }

  ghost predicate Since(times: seq<real>, t: real) {
    forall i :: 0 <= i < |times| ==> times[i] <= t
  }

  lemma RefillTwice(rate: real, burst: real, tokens: real, a: real, b: real)
    requires 0.0 < rate && 0.0 <= b
    ensures Refill(rate, burst, Refill(rate, burst, tokens, a), b) == Refill(rate, burst, tokens, a + b)
  {
    hide Gain;
    GainAdds(rate, a, b);
    GainGrows(rate, 0.0, b);
    NoGain(rate);
  }

  /** Looking at the ideal bucket in between makes no difference. */
  lemma AvailLater(rate: real, burst: real, times: seq<real>, t: real, u: real)
    requires 0.0 < rate && t <= u
    ensures Avail(rate, burst, times, u) == Refill(rate, burst, Avail(rate, burst, times, t), u - t)
    ensures Avail(rate, burst, times, t) <= Avail(rate, burst, times, u) <= burst
  {
    hide Gain;
    GainGrows(rate, 0.0, u - t);
    NoGain(rate);
    if times != [] {
      var n := |times| - 1;
      RefillTwice(rate, burst, Avail(rate, burst, times[..n], times[n]) - 1.0, t - times[n], u - t);
    }
  }

  lemma AfterAdmission(rate: real, burst: real, times: seq<real>, t: real)
    ensures Avail(rate, burst, times + [t], t) == Min(burst, Avail(rate, burst, times, t) - 1.0)
  {
    hide Gain;
    NoGain(rate);
    assert (times + [t])[..|times|] == times;
  }

  /** Every admission found a token. */
  ghost predicate Granted(rate: real, burst: real, times: seq<real>) {
    && (forall i, j :: 0 <= i <= j < |times| ==> times[i] <= times[j])
    && (forall j :: 0 <= j < |times| ==> Avail(rate, burst, times[..j], times[j]) >= 1.0)
  }

  /** Admissions i to j, the last at b, leave at most what a full bucket at i and the refill since then had to give. */
  lemma {:induction false} SpentSince(rate: real, burst: real, times: seq<real>, i: nat, j: nat)
    requires 0.0 < rate && Granted(rate, burst, times) && i < j <= |times|
    ensures 0.0 <= Avail(rate, burst, times[..j], times[j - 1])
            <= burst + Gain(rate, times[j - 1] - times[i]) - (j - i) as real
  {
    hide Gain;
    hide Avail;
    var n := j - 1;
    assert times[..j] == times[..n] + [times[n]];
    AfterAdmission(rate, burst, times[..n], times[n]);
    assert Avail(rate, burst, times[..n], times[n]) >= 1.0;
    AvailLater(rate, burst, times[..n], times[n], times[n]);
    if i < n {
      SpentSince(rate, burst, times, i, n);
      AvailLater(rate, burst, times[..n], times[n - 1], times[n]);
      GainAdds(rate, times[n - 1] - times[i], times[n] - times[n - 1]);
    } else {
      NoGain(rate);
    }
  }

  lemma GrantedGrows(rate: real, burst: real, times: seq<real>, t: real)
    requires 0.0 < rate && Granted(rate, burst, times) && Since(times, t) && Avail(rate, burst, times, t) >= 1.0
    ensures Granted(rate, burst, times + [t]) && Since(times + [t], t)
    ensures Avail(rate, burst, times + [t], t) == Avail(rate, burst, times, t) - 1.0
  {
    hide Avail;
    hide Refill;
    AfterAdmission(rate, burst, times, t);
    AvailLater(rate, burst, times, t, t);
    var all := times + [t];
    forall j | 0 <= j < |all| ensures Avail(rate, burst, all[..j], all[j]) >= 1.0 {
      assert all[..j] == times[..j];
    }
    assert times[..|times|] == times;
  }

  lemma FoundAToken(rate: real, burst: real, times: seq<real>, j: nat)
    requires Granted(rate, burst, times) && j < |times|
    ensures Avail(rate, burst, times[..j], times[j]) >= 1.0
  {
    hide Avail;
  }

  lemma RefillInside(rate: real, burst: real, tokens: real, span: real)
    requires 0.0 < rate && 0.0 <= burst && 0.0 <= tokens && 0.0 <= span
    ensures 0.0 <= Refill(rate, burst, tokens, span) <= burst
  {
    hide Gain;
    GainGrows(rate, 0.0, span);
    NoGain(rate);
  }

  lemma NeverNegative(rate: real, burst: real, times: seq<real>, t: real)
    requires 0.0 < rate && 0.0 <= burst && Granted(rate, burst, times) && Since(times, t)
    ensures 0.0 <= Avail(rate, burst, times, t) <= burst
  {
    hide Refill;
    hide Granted;
    if times != [] {
      var n := |times| - 1;
      FoundAToken(rate, burst, times, n);
      RefillInside(rate, burst, Avail(rate, burst, times[..n], times[n]) - 1.0, t - times[n]);
    }
  }

  /** Any interval admits at most burst requests plus what it refills. */
  lemma AdmissionsBounded(rate: real, burst: real, times: seq<real>, a: real, b: real, i: nat, j: nat)
    requires 0.0 < rate && 0.0 <= burst && a <= b
    requires Granted(rate, burst, times) && i <= j <= |times|
    requires forall k :: i <= k < j ==> a <= times[k] <= b
    ensures (j - i) as real <= burst + Gain(rate, b - a)
  {
    hide Gain;
    GainGrows(rate, 0.0, b - a);
    NoGain(rate);
    if i < j {
      SpentSince(rate, burst, times, i, j);
      GainGrows(rate, times[j - 1] - times[i], b - a);
    }
  }

  /** What is left is at least x exactly when it is within the capacity and, for every admission, x and the admissions
      from that one on are within the capacity and the refill since. */
  lemma {:induction false} AvailExactly(rate: real, burst: real, times: seq<real>, t: real, x: real)
    ensures Avail(rate, burst, times, t) >= x
            <==> x <= burst && forall i :: 0 <= i < |times| ==>
                   x + (|times| - i) as real <= burst + Gain(rate, t - times[i])
  {
    hide Avail;
    hide Gain;
    if times == [] {
      NoAdmission(rate, burst, t);
    } else {
      var n := |times| - 1;
      var init, last := times[..n], times[n];
      LastAdmission(rate, burst, times, t);
      var y := x + 1.0 - Gain(rate, t - last);
      AvailExactly(rate, burst, init, last, y);
      forall i | 0 <= i < n
        ensures y + (n - i) as real <= burst + Gain(rate, last - init[i])
                <==> x + (n + 1 - i) as real <= burst + Gain(rate, t - times[i]) {
        GainAdds(rate, last - times[i], t - last);
      }
    }
  }

  lemma NoAdmission(rate: real, burst: real, t: real)
    ensures Avail(rate, burst, [], t) == burst
  {
  }

  lemma LastAdmission(rate: real, burst: real, times: seq<real>, t: real)
    requires times != []
    ensures var n := |times| - 1;
            Avail(rate, burst, times, t)
            == Refill(rate, burst, Avail(rate, burst, times[..n], times[n]) - 1.0, t - times[n])
  {
  }

  /** One more admission at t keeps every interval that ends then within the capacity and its refill. */
  ghost predicate Affordable(rate: real, burst: real, times: seq<real>, t: real) {
    1.0 <= burst && forall i :: 0 <= i < |times| ==> 1.0 + (|times| - i) as real <= burst + (t - times[i]) * rate
  }

  /** A token is there exactly when one more admission can be afforded. */
  lemma TokenExactly(rate: real, burst: real, times: seq<real>, t: real)
    ensures Avail(rate, burst, times, t) >= 1.0 <==> Affordable(rate, burst, times, t)
  {
    AvailExactly(rate, burst, times, t, 1.0);
    hide Avail;
  }

  /** The wait reported with a refusal is exactly how long it takes until a token is there. */
  lemma WaitIsExact(rate: real, burst: real, times: seq<real>, now: real, t: real)
    requires 0.0 < rate && 1.0 <= burst && now <= t && Avail(rate, burst, times, now) < 1.0
    ensures Avail(rate, burst, times, t) >= 1.0 <==> t >= now + (1.0 - Avail(rate, burst, times, now)) / rate
  {
    hide Gain;
    var short := 1.0 - Avail(rate, burst, times, now);
    AvailLater(rate, burst, times, now, t);
    GainOf(rate, short);
    GainGrows(rate, short / rate, t - now);
  }

  // ---- the limiter

  const MINUTE: real := 60.0

  datatype Bucket = Bucket(tokens: real, last: real)

  datatype Entry = Entry(key: string, remaining: real, lastUsedAt: real)

  /** A kept bucket is the ideal one as of its last use; a key without a bucket has a full one. */
  ghost predicate Agrees(rate: real, burst: real, b: Option<Bucket>, times: seq<real>, clock: real) {
    && Granted(rate, burst, times) && Since(times, clock)
    && match b
       case Some(b) => b.last <= clock && Since(times, b.last) && b.tokens == Avail(rate, burst, times, b.last)
       case None => Avail(rate, burst, times, clock) == burst
  }

  lemma AgreesLater(rate: real, burst: real, b: Option<Bucket>, times: seq<real>, clock: real, now: real)
    requires 0.0 < rate && clock <= now && Agrees(rate, burst, b, times, clock)
    ensures Agrees(rate, burst, b, times, now)
  {
    AvailLater(rate, burst, times, clock, now);
  }

  /** A bucket idle for the time a whole refill takes is full, so it can be dropped. */
  lemma IdleIsFull(rate: real, burst: real, b: Bucket, times: seq<real>, now: real)
    requires 0.0 < rate && 0.0 < burst && Agrees(rate, burst, Some(b), times, now) && now - b.last >= burst / rate
    ensures Agrees(rate, burst, None, times, now)
  {
    hide Gain;
    NeverNegative(rate, burst, times, b.last);
    AvailLater(rate, burst, times, b.last, now);
    GainOf(rate, burst);
    GainGrows(rate, burst / rate, now - b.last);
  }

  function TimesOf(admitted: map<string, seq<real>>, key: string): seq<real> {
    if key in admitted then admitted[key] else []
  }

  function BucketOf(buckets: map<string, Bucket>, key: string): Option<Bucket> {
    if key in buckets then Some(buckets[key]) else None
  }

  ghost predicate AllAgree(rate: real, burst: real, buckets: map<string, Bucket>, admitted: map<string, seq<real>>,
                           clock: real) {
    forall key :: Agrees(rate, burst, BucketOf(buckets, key), TimesOf(admitted, key), clock)
  }

  lemma AllAgreeLater(rate: real, burst: real, buckets: map<string, Bucket>, admitted: map<string, seq<real>>,
                      clock: real, now: real)
    requires 0.0 < rate && clock <= now && AllAgree(rate, burst, buckets, admitted, clock)
    ensures AllAgree(rate, burst, buckets, admitted, now)
  {
    forall key ensures Agrees(rate, burst, BucketOf(buckets, key), TimesOf(admitted, key), now) {
      AgreesLater(rate, burst, BucketOf(buckets, key), TimesOf(admitted, key), clock, now);
    }
  }

  /** A change of one key leaves the others. */
  lemma OneChanged(rate: real, burst: real, buckets: map<string, Bucket>, admitted: map<string, seq<real>>,
                   buckets': map<string, Bucket>, admitted': map<string, seq<real>>, clock: real, key: string)
    requires AllAgree(rate, burst, buckets, admitted, clock)
    requires buckets' - {key} == buckets - {key} && admitted' - {key} == admitted - {key}
    requires Agrees(rate, burst, BucketOf(buckets', key), TimesOf(admitted', key), clock)
    ensures AllAgree(rate, burst, buckets', admitted', clock)
  {
    hide Agrees;
    forall other | other != key
      ensures BucketOf(buckets', other) == BucketOf(buckets, other)
              && TimesOf(admitted', other) == TimesOf(admitted, other) {
      assert other in buckets <==> other in buckets - {key};
      assert other in buckets' <==> other in buckets' - {key};
      assert other in admitted <==> other in admitted - {key};
      assert other in admitted' <==> other in admitted' - {key};
      assert other in buckets ==> buckets[other] == (buckets - {key})[other] == buckets'[other];
      assert other in admitted ==> admitted[other] == (admitted - {key})[other] == admitted'[other];
    }
    forall other ensures Agrees(rate, burst, BucketOf(buckets', other), TimesOf(admitted', other), clock) {
      assert Agrees(rate, burst, BucketOf(buckets, other), TimesOf(admitted, other), clock);
    }
  }

  /** A look at a bucket brings it up to date. */
  lemma RefreshAgrees(rate: real, burst: real, b: Option<Bucket>, times: seq<real>, now: real)
    requires 0.0 < rate && Agrees(rate, burst, b, times, now)
    ensures var c := if b.Some? then b.value else Bucket(burst, now);
            Avail(rate, burst, times, now) == Refill(rate, burst, c.tokens, now - c.last)
    ensures Agrees(rate, burst, Some(Bucket(Avail(rate, burst, times, now), now)), times, now)
  {
    NoGain(rate);
    if b.Some? {
      AvailLater(rate, burst, times, b.value.last, now);
    }
  }

  lemma AdmitAgrees(rate: real, burst: real, times: seq<real>, now: real)
    requires 0.0 < rate && Agrees(rate, burst, Some(Bucket(Avail(rate, burst, times, now), now)), times, now)
    requires Avail(rate, burst, times, now) >= 1.0
    ensures Agrees(rate, burst, Some(Bucket(Avail(rate, burst, times, now) - 1.0, now)), times + [now], now)
  {
    GrantedGrows(rate, burst, times, now);
  }

  // ---- the order of a snapshot: least left first, then by key

  predicate KeyLeq(a: string, b: string) {
    a == "" || (b != "" && (a[0] < b[0] || (a[0] == b[0] && KeyLeq(a[1..], b[1..]))))
  }

  lemma {:induction false} KeyOrder(a: string, b: string, c: string)
    ensures KeyLeq(a, b) || KeyLeq(b, a)
    ensures KeyLeq(a, b) && KeyLeq(b, c) ==> KeyLeq(a, c)
  {
    if a != "" && b != "" {
      KeyOrder(a[1..], b[1..], if c != "" then c[1..] else c);
    }
  }

  /** As strings are ordered: a prefix first, else by the first character that differs. */
  ghost predicate Precedes(a: string, b: string) {
    a <= b || exists i :: 0 <= i < |a| && i < |b| && a[..i] == b[..i] && a[i] < b[i]
  }

  lemma {:induction false} KeyLeqExact(a: string, b: string)
    ensures KeyLeq(a, b) <==> Precedes(a, b)
  {
    if a != "" && b != "" && a[0] == b[0] {
      KeyLeqExact(a[1..], b[1..]);
      assert a == [a[0]] + a[1..] && b == [b[0]] + b[1..];
      forall i | 0 < i < |a| && i < |b| ensures a[..i] == b[..i] <==> a[1..][..i - 1] == b[1..][..i - 1] {
        assert a[..i] == [a[0]] + a[1..][..i - 1] && b[..i] == [b[0]] + b[1..][..i - 1];
      }
      if Precedes(a, b) && !(a <= b) {
        var i :| 0 <= i < |a| && i < |b| && a[..i] == b[..i] && a[i] < b[i];
        assert a[1..][i - 1] < b[1..][i - 1];
      }
      if Precedes(a[1..], b[1..]) && !(a[1..] <= b[1..]) {
        var i :| 0 <= i < |a[1..]| && i < |b[1..]| && a[1..][..i] == b[1..][..i] && a[1..][i] < b[1..][i];
        assert a[i + 1] < b[i + 1];
      }
    } else if a != "" && b != "" && a[0] < b[0] {
      assert a[..0] == b[..0];
    }
  }

  /** Least left first, then by key. */
  ghost predicate LeastFirst(entries: seq<Entry>) {
    forall i, j :: 0 <= i < j < |entries| ==>
      || entries[i].remaining < entries[j].remaining
      || (entries[i].remaining == entries[j].remaining && Precedes(entries[i].key, entries[j].key))
  }

  lemma SortedIsLeastFirst(entries: seq<Entry>)
    ensures Sorted(entries) <==> LeastFirst(entries)
  {
    forall a, b ensures KeyLeq(a, b) <==> Precedes(a, b) {
      KeyLeqExact(a, b);
    }
    hide KeyLeq;
    hide Precedes;
  }

  predicate EntryLeq(a: Entry, b: Entry) {
    a.remaining < b.remaining || (a.remaining == b.remaining && KeyLeq(a.key, b.key))
  }

  ghost predicate Sorted(entries: seq<Entry>) {
    forall i, j :: 0 <= i < j < |entries| ==> EntryLeq(entries[i], entries[j])
  }

  function KeysOf(entries: seq<Entry>): set<string> { set x | x in entries :: x.key }

  /** One entry for each of the keys. */
  ghost predicate EntriesOf(entries: seq<Entry>, keys: set<string>) { KeysOf(entries) == keys && |entries| == |keys| }

  method Insert(entries: seq<Entry>, e: Entry, ghost keys: set<string>) returns (all: seq<Entry>)
    requires Sorted(entries) && EntriesOf(entries, keys) && e.key !in keys
    ensures Sorted(all) && EntriesOf(all, keys + {e.key})
    ensures forall x :: x in all <==> x in entries || x == e
  {
    hide KeyLeq;
    hide EntryLeq;
    var i := 0;
    while i < |entries| && EntryLeq(entries[i], e)
      invariant 0 <= i <= |entries|
      invariant forall j :: 0 <= j < i ==> EntryLeq(entries[j], e)
    {
      i := i + 1;
    }
    all := entries[..i] + [e] + entries[i..];
    InsertedSorted(entries, e, i);
    hide Sorted;
    assert entries == entries[..i] + entries[i..];
    assert forall x :: x in all <==> x in entries || x == e;
    assert KeysOf(all) == keys + {e.key};
  }

  lemma InsertedSorted(entries: seq<Entry>, e: Entry, i: nat)
    requires Sorted(entries) && i <= |entries| && (forall j :: 0 <= j < i ==> EntryLeq(entries[j], e))
    requires i < |entries| ==> !EntryLeq(entries[i], e)
    ensures Sorted(entries[..i] + [e] + entries[i..])
  {
    hide KeyLeq;
    forall j | i <= j < |entries| ensures EntryLeq(e, entries[j]) {
      KeyOrder(e.key, entries[i].key, entries[j].key);
      KeyOrder(entries[i].key, e.key, entries[j].key);
      assert EntryLeq(entries[i], entries[j]) || i == j;
    }
    hide EntryLeq;
    var all := entries[..i] + [e] + entries[i..];
    assert forall j :: 0 <= j < |all| ==> all[j] == if j < i then entries[j] else if j == i then e else entries[j - 1];
  }

  /** No key has two entries. */
  lemma {:induction false} OneEntryEach(entries: seq<Entry>, keys: set<string>)
    requires EntriesOf(entries, keys)
    ensures forall i, j :: 0 <= i < j < |entries| ==> entries[i].key != entries[j].key
  {
    if entries != [] {
      var last, init := entries[|entries| - 1], entries[..|entries| - 1];
      assert entries == init + [last];
      assert KeysOf(entries) == KeysOf(init) + {last.key};
      AtMostOneEach(init);
      assert last.key !in KeysOf(init) && |KeysOf(init)| == |init|;
      OneEntryEach(init, KeysOf(init));
      forall i | 0 <= i < |init| ensures init[i].key != last.key {
        assert init[i] in init;
      }
    }
  }

  lemma {:induction false} AtMostOneEach(entries: seq<Entry>)
    ensures |KeysOf(entries)| <= |entries|
  {
    if entries != [] {
      var last, init := entries[|entries| - 1], entries[..|entries| - 1];
      assert entries == init + [last];
      assert KeysOf(entries) == KeysOf(init) + {last.key};
      AtMostOneEach(init);
    }
  }

  /** What a prefix leaves out comes after all it holds. */
  lemma FirstOf(entries: seq<Entry>, keys: set<string>, n: nat, key: string)
    requires Sorted(entries) && EntriesOf(entries, keys) && n <= |entries| && key in keys
    ensures exists x :: && x in entries && x.key == key
                        && (x in entries[..n] || forall y :: y in entries[..n] ==> EntryLeq(y, x))
  {
    hide EntryLeq;
    var x :| x in entries && x.key == key;
    var j :| 0 <= j < |entries| && entries[j] == x;
    if j < n {
      assert entries[..n][j] == x;
    } else {
      forall y | y in entries[..n] ensures EntryLeq(y, x) {
        var i :| 0 <= i < n && entries[..n][i] == y;
        assert entries[i] == y;
      }
    }
  }

  class Limiter {
    const rate: real
    const burst: real
    var buckets: map<string, Bucket>
    var lastSweep: Option<real>
    /** When each key was given a token, and the latest time seen. */
    ghost var admitted: map<string, seq<real>>
    ghost var clock: real

    constructor (perMinute: real, capacity: int, start: real)
      ensures Valid() && admitted == map[] && clock == start
      ensures rate == perMinute / 60.0 && burst == capacity as real
    {
      rate, burst, buckets, lastSweep := perMinute / 60.0, capacity as real, map[], None;
      admitted, clock := map[], start;
    }

    predicate Disabled() { rate <= 0.0 || burst <= 0.0 }

    /** What the ideal bucket of the key holds. */
    ghost function Ideal(key: string, t: real): real
      reads this
    {
      Avail(rate, burst, TimesOf(admitted, key), t)
    }

    ghost predicate Valid()
      reads this
    {
      !Disabled() ==> AllAgree(rate, burst, buckets, admitted, clock)
    }

    /** Drop the buckets that have been idle long enough to be full, at most once a minute. */
    method Sweep(now: real)
      requires Valid() && !Disabled() && clock <= now
      modifies this`buckets, this`lastSweep, this`clock
      ensures Valid() && clock == now
      ensures old(lastSweep).Some? && now - old(lastSweep).value < 60.0 ==> buckets == old(buckets)
      ensures old(lastSweep).None? || now - old(lastSweep).value >= 60.0 ==>
                forall key :: key in buckets <==> key in old(buckets) && now - old(buckets)[key].last < burst / rate
    {
      hide Agrees;
      AllAgreeLater(rate, burst, buckets, admitted, clock, now);
      clock := now;
      if lastSweep.Some? && now - lastSweep.value < MINUTE {
        return;
      }
      lastSweep := Some(now);
      var refill := burst / rate;
      var todo := buckets.Keys;
      while todo != {}
        invariant Valid() && clock == now
        invariant forall key :: key in todo ==> key in buckets
        invariant forall key :: key in buckets ==> key in old(buckets) && buckets[key] == old(buckets)[key]
        invariant forall key :: key in old(buckets) && key !in todo ==>
                    (key in buckets <==> now - old(buckets)[key].last < refill)
        invariant forall key :: key in todo ==> key in old(buckets)
        decreases todo
      {
        var key :| key in todo;
        if now - buckets[key].last >= refill {
          assert Agrees(rate, burst, BucketOf(buckets, key), TimesOf(admitted, key), now);
          IdleIsFull(rate, burst, buckets[key], TimesOf(admitted, key), now);
          OneChanged(rate, burst, buckets, admitted, buckets - {key}, admitted, now, key);
          buckets := buckets - {key};
        }
        todo := todo - {key};
      }
    }

    /** Give the key a token if it has one, or say whether it has; otherwise say when it will have one. The answer is
        that of the ideal bucket, and only a token given changes what any key holds. */
    method Take(key: string, now: real, consume: bool) returns (ok: bool, wait: real)
      requires Valid() && clock <= now
      modifies this
      ensures Valid()
      ensures rate <= 0.0 || burst <= 0.0 ==> ok && wait == 0.0 && admitted == old(admitted) && clock == old(clock)
      ensures 0.0 < rate && 0.0 < burst ==>
                && clock == now
                && ok == (old(Ideal(key, now)) >= 1.0)
                && wait == (if ok then 0.0 else (1.0 - old(Ideal(key, now))) / rate)
                && admitted == if ok && consume then old(admitted)[key := TimesOf(old(admitted), key) + [now]]
                   else old(admitted)
    {
      hide Agrees;
      hide Refill;
      if Disabled() {
        return true, 0.0;
      }
      Sweep(now);
      ghost var times := TimesOf(admitted, key);
      assert Agrees(rate, burst, BucketOf(buckets, key), times, now);
      RefreshAgrees(rate, burst, BucketOf(buckets, key), times, now);
      var kept := key in buckets;
      var b := if kept then buckets[key] else Bucket(burst, now);
      b := Bucket(Refill(rate, burst, b.tokens, now - b.last), now);
      if kept || consume {
        OneChanged(rate, burst, buckets, admitted, buckets[key := b], admitted, now, key);
        buckets := buckets[key := b];
      }
      if b.tokens < 1.0 {
        return false, (1.0 - b.tokens) / rate;
      }
      if consume {
        AdmitAgrees(rate, burst, times, now);
        b := Bucket(b.tokens - 1.0, now);
        OneChanged(rate, burst, buckets, admitted, buckets[key := b], admitted[key := times + [now]], now, key);
        buckets := buckets[key := b];
        admitted := admitted[key := times + [now]];
      }
      return true, 0.0;
    }

    method Allow(key: string, now: real) returns (ok: bool, wait: real)
      requires Valid() && clock <= now
      modifies this
      ensures Valid()
      ensures rate <= 0.0 || burst <= 0.0 ==> ok && wait == 0.0 && admitted == old(admitted)
      ensures 0.0 < rate && 0.0 < burst ==>
                ok == Affordable(rate, burst, if key in old(admitted) then old(admitted)[key] else [], now)
      ensures 0.0 < rate && 0.0 < burst ==>
                && clock == now && ok == (old(Ideal(key, now)) >= 1.0)
                && wait == (if ok then 0.0 else (1.0 - old(Ideal(key, now))) / rate)
                && admitted == if ok then old(admitted)[key := TimesOf(old(admitted), key) + [now]] else old(admitted)
    {
      TokenExactly(rate, burst, TimesOf(admitted, key), now);
      ok, wait := Take(key, now, true);
    }

    /** Whether Allow would succeed; no key's tokens change, so no later answer does. */
    method Check(key: string, now: real) returns (ok: bool, wait: real)
      requires Valid() && clock <= now
      modifies this
      ensures Valid() && admitted == old(admitted)
      ensures rate <= 0.0 || burst <= 0.0 ==> ok && wait == 0.0 && clock == old(clock)
      ensures 0.0 < rate && 0.0 < burst ==>
                && clock == now && ok == (old(Ideal(key, now)) >= 1.0)
                && wait == (if ok then 0.0 else (1.0 - old(Ideal(key, now))) / rate)
    {
      ok, wait := Take(key, now, false);
    }

    /** The keys whose bucket is not full. */
    ghost function Lacking(now: real): set<string>
      reads this
    {
      set key | key in admitted && Ideal(key, now) < burst
    }

    /** Only a key with a bucket can lack tokens. */
    lemma LackingIsKept(key: string, now: real)
      requires Valid() && !Disabled() && clock <= now
      ensures key in Lacking(now) <==> key in buckets && Ideal(key, now) < burst
      ensures key in buckets ==> Ideal(key, now) == Refill(rate, burst, buckets[key].tokens, now - buckets[key].last)
    {
      var times := TimesOf(admitted, key);
      AllAgreeLater(rate, burst, buckets, admitted, clock, now);
      assert Agrees(rate, burst, BucketOf(buckets, key), times, now);
      RefreshAgrees(rate, burst, BucketOf(buckets, key), times, now);
      NoGain(rate);
    }

    /** The entry of a key as the ideal bucket has it. */
    ghost predicate Shows(x: Entry, now: real)
      reads this
    {
      x.remaining == Ideal(x.key, now) && x.key in buckets && x.lastUsedAt == buckets[x.key].last
    }

    /** The first entries of the keys that lack tokens, least left first; nothing changes. */
    method Snapshot(now: real, maxEntries: int) returns (keys: nat, entries: seq<Entry>, ghost all: seq<Entry>)
      requires Valid() && clock <= now
      ensures rate <= 0.0 || burst <= 0.0 ==> keys == 0 && entries == []
      ensures 0.0 < rate && 0.0 < burst ==>
                && LeastFirst(all) && EntriesOf(all, Lacking(now)) && (forall x :: x in all ==> Shows(x, now))
                && keys == |Lacking(now)|
                && entries == if 0 <= maxEntries < keys then all[..maxEntries] else all
    {
      if Disabled() {
        return 0, [], [];
      }
      entries := Collect(now);
      SortedIsLeastFirst(entries);
      keys, all := |entries|, entries;
      if 0 <= maxEntries < keys {
        entries := entries[..maxEntries];
      }
    }

    method Collect(now: real) returns (entries: seq<Entry>)
      requires Valid() && !Disabled() && clock <= now
      ensures Sorted(entries) && EntriesOf(entries, Lacking(now)) && forall x :: x in entries ==> Shows(x, now)
    {
      hide Sorted;
      hide EntriesOf;
      hide Refill;
      hide Avail;
      hide AllAgree;
      hide Ideal;
      entries := [];
      var todo := buckets.Keys;
      ghost var listed: set<string> := {};
      NoEntries();
      while todo != {}
        invariant todo <= buckets.Keys
        invariant Sorted(entries) && EntriesOf(entries, listed)
        invariant forall key :: key in listed <==> key in buckets && key !in todo && Ideal(key, now) < burst
        invariant forall x :: x in entries ==> Shows(x, now)
        decreases todo
      {
        var key :| key in todo;
        todo := todo - {key};
        var b := buckets[key];
        LackingIsKept(key, now);
        var remaining := Refill(rate, burst, b.tokens, now - b.last);
        if remaining < burst {
          entries := Insert(entries, Entry(key, remaining, b.last), listed);
          listed := listed + {key};
        }
      }
      forall key ensures key in listed <==> key in Lacking(now) {
        LackingIsKept(key, now);
      }
      assert listed == Lacking(now);
    }
  }

  lemma NoEntries()
    ensures Sorted([]) && EntriesOf([], {})
  {
  }
}

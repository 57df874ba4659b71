/** A log kept in daily parts that are split by size, compressed once finished and pruned: what the parts of a day
    hold. */
module LogWriter {
  import opened Options

  datatype Name = Name(day: int, index: nat)

  /** A part on disk; size is what it takes there, compressed or not. */
  datatype Part = Part(name: Name, gz: bool, data: string, size: nat)

  /** What a part holds, and of which day. */
  datatype Text = Text(day: int, data: string)

  /** A part that was ever opened, whether or not it is still there. */
  datatype Block = Block(text: Text, alive: bool)

  // ---- the directory, listed oldest first

  predicate Before(a: Name, b: Name) { a.day < b.day || (a.day == b.day && a.index < b.index) }

  ghost predicate Listing(dir: seq<Part>) {
    && (forall i, j :: 0 <= i < j < |dir| ==> Before(dir[i].name, dir[j].name))
    && (forall i :: 0 <= i < |dir| ==> !dir[i].gz ==> dir[i].size == |dir[i].data|)
  }

  function Texts(dir: seq<Part>): (texts: seq<Text>)
    ensures |texts| == |dir| && forall i :: 0 <= i < |dir| ==> texts[i] == Text(dir[i].name.day, dir[i].data)
  {
    seq(|dir|, i requires 0 <= i < |dir| => Text(dir[i].name.day, dir[i].data))
  }

  /** The text of a day, part after part. */
  function DayText(texts: seq<Text>, day: int): string {
    if texts == [] then ""
    else
      var last, init := texts[|texts| - 1], DayText(texts[..|texts| - 1], day);
      if last.day == day then init + last.data else init
  }

  function AllTexts(blocks: seq<Block>): seq<Text> {
    seq(|blocks|, i requires 0 <= i < |blocks| => blocks[i].text)
  }

  function AliveTexts(blocks: seq<Block>): seq<Text> {
    if blocks == [] then []
    else
      var last, init := blocks[|blocks| - 1], AliveTexts(blocks[..|blocks| - 1]);
      if last.alive then init + [last.text] else init
  }

  // ---- retention

  function Total(parts: seq<Part>): nat {
    if parts == [] then 0 else parts[0].size + Total(parts[1..])
  }

  /** Parts past their age go. */
  function WithoutOld(dir: seq<Part>, safe: set<Name>, oldest: int): seq<Part> {
    if dir == [] then []
    else (if dir[0].name in safe || dir[0].name.day >= oldest then [dir[0]] else [])
         + WithoutOld(dir[1..], safe, oldest)
  }

  /** The oldest of the others go while the total is above the limit. */
  function Within(parts: seq<Part>, safe: set<Name>, total: int, limit: int): seq<Part> {
    if parts == [] || total <= limit then parts
    else if parts[0].name in safe then [parts[0]] + Within(parts[1..], safe, total, limit)
    else Within(parts[1..], safe, total - parts[0].size, limit)
  }

  function Pruned(dir: seq<Part>, safe: set<Name>, oldest: int, limit: int): seq<Part> {
    var kept := WithoutOld(dir, safe, oldest);
    Within(kept, safe, Total(kept), limit)
  }

  /** A part stays exactly when it is protected or young enough. */
  lemma {:induction false} OldGo(dir: seq<Part>, safe: set<Name>, oldest: int, p: Part)
    ensures p in WithoutOld(dir, safe, oldest) <==> p in dir && (p.name in safe || p.name.day >= oldest)
  {
    if dir != [] {
      OldGo(dir[1..], safe, oldest, p);
      assert dir == [dir[0]] + dir[1..];
    }
  }

  /** Protected parts stay. */
  lemma {:induction false} ProtectedStay(parts: seq<Part>, safe: set<Name>, total: int, limit: int, p: Part)
    requires p in parts && p.name in safe
    ensures p in Within(parts, safe, total, limit)
  {
    if total > limit && p != parts[0] {
      ProtectedStay(parts[1..], safe, if parts[0].name in safe then total else total - parts[0].size, limit, p);
    }
  }

  /** In the end the limit is met or only protected parts are left. */
  lemma {:induction false} WithinLimit(parts: seq<Part>, safe: set<Name>, total: int, limit: int)
    ensures var left := Within(parts, safe, total, limit);
            total - (Total(parts) - Total(left)) <= limit || forall p :: p in left ==> p.name in safe
  {
    if parts != [] && total > limit {
      var first, rest := parts[0], parts[1..];
      WithinLimit(rest, safe, if first.name in safe then total else total - first.size, limit);
    }
  }

  /** Parts that go are older than the unprotected ones that stay. */
  lemma {:induction false} OldestGoFirst(parts: seq<Part>, safe: set<Name>, total: int, limit: int, p: Part, r: Part)
    requires Listing(parts)
    requires p in parts && p !in Within(parts, safe, total, limit) && r in Within(parts, safe, total, limit)
             && r.name !in safe
    ensures Before(p.name, r.name)
  {
    var first, rest := parts[0], parts[1..];
    assert parts == [first] + rest;
    var total' := if first.name in safe then total else total - first.size;
    OnlyListed(rest, safe, total', limit, r);
    if p == first {
      var j :| 0 <= j < |rest| && rest[j] == r;
      assert parts[j + 1] == r;
    } else {
      OldestGoFirst(rest, safe, total', limit, p, r);
    }
  }

  lemma {:induction false} OnlyListed(parts: seq<Part>, safe: set<Name>, total: int, limit: int, r: Part)
    requires r in Within(parts, safe, total, limit)
    ensures r in parts
  {
    if parts != [] && total > limit && !(parts[0].name in safe && parts[0] == r) {
      OnlyListed(parts[1..], safe, if parts[0].name in safe then total else total - parts[0].size, limit, r);
    }
  }

  /** No part goes that need not: with the last one to go the limit would still be exceeded. */
  lemma {:induction false} NoneGoesNeedlessly(parts: seq<Part>, safe: set<Name>, total: int, limit: int)
    returns (last: Part)
    requires Listing(parts) && Within(parts, safe, total, limit) != parts
    ensures var left := Within(parts, safe, total, limit);
            && last in parts && last !in left && last.name !in safe
            && total - (Total(parts) - Total(left)) + last.size > limit
            && (forall p :: p in parts && p !in left ==> p == last || Before(p.name, last.name))
  {
    var first, rest := parts[0], parts[1..];
    assert parts == [first] + rest;
    var total' := if first.name in safe then total else total - first.size;
    if Within(rest, safe, total', limit) == rest {
      last := first;
    } else {
      last := NoneGoesNeedlessly(rest, safe, total', limit);
    }
  }

  /** Protected parts stay, no other part past its age does, and what is left is within the limit or protected. Where
      parts went that were young enough, every unprotected part left is newer, and with one of them, the last to go, the
      limit would still be exceeded. */
  lemma PrunedExact(dir: seq<Part>, safe: set<Name>, oldest: int, limit: int)
    requires Listing(dir)
    ensures var left := Pruned(dir, safe, oldest, limit);
            && (forall p :: p in left ==> p in dir && (p.name in safe || p.name.day >= oldest))
            && (forall p :: p in dir && p.name in safe ==> p in left)
            && (Total(left) <= limit || forall p :: p in left ==> p.name in safe)
            && (forall p, r :: p in dir && p.name.day >= oldest && p !in left && r in left && r.name !in safe ==>
                  Before(p.name, r.name))
            && ((exists p :: p in dir && p.name.day >= oldest && p !in left) ==>
                  exists last :: last in dir && last !in left && last.name !in safe && Total(left) + last.size > limit)
  {
    var kept := WithoutOld(dir, safe, oldest);
    var left := Pruned(dir, safe, oldest, limit);
    forall p ensures p in kept <==> p in dir && (p.name in safe || p.name.day >= oldest) {
      OldGo(dir, safe, oldest, p);
    }
    KeptListing(dir, safe, oldest);
    hide WithoutOld;
    hide Listing;
    forall p | p in left ensures p in kept {
      OnlyListed(kept, safe, Total(kept), limit, p);
    }
    forall p | p in dir && p.name in safe ensures p in left {
      ProtectedStay(kept, safe, Total(kept), limit, p);
    }
    WithinLimit(kept, safe, Total(kept), limit);
    forall p, r | p in dir && p.name.day >= oldest && p !in left && r in left && r.name !in safe
      ensures Before(p.name, r.name) {
      OldestGoFirst(kept, safe, Total(kept), limit, p, r);
    }
    if p :| p in dir && p.name.day >= oldest && p !in left {
      assert left != kept;
      var last := NoneGoesNeedlessly(kept, safe, Total(kept), limit);
    }
  }

  lemma {:induction false} KeptListing(dir: seq<Part>, safe: set<Name>, oldest: int)
    requires Listing(dir)
    ensures Listing(WithoutOld(dir, safe, oldest))
  {
    if dir != [] {
      var rest := dir[1..];
      KeptListing(rest, safe, oldest);
      var kept := WithoutOld(rest, safe, oldest);
      forall i | 0 <= i < |kept| ensures Before(dir[0].name, kept[i].name) {
        OldGo(rest, safe, oldest, kept[i]);
        var j :| 0 <= j < |rest| && rest[j] == kept[i];
        assert dir[j + 1] == kept[i];
      }
    }
  }

  // ---- parts that were pruned

  /** The n-th part still there is removed. */
  function Kill(blocks: seq<Block>, n: nat): (r: seq<Block>)
    requires n < |AliveTexts(blocks)|
    ensures |r| == |blocks|
  {
    var k := |blocks| - 1;
    var last, init := blocks[k], blocks[..k];
    if last.alive && n == |AliveTexts(init)| then init + [last.(alive := false)]
    else Kill(init, n) + [last]
  }

  lemma AliveGrows(blocks: seq<Block>, b: Block)
    ensures AliveTexts(blocks + [b]) == if b.alive then AliveTexts(blocks) + [b.text] else AliveTexts(blocks)
    ensures AllTexts(blocks + [b]) == AllTexts(blocks) + [b.text]
  {
    assert (blocks + [b])[..|blocks|] == blocks;
  }

  /** Removing a part takes its text out of the directory and leaves the others; what was ever written is as it was. */
  lemma {:induction false} KillExact(blocks: seq<Block>, n: nat)
    requires n < |AliveTexts(blocks)|
    ensures AliveTexts(Kill(blocks, n)) == AliveTexts(blocks)[..n] + AliveTexts(blocks)[n + 1..]
    ensures AllTexts(Kill(blocks, n)) == AllTexts(blocks)
    ensures n < |AliveTexts(blocks)| - 1 && blocks[|blocks| - 1].alive ==> Kill(blocks, n)[|blocks| - 1].alive
  {
    hide AllTexts;
    var k := |blocks| - 1;
    var last, init := blocks[k], blocks[..k];
    AliveGrows(init, last);
    assert blocks == init + [last];
    hide AliveTexts;
    if last.alive && n == |AliveTexts(init)| {
      AliveGrows(init, last.(alive := false));
    } else {
      KillExact(init, n);
      AliveGrows(Kill(init, n), last);
      WithoutNth(AliveTexts(init), last.text, n);
    }
  }

  lemma WithoutNth<T>(s: seq<T>, x: T, n: nat)
    requires n < |s|
    ensures (s + [x])[..n] + (s + [x])[n + 1..] == (s[..n] + s[n + 1..]) + [x]
  {
  }

  /** A day none of whose parts was removed reads as it was written. */
  lemma {:induction false} WholeDay(blocks: seq<Block>, day: int)
    requires forall i :: 0 <= i < |blocks| && blocks[i].text.day == day ==> blocks[i].alive
    ensures DayText(AliveTexts(blocks), day) == DayText(AllTexts(blocks), day)
  {
    if blocks != [] {
      var k := |blocks| - 1;
      WholeDay(blocks[..k], day);
      assert AllTexts(blocks)[..k] == AllTexts(blocks[..k]);
      var alive, init := AliveTexts(blocks), AliveTexts(blocks[..k]);
      if blocks[k].alive {
        assert alive[..|init|] == init;
      }
    }
  }

  /** More text for the last part of a day is more text for the day. */
  lemma GrowLast(texts: seq<Text>, more: string, day: int)
    requires texts != []
    ensures var k := |texts| - 1;
            var t := texts[k];
            DayText(texts[..k] + [t.(data := t.data + more)], day)
            == DayText(texts, day) + if t.day == day then more else ""
  {
    var k := |texts| - 1;
    var longer := texts[..k] + [texts[k].(data := texts[k].data + more)];
    assert longer[..k] == texts[..k];
  }

  lemma DayTextGrows(texts: seq<Text>, t: Text, day: int)
    ensures DayText(texts + [t], day) == if t.day == day then DayText(texts, day) + t.data else DayText(texts, day)
  {
    assert (texts + [t])[..|texts|] == texts;
  }

  // ---- where a day is split

  const LARGEST: int := 100 * 1024 * 1024

  /** A quarter of the total, at least a byte and at most 100 MB; 100 MB while the total is unknown (zero). */
  function FileBytesFor(maxTotalBytes: int): (n: int)
    requires 0 <= maxTotalBytes
    ensures 1 <= n <= 104_857_600 && (maxTotalBytes == 0 ==> n == 104_857_600)
    ensures 4 <= maxTotalBytes ==> 4 * n <= maxTotalBytes
    ensures 0 < maxTotalBytes ==> n == 104_857_600 || maxTotalBytes < 4 * (n + 1)
  {
    if maxTotalBytes == 0 then LARGEST
    else
      var quarter := if maxTotalBytes / 4 < LARGEST then maxTotalBytes / 4 else LARGEST;
      if quarter > 1 then quarter else 1
  }

  datatype Limits = Limits(maxAgeDays: int, maxTotalBytes: int)

  /** A day goes on in its last part unless that is compressed or full, then in the next, but not before minIndex. */
  ghost predicate GoesOnAt(dir: seq<Part>, d: int, maxFileBytes: int, minIndex: nat, index: nat) {
    var n := |dir| - 1;
    var next := if dir == [] || dir[n].name.day != d then 0
                else if dir[n].gz || dir[n].size >= maxFileBytes then dir[n].name.index + 1 else dir[n].name.index;
    minIndex <= index && next <= index && (index == minIndex || index == next)
  }

  /** Where a day goes on: in its last part unless that is compressed or full. */
  function NextIndex(dir: seq<Part>, d: int, maxFileBytes: int): nat {
    if dir == [] || dir[|dir| - 1].name.day != d then 0
    else
      var last := dir[|dir| - 1];
      if last.gz || last.size >= maxFileBytes then last.name.index + 1 else last.name.index
  }

  function On(written: map<int, string>, d: int): string { if d in written then written[d] else "" }

  /** The parts listed are those ever opened and not removed, and those ever opened hold everything
      written, in order. */
  ghost predicate History(dir: seq<Part>, blocks: seq<Block>, written: map<int, string>) {
    Texts(dir) == AliveTexts(blocks) && forall d :: DayText(AllTexts(blocks), d) == On(written, d)
  }

  ghost predicate LastAlive(blocks: seq<Block>) { blocks != [] && blocks[|blocks| - 1].alive }

  /** The open part is the last one listed and the last one ever opened. */
  ghost predicate Tip(dir: seq<Part>, blocks: seq<Block>, name: Name, size: nat, pending: set<Name>) {
    && dir != [] && LastAlive(blocks)
    && var last := dir[|dir| - 1];
       && last.name == name && !last.gz && last.size == size
       && (forall n :: n in pending ==> Before(n, name))
  }

  function Found(texts: seq<Text>): (blocks: seq<Block>)
    ensures |blocks| == |texts| && forall i :: 0 <= i < |texts| ==> blocks[i] == Block(texts[i], true)
  {
    seq(|texts|, i requires 0 <= i < |texts| => Block(texts[i], true))
  }

  function Readable(dir: seq<Part>): map<int, string> {
    map t | t in Texts(dir) :: t.day := DayText(Texts(dir), t.day)
  }

  lemma {:induction false} FoundAlive(texts: seq<Text>)
    ensures AliveTexts(Found(texts)) == texts == AllTexts(Found(texts))
  {
    if texts != [] {
      var k := |texts| - 1;
      FoundAlive(texts[..k]);
      assert Found(texts)[..k] == Found(texts[..k]);
    }
  }

  lemma {:induction false} NothingOn(texts: seq<Text>, d: int)
    requires forall t :: t in texts ==> t.day != d
    ensures DayText(texts, d) == ""
  {
    if texts != [] {
      var k := |texts| - 1;
      assert texts[k] in texts;
      assert forall t :: t in texts[..k] ==> t in texts;
      NothingOn(texts[..k], d);
    }
  }

  lemma AllFound(dir: seq<Part>)
    ensures History(dir, Found(Texts(dir)), Readable(dir)) && (dir != [] ==> LastAlive(Found(Texts(dir))))
    ensures forall d :: On(Readable(dir), d) == DayText(Texts(dir), d)
  {
    var texts := Texts(dir);
    FoundAlive(texts);
    forall d ensures On(Readable(dir), d) == DayText(texts, d) {
      if d !in Readable(dir) {
        forall t | t in texts ensures t.day != d {
          assert t.day in Readable(dir);
        }
        NothingOn(texts, d);
      }
    }
  }

  /** The directory once the part has been opened: it is created unless it is the last one listed. */
  function WithPart(dir: seq<Part>, name: Name): seq<Part> {
    if dir != [] && dir[|dir| - 1].name == name then dir else dir + [Part(name, false, "", 0)]
  }

  lemma NoneLater(dir: seq<Part>, d: int)
    requires Listing(dir) && dir != [] && dir[|dir| - 1].name.day <= d
    ensures forall i :: 0 <= i < |dir| ==> dir[i].name.day <= d
  {
    forall i | 0 <= i < |dir| - 1 ensures dir[i].name.day <= d {
      assert Before(dir[i].name, dir[|dir| - 1].name);
    }
  }

  /** The next part comes after all listed and all pending. */
  lemma AllEarlier(dir: seq<Part>, blocks: seq<Block>, name: Name, size: nat, pending: set<Name>, d: int, minIndex: nat)
    requires Listing(dir) && Tip(dir, blocks, name, size, pending)
    requires name.day <= d && (name.day == d ==> name.index < minIndex)
    ensures LastAlive(blocks) && dir != [] && dir[|dir| - 1].name == name
    ensures forall i :: 0 <= i < |dir| ==> dir[i].name.day <= d
    ensures forall n :: n in pending ==> Before(n, Name(d, minIndex))
  {
    NoneLater(dir, d);
  }

  lemma OneMorePending(dir: seq<Part>, blocks: seq<Block>, name: Name, size: nat, pending: set<Name>, prev: Name)
    requires Listing(dir) && Tip(dir, blocks, name, size, pending) && Before(prev, name)
    ensures Tip(dir, blocks, name, size, pending + {prev}) && (dir[|dir| - 1].data == "" ==> size == 0)
  {
  }

  lemma Extended(dir: seq<Part>, p: Part)
    requires Listing(dir) && (dir != [] ==> Before(dir[|dir| - 1].name, p.name)) && (!p.gz ==> p.size == |p.data|)
    ensures Listing(dir + [p])
  {
  }

  /** An empty part adds nothing to what was written. */
  lemma ExtendedHistory(dir: seq<Part>, blocks: seq<Block>, written: map<int, string>, name: Name)
    requires History(dir, blocks, written)
    ensures History(dir + [Part(name, false, "", 0)], blocks + [Block(Text(name.day, ""), true)], written)
  {
    var t := Text(name.day, "");
    AliveGrows(blocks, Block(t, true));
    assert Texts(dir + [Part(name, false, "", 0)]) == Texts(dir) + [t];
    forall d ensures DayText(AllTexts(blocks + [Block(t, true)]), d) == DayText(AllTexts(blocks), d) {
      DayTextGrows(AllTexts(blocks), t, d);
    }
  }

  /** The part the next index names: the last one, still growing, or one after all listed. */
  lemma NextIsLast(dir: seq<Part>, d: int, maxFileBytes: int, index: nat)
    requires Listing(dir) && (forall i :: 0 <= i < |dir| ==> dir[i].name.day <= d)
    requires index >= NextIndex(dir, d, maxFileBytes)
    ensures dir != [] && dir[|dir| - 1].name == Name(d, index) ==> !dir[|dir| - 1].gz
    ensures dir != [] && dir[|dir| - 1].name != Name(d, index) ==> Before(dir[|dir| - 1].name, Name(d, index))
  {
  }

  /** More text for the last part, which is not compressed. */
  function Appended(dir: seq<Part>, p: string): seq<Part> {
    if dir == [] then []
    else
      var k := |dir| - 1;
      dir[..k] + [dir[k].(data := dir[k].data + p, size := dir[k].size + |p|)]
  }

  /** The last part ever opened, longer. */
  function Longer(blocks: seq<Block>, p: string): seq<Block>
    requires blocks != []
  {
    var k := |blocks| - 1;
    blocks[..k] + [Block(blocks[k].text.(data := blocks[k].text.data + p), true)]
  }

  lemma AppendedListing(dir: seq<Part>, p: string)
    requires Listing(dir) && dir != [] && !dir[|dir| - 1].gz
    ensures var n := |dir| - 1;
            var t := Texts(dir)[n];
            Listing(Appended(dir, p)) && Texts(Appended(dir, p)) == Texts(dir)[..n] + [t.(data := t.data + p)]
  {
  }

  lemma LongerAlive(blocks: seq<Block>, p: string)
    requires LastAlive(blocks)
    ensures var b, init := blocks[|blocks| - 1].text, AliveTexts(blocks[..|blocks| - 1]);
            AliveTexts(blocks) == init + [b] && AliveTexts(Longer(blocks, p)) == init + [b.(data := b.data + p)]
  {
    var k := |blocks| - 1;
    AliveGrows(blocks[..k], Longer(blocks, p)[k]);
  }

  lemma LongerDay(blocks: seq<Block>, p: string, d: int)
    requires blocks != []
    ensures DayText(AllTexts(Longer(blocks, p)), d)
            == DayText(AllTexts(blocks), d) + if blocks[|blocks| - 1].text.day == d then p else ""
  {
    var k, texts := |blocks| - 1, AllTexts(blocks);
    GrowLast(texts, p, d);
    assert AllTexts(Longer(blocks, p)) == texts[..k] + [texts[k].(data := texts[k].data + p)];
  }

  lemma AppendedHistory(dir: seq<Part>, blocks: seq<Block>, written: map<int, string>, p: string)
    requires Listing(dir) && History(dir, blocks, written) && dir != [] && LastAlive(blocks) && !dir[|dir| - 1].gz
    ensures Listing(Appended(dir, p)) && LastAlive(Longer(blocks, p))
    ensures var day := dir[|dir| - 1].name.day;
            History(Appended(dir, p), Longer(blocks, p), written[day := On(written, day) + p])
  {
    AppendedListing(dir, p);
    LongerAlive(blocks, p);
    hide AliveTexts;
    hide DayText;
    hide AllTexts;
    hide Listing;
    hide Appended;
    var n := |dir| - 1;
    assert Texts(dir)[n] == blocks[|blocks| - 1].text && Texts(dir)[..n] == AliveTexts(blocks[..|blocks| - 1]);
    forall d {
      LongerDay(blocks, p, d);
    }
  }

  lemma AppendedTip(dir: seq<Part>, blocks: seq<Block>, name: Name, size: nat, pending: set<Name>, p: string)
    requires Tip(dir, blocks, name, size, pending)
    ensures Tip(Appended(dir, p), Longer(blocks, p), name, size + |p|, pending) && dir[|dir| - 1].name.day == name.day
    ensures !dir[|dir| - 1].gz
  {
  }

  /** The size kept for the open part is that of its text. */
  lemma OpenText(dir: seq<Part>, blocks: seq<Block>, name: Name, size: nat, pending: set<Name>)
    requires Listing(dir) && Tip(dir, blocks, name, size, pending)
    ensures !dir[|dir| - 1].gz && |dir[|dir| - 1].data| == size
  {
  }

  lemma SameTexts(dir: seq<Part>, i: nat, size: nat)
    requires Listing(dir) && i < |dir|
    ensures var after := dir[i := dir[i].(gz := true, size := size)]; Listing(after) && Texts(after) == Texts(dir)
  {
  }

  lemma Removed(dir: seq<Part>, blocks: seq<Block>, written: map<int, string>, n: nat)
    requires Listing(dir) && History(dir, blocks, written) && n < |dir|
    ensures |AliveTexts(blocks)| == |dir|
    ensures Listing(dir[..n] + dir[n + 1..]) && History(dir[..n] + dir[n + 1..], Kill(blocks, n), written)
  {
    hide AliveTexts;
    hide AllTexts;
    hide DayText;
    hide Kill;
    ListingWithout(dir, n);
    KillExact(blocks, n);
  }

  lemma RemovedTip(dir: seq<Part>, blocks: seq<Block>, name: Name, size: nat, pending: set<Name>, n: nat)
    requires Tip(dir, blocks, name, size, pending) && n < |dir| == |AliveTexts(blocks)| && dir[n].name != name
    ensures Tip(dir[..n] + dir[n + 1..], Kill(blocks, n), name, size, pending)
  {
    hide AliveTexts;
    hide Kill;
    KillExact(blocks, n);
  }

  class FileWriter {
    /** The directory as it is listed: the parts of this log, oldest first. */
    var dir: seq<Part>
    /** Unknown until they are first set. */
    var limits: Option<Limits>
    var maxFileBytes: int
    const derived: bool
    var isOpen: bool
    var day: int
    var index: nat
    var size: nat
    /** Finished parts whose compression is under way. */
    var pending: set<Name>
    /** Every part ever opened, and everything written, day by day. */
    ghost var blocks: seq<Block>
    ghost var written: map<int, string>

    /** The open part is the last one listed; the parts listed are those ever opened and not removed; those ever
        opened hold everything written, in order. */
    ghost predicate Valid()
      reads this`dir, this`blocks, this`written, this`isOpen, this`day, this`index, this`size, this`pending
    {
      Listing(dir) && History(dir, blocks, written) && (isOpen ==> Tip(dir, blocks, Name(day, index), size, pending))
    }

    /** A log that goes on from the parts found in the directory: what they hold counts as written. */
    constructor (dir: seq<Part>, limits: Option<Limits>, maxFileBytes: int, derived: bool)
      requires Listing(dir)
      ensures Valid() && !isOpen && pending == {} && (dir != [] ==> LastAlive(blocks))
      ensures this.dir == dir && this.limits == limits && this.maxFileBytes == maxFileBytes && this.derived == derived
      ensures forall d :: On(written, d) == DayText(Texts(dir), d)
    {
      this.dir, this.limits, this.maxFileBytes, this.derived := dir, limits, maxFileBytes, derived;
      this.isOpen, this.pending, this.day, this.index, this.size := false, {}, 0, 0, 0;
      this.blocks, this.written := Found(Texts(dir)), Readable(dir);
      AllFound(dir);
    }

    /** The parts that pruning leaves alone. */
    function Safe(): (names: set<Name>)
      reads this`isOpen, this`pending, this`day, this`index
      ensures forall n :: n in names <==> n in pending || (isOpen && n == Name(day, index))
    {
      if isOpen then pending + {Name(day, index)} else pending
    }

    method FindNext(d: int) returns (next: nat)
      requires Listing(dir) && (forall i :: 0 <= i < |dir| ==> dir[i].name.day <= d)
      ensures next == NextIndex(dir, d, maxFileBytes)
    {
      next := 0;
      for i := 0 to |dir|
        invariant next == NextIndex(dir[..i], d, maxFileBytes)
      {
        assert i > 0 ==> Before(dir[i - 1].name, dir[i].name);
        assert dir[..i + 1][i] == dir[i] && (i > 0 ==> dir[..i][i - 1] == dir[i - 1]);
        if dir[i].name.day == d && dir[i].name.index >= next {
          next := dir[i].name.index;
          if dir[i].gz || dir[i].size >= maxFileBytes {
            next := dir[i].name.index + 1;
          }
        }
      }
      assert dir[..|dir|] == dir;
    }

    /** Open the last part of the day if it can take more, or the next one. */
    method OpenPart(d: int, minIndex: nat)
      requires Valid() && !isOpen && (dir != [] ==> LastAlive(blocks))
      requires forall i :: 0 <= i < |dir| ==> dir[i].name.day <= d
      requires forall n :: n in pending ==> Before(n, Name(d, minIndex))
      modifies this`dir, this`blocks, this`isOpen, this`day, this`index, this`size
      ensures Valid() && isOpen && day == d
      ensures GoesOnAt(old(dir), d, maxFileBytes, minIndex, index)
      ensures dir == WithPart(old(dir), Name(d, index))
    {
      hide History;
      hide Listing;
      var next := FindNext(d);
      index := if next > minIndex then next else minIndex;
      day, isOpen := d, true;
      NextIsLast(dir, d, maxFileBytes, index);
      if dir != [] && dir[|dir| - 1].name == Name(d, index) {
        size := dir[|dir| - 1].size;
      } else {
        Extended(dir, Part(Name(d, index), false, "", 0));
        ExtendedHistory(dir, blocks, written, Name(d, index));
        dir := dir + [Part(Name(d, index), false, "", 0)];
        blocks := blocks + [Block(Text(d, ""), true)];
        size := 0;
      }
    }

    /** Remove the n-th part listed. */
    method Remove(n: nat)
      requires Valid() && n < |dir| && dir[n].name !in Safe()
      modifies this`dir, this`blocks
      ensures Valid() && dir == old(dir)[..n] + old(dir)[n + 1..]
    {
      Removed(dir, blocks, written, n);
      if isOpen {
        RemovedTip(dir, blocks, Name(day, index), size, pending, n);
      }
      hide History;
      hide Listing;
      hide Tip;
      hide LastAlive;
      hide AliveTexts;
      hide Kill;
      blocks := Kill(blocks, n);
      dir := dir[..n] + dir[n + 1..];
    }

    /** Apply the retention limits. */
    method Prune(today: int)
      requires Valid()
      modifies this`dir, this`blocks
      ensures Valid()
      ensures dir == if limits.None? then old(dir)
                     else Pruned(old(dir), Safe(), today - (limits.value.maxAgeDays - 1), limits.value.maxTotalBytes)
    {
      if limits.None? {
        return;
      }
      hide Valid;
      var total := PruneOld(today - (limits.value.maxAgeDays - 1));
      PruneTotal(total, limits.value.maxTotalBytes);
    }

    /** Go on in the next part; the one before is compressed in the background. */
    method Advance(d: int, minIndex: nat)
      requires Valid() && isOpen && day <= d && (day == d ==> index < minIndex)
      modifies this`dir, this`blocks, this`isOpen, this`day, this`index, this`size, this`pending
      ensures Valid() && isOpen && day == d && size == 0 && pending == old(pending) + {Name(old(day), old(index))}
      ensures dir == old(dir) + [Part(Name(d, index), false, "", 0)]
    {
      var prev := Name(day, index);
      AllEarlier(dir, blocks, prev, size, pending, d, minIndex);
      hide NextIndex;
      hide Listing;
      hide History;
      hide LastAlive;
      hide Tip;
      isOpen := false;
      OpenPart(d, minIndex);
      OneMorePending(dir, blocks, Name(day, index), size, pending, prev);
      pending := pending + {prev};
    }

    method Rotate(d: int, minIndex: nat)
      requires Valid() && isOpen && day <= d && (day == d ==> index < minIndex)
      modifies this`dir, this`blocks, this`isOpen, this`day, this`index, this`size, this`pending
      ensures Valid() && isOpen && day == d && size == 0 && pending == old(pending) + {Name(old(day), old(index))}
      ensures var all := old(dir) + [Part(Name(d, index), false, "", 0)];
              dir == if limits.None? then all
                     else Pruned(all, Safe(), d - (limits.value.maxAgeDays - 1), limits.value.maxTotalBytes)
    {
      hide Valid;
      hide Pruned;
      Advance(d, minIndex);
      Prune(d);
    }

    method PruneOld(oldest: int) returns (total: nat)
      requires Valid()
      modifies this`dir, this`blocks
      ensures Valid() && dir == WithoutOld(old(dir), Safe(), oldest) && total == Total(dir)
    {
      hide Valid;
      hide Safe;
      hide Joined;
      hide OldProgress;
      hide Total;
      var files := dir;
      var kept: seq<Part> := [];
      total := 0;
      StartPruning(files, Safe(), oldest);
      for i := 0 to |files|
        invariant Valid() && dir == Joined(kept, files, i)
        invariant OldProgress(kept, files, i, Safe(), oldest)
        invariant total == Total(kept)
      {
        Cut(kept, files, i);
        OldStep(kept, files, i, Safe(), oldest);
        if files[i].name !in Safe() && files[i].name.day < oldest {
          Remove(|kept|);
        } else {
          TotalGrows(kept, files[i]);
          kept := kept + [files[i]];
          total := total + files[i].size;
        }
      }
      OldEnd(kept, files, Safe(), oldest);
    }

    method PruneTotal(all: nat, limit: int)
      requires Valid() && all == Total(dir)
      modifies this`dir, this`blocks
      ensures Valid() && dir == Within(old(dir), Safe(), all, limit)
    {
      hide Valid;
      hide Safe;
      hide Joined;
      hide WithinProgress;
      hide Total;
      var files, total := dir, all as int;
      var left: seq<Part> := [];
      var i := 0;
      StartWithin(files, Safe(), all, limit);
      while i < |files| && total > limit
        invariant 0 <= i <= |files|
        invariant Valid() && dir == Joined(left, files, i)
        invariant WithinProgress(left, files, i, Safe(), total, all, limit)
      {
        Cut(left, files, i);
        WithinStep(left, files, i, Safe(), total, all, limit);
        if files[i].name in Safe() {
          left := left + [files[i]];
        } else {
          Remove(|left|);
          total := total - files[i].size;
        }
        i := i + 1;
      }
      WithinEnd(left, files, i, Safe(), total, all, limit);
    }

    method Append(p: string)
      requires Valid() && isOpen
      modifies this`dir, this`blocks, this`size, this`written
      ensures Valid() && isOpen && dir == Appended(old(dir), p) && size == old(size) + |p|
      ensures written == old(written)[day := On(old(written), day) + p]
    {
      AppendedTip(dir, blocks, Name(day, index), size, pending, p);
      AppendedHistory(dir, blocks, written, p);
      hide History;
      hide Listing;
      hide Longer;
      hide LastAlive;
      hide On;
      hide Appended;
      hide Tip;
      blocks := Longer(blocks, p);
      written := written[day := On(written, day) + p];
      dir := Appended(dir, p);
      size := size + |p|;
    }

    /** Write p to the day's last part, after going on in the next one if the day changed or p would make the part too
        large. A part only exceeds the size if a single write does. */
    method Write(p: string, today: int)
      requires Valid() && isOpen && day <= today
      modifies this`dir, this`blocks, this`isOpen, this`day, this`index, this`size, this`pending, this`written
      ensures Valid() && isOpen && day == today
      ensures written == old(written)[today := On(old(written), today) + p]
      ensures |dir[|dir| - 1].data| <= maxFileBytes || dir[|dir| - 1].data == p
      ensures var splits := today != old(day) || (old(size) > 0 && old(size) + |p| > maxFileBytes);
              var all := old(dir) + [Part(Name(today, index), false, "", 0)];
              dir == Appended(if !splits then old(dir)
                              else if limits.None? then all
                              else Pruned(all, Safe(), today - (limits.value.maxAgeDays - 1),
                                          limits.value.maxTotalBytes), p)
    {
      hide Pruned;
      hide History;
      hide Listing;
      hide LastAlive;
      hide On;
      var full := today == day && size > 0 && size + |p| > maxFileBytes;
      if today != day || full {
        Rotate(today, if full then index + 1 else 0);
      }
      OpenText(dir, blocks, Name(day, index), size, pending);
      Append(p);
    }

    /** A background compression ends; if it failed the part stays as it is. */
    method Compressed(i: nat, ok: bool, compressedSize: nat, today: int)
      requires Valid() && i < |dir| && !dir[i].gz && dir[i].name in pending
      modifies this`dir, this`blocks, this`pending
      ensures Valid() && pending == old(pending) - {old(dir)[i].name}
      ensures var after := old(dir)[i := old(dir)[i].(gz := true, size := compressedSize)];
              dir == if !ok then old(dir)
                     else if limits.None? then after
                     else Pruned(after, Safe(), today - (limits.value.maxAgeDays - 1), limits.value.maxTotalBytes)
    {
      hide Valid;
      hide Pruned;
      if ok {
        Gzipped(i, compressedSize);
        Prune(today);
      } else {
        Settle(i);
      }
    }

    method Settle(i: nat)
      requires Valid() && i < |dir|
      modifies this`pending
      ensures Valid() && pending == old(pending) - {dir[i].name}
    {
      hide History;
      hide Listing;
      pending := pending - {dir[i].name};
    }

    method Gzipped(i: nat, compressedSize: nat)
      requires Valid() && i < |dir| && !dir[i].gz && dir[i].name in pending
      modifies this`dir, this`pending
      ensures Valid() && pending == old(pending) - {old(dir)[i].name}
      ensures dir == old(dir)[i := old(dir)[i].(gz := true, size := compressedSize)]
    {
      SameTexts(dir, i, compressedSize);
      hide Listing;
      hide Texts;
      hide AllTexts;
      hide LastAlive;
      pending := pending - {dir[i].name};
      dir := dir[i := dir[i].(gz := true, size := compressedSize)];
    }

    method SetLimits(maxAgeDays: int, maxTotalBytes: int, today: int) returns (ok: bool)
      requires Valid()
      modifies this`dir, this`blocks, this`limits, this`maxFileBytes
      ensures Valid() && ok == (maxAgeDays >= 1 && maxTotalBytes >= 1)
      ensures !ok ==> dir == old(dir) && limits == old(limits) && maxFileBytes == old(maxFileBytes)
      ensures ok ==> limits == Some(Limits(maxAgeDays, maxTotalBytes))
                     && maxFileBytes == (if derived then FileBytesFor(maxTotalBytes) else old(maxFileBytes))
                     && dir == Pruned(old(dir), Safe(), today - (maxAgeDays - 1), maxTotalBytes)
    {
      hide Pruned;
      hide Valid;
      hide FileBytesFor;
      if maxAgeDays < 1 || maxTotalBytes < 1 {
        return false;
      }
      limits := Some(Limits(maxAgeDays, maxTotalBytes));
      if derived {
        maxFileBytes := FileBytesFor(maxTotalBytes);
      }
      Prune(today);
      return true;
    }

    /** Parts an earlier run left uncompressed are compressed now, except the open one. */
    method CompressLeftovers()
      requires Valid() && isOpen && pending == {}
      modifies this`pending
      ensures Valid() && pending == set p | p in dir && !p.gz && p.name != Name(day, index) :: p.name
    {
      var current := Name(day, index);
      ghost var k := |dir| - 1;
      assert forall i :: 0 <= i < k ==> Before(dir[i].name, dir[k].name);
      hide Listing;
      hide History;
      hide LastAlive;
      for i := 0 to |dir|
        invariant pending == set p | p in dir[..i] && !p.gz && p.name != current :: p.name
        invariant Valid() && isOpen
      {
        assert dir[..i + 1] == dir[..i] + [dir[i]];
        if !dir[i].gz && dir[i].name != current {
          pending := pending + {dir[i].name};
        }
      }
      assert dir[..|dir|] == dir;
    }

    method Start(today: int)
      requires Valid() && !isOpen && pending == {} && (dir != [] ==> LastAlive(blocks))
      requires forall i :: 0 <= i < |dir| ==> dir[i].name.day <= today
      modifies this`dir, this`blocks, this`isOpen, this`day, this`index, this`size, this`pending
      ensures Valid() && isOpen && day == today && GoesOnAt(old(dir), today, maxFileBytes, 0, index)
      ensures var all := WithPart(old(dir), Name(today, index));
              dir == if limits.None? then all
                     else Pruned(all, Safe(), today - (limits.value.maxAgeDays - 1), limits.value.maxTotalBytes)
    {
      hide Valid;
      hide Pruned;
      hide GoesOnAt;
      hide WithPart;
      OpenPart(today, 0);
      CompressLeftovers();
      Prune(today);
    }

    /** Nothing is written any more; compressions under way still end. */
    method Close()
      requires Valid()
      modifies this`isOpen
      ensures Valid() && !isOpen
    {
      isOpen := false;
    }

    /** Everything a day's parts hold, in order; none if it has none. */
    method WriteDay(d: int) returns (text: Option<string>)
      requires Valid()
      ensures text.None? <==> forall i :: 0 <= i < |dir| ==> dir[i].name.day != d
      ensures text.Some? ==> text.value == DayText(AliveTexts(blocks), d)
    {
      text := None;
      for i := 0 to |dir|
        invariant text.None? <==> forall j :: 0 <= j < i ==> dir[j].name.day != d
        invariant (if text.Some? then text.value else "") == DayText(Texts(dir)[..i], d)
      {
        assert Texts(dir)[..i + 1] == Texts(dir)[..i] + [Texts(dir)[i]];
        DayTextGrows(Texts(dir)[..i], Texts(dir)[i], d);
        if dir[i].name.day == d {
          text := Some((if text.Some? then text.value else "") + dir[i].data);
        }
      }
      assert Texts(dir)[..|dir|] == Texts(dir);
    }
  }

  /** A writer going on with what an earlier run left: today's last part if it can take more, and the limits applied.
      Zero limits are unknown ones; a zero part size is derived from the total. */
  method OpenFile(dir: seq<Part>, maxAgeDays: int, maxTotalBytes: int, maxFileBytes: int, today: int)
    returns (w: FileWriter?)
    requires Listing(dir) && forall i :: 0 <= i < |dir| ==> dir[i].name.day <= today
    ensures w == null <==> (maxAgeDays != 0 || maxTotalBytes != 0) && (maxAgeDays < 1 || maxTotalBytes < 1)
    ensures w != null ==>
              && fresh(w) && w.Valid() && w.isOpen && w.day == today
              && (w.limits == if maxAgeDays == 0 then None else Some(Limits(maxAgeDays, maxTotalBytes)))
              && forall d :: On(w.written, d) == DayText(Texts(dir), d)
    ensures w != null ==>
              && GoesOnAt(dir, today, w.maxFileBytes, 0, w.index)
              && var all := WithPart(dir, Name(today, w.index));
                 w.dir == if w.limits.None? then all else Pruned(all, w.Safe(), today - (maxAgeDays - 1), maxTotalBytes)
  {
    hide *;
    if (maxAgeDays != 0 || maxTotalBytes != 0) && (maxAgeDays < 1 || maxTotalBytes < 1) {
      return null;
    }
    var derived := maxFileBytes == 0;
    w := new FileWriter(dir, if maxAgeDays == 0 then None else Some(Limits(maxAgeDays, maxTotalBytes)),
                        if derived then FileBytesFor(maxTotalBytes) else maxFileBytes, derived);
    w.Start(today);
  }

  // ---- the loops of pruning: what is decided, then what is still to look at

  function Joined(done: seq<Part>, files: seq<Part>, i: nat): seq<Part>
    requires i <= |files|
  {
    done + files[i..]
  }

  lemma Cut(done: seq<Part>, files: seq<Part>, i: nat)
    requires i < |files|
    ensures var all := Joined(done, files, i);
            && |done| < |all| && all[|done|] == files[i]
               && all[..|done|] + all[|done| + 1..] == Joined(done, files, i + 1)
            && all == Joined(done + [files[i]], files, i + 1)
  {
    assert files[i..] == [files[i]] + files[i + 1..];
  }

  ghost predicate OldProgress(kept: seq<Part>, files: seq<Part>, i: nat, safe: set<Name>, oldest: int)
    requires i <= |files|
  {
    kept + WithoutOld(files[i..], safe, oldest) == WithoutOld(files, safe, oldest)
  }

  lemma StartPruning(files: seq<Part>, safe: set<Name>, oldest: int)
    ensures Joined([], files, 0) == files && Total([]) == 0 && OldProgress([], files, 0, safe, oldest)
  {
  }

  lemma OldStep(kept: seq<Part>, files: seq<Part>, i: nat, safe: set<Name>, oldest: int)
    requires i < |files| && OldProgress(kept, files, i, safe, oldest)
    ensures var stays := files[i].name in safe || files[i].name.day >= oldest;
            OldProgress(if stays then kept + [files[i]] else kept, files, i + 1, safe, oldest)
  {
    assert files[i..][1..] == files[i + 1..];
  }

  lemma OldEnd(kept: seq<Part>, files: seq<Part>, safe: set<Name>, oldest: int)
    requires OldProgress(kept, files, |files|, safe, oldest)
    ensures Joined(kept, files, |files|) == kept == WithoutOld(files, safe, oldest)
  {
  }

  ghost predicate WithinProgress(left: seq<Part>, files: seq<Part>, i: nat, safe: set<Name>, total: int, all: int,
                                 limit: int)
    requires i <= |files|
  {
    left + Within(files[i..], safe, total, limit) == Within(files, safe, all, limit)
  }

  lemma StartWithin(files: seq<Part>, safe: set<Name>, all: int, limit: int)
    ensures Joined([], files, 0) == files && WithinProgress([], files, 0, safe, all, all, limit)
  {
  }

  lemma WithinStep(left: seq<Part>, files: seq<Part>, i: nat, safe: set<Name>, total: int, all: int, limit: int)
    requires i < |files| && total > limit && WithinProgress(left, files, i, safe, total, all, limit)
    ensures var stays := files[i].name in safe;
            WithinProgress(if stays then left + [files[i]] else left, files, i + 1, safe,
                           if stays then total else total - files[i].size, all, limit)
  {
    assert files[i..][1..] == files[i + 1..];
  }

  lemma WithinEnd(left: seq<Part>, files: seq<Part>, i: nat, safe: set<Name>, total: int, all: int, limit: int)
    requires i <= |files| && (i < |files| ==> total <= limit) && WithinProgress(left, files, i, safe, total, all, limit)
    ensures Joined(left, files, i) == Within(files, safe, all, limit)
  {
  }

  lemma ListingWithout(dir: seq<Part>, n: nat)
    requires Listing(dir) && n < |dir|
    ensures Listing(dir[..n] + dir[n + 1..])
    ensures Texts(dir[..n] + dir[n + 1..]) == Texts(dir)[..n] + Texts(dir)[n + 1..]
  {
    var rest := dir[..n] + dir[n + 1..];
    assert forall i :: 0 <= i < |rest| ==> rest[i] == if i < n then dir[i] else dir[i + 1];
  }

  lemma {:induction false} TotalGrows(parts: seq<Part>, p: Part)
    ensures Total(parts + [p]) == Total(parts) + p.size
  {
    if parts != [] {
      TotalGrows(parts[1..], p);
      assert (parts + [p])[1..] == parts[1..] + [p];
    }
  }
}

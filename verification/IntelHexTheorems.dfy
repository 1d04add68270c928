/** Reading back what was written: a file gives the content it was written from, with the upper address bytes
    exchanged. */
module IntelHexTheorems {
  import opened Streams
  import opened IntelHex
  import opened IntelHexRecords

  // ---------- the content ----------

  /** Where an address comes back: with the bytes of its upper half exchanged. */
  function Moved(address: nat): (m: nat)
    requires address < 0x1_0000_0000
    ensures m < 0x1_0000_0000
  {
    0x10000 * Exchanged(address / 0x10000) + address % 0x10000
  }

  lemma MovedInjective(a: nat, b: nat)
    requires a < 0x1_0000_0000 && b < 0x1_0000_0000 && Moved(a) == Moved(b)
    ensures a == b
  {
    ExchangedTwice(a / 0x10000);
    ExchangedTwice(b / 0x10000);
    assert Moved(a) / 0x10000 == Exchanged(a / 0x10000) && Moved(a) % 0x10000 == a % 0x10000;
    assert Moved(b) / 0x10000 == Exchanged(b / 0x10000) && Moved(b) % 0x10000 == b % 0x10000;
  }

  lemma ExchangedTwice(n: nat)
    requires n < 0x10000
    ensures Exchanged(Exchanged(n)) == n
  {
    assert Exchanged(n) % 0x100 == n / 0x100 && Exchanged(n) / 0x100 == n % 0x100;
  }

  /** The key under which the reader stores it. */
  function Landing(address: nat): nat
    requires address < 0x1_0000_0000
  {
    Key(Moved(address))
  }

  lemma LandingInjective(a: nat, b: nat)
    requires a < 0x1_0000_0000 && b < 0x1_0000_0000 && Landing(a) == Landing(b)
    ensures a == b
  {
    KeyLow(Moved(a));
    KeyLow(Moved(b));
    MovedInjective(a, b);
  }

  /** The lower half of a key is the address. */
  lemma KeyLow(n: nat)
    requires n < 0x1_0000_0000
    ensures Key(n) % 0x1_0000_0000 == n
  {
  }

  /** The content with every address where it lands. */
  function MovedMap(entries: Entries): map<nat, nat>
    requires Sorted(entries)
  {
    if entries == [] then map[]
    else
      var n := |entries| - 1;
      SortedParts(entries, n);
      MovedMap(entries[..n])[Landing(entries[n].0) := entries[n].1]
  }

  lemma {:induction false} MovedMapKeys(entries: Entries, key: nat)
    requires Sorted(entries) && key in MovedMap(entries)
    ensures exists i :: 0 <= i < |entries| && Landing(entries[i].0) == key
  {
    var n := |entries| - 1;
    SortedParts(entries, n);
    if key != Landing(entries[n].0) {
      MovedMapKeys(entries[..n], key);
      var i :| 0 <= i < n && Landing(entries[..n][i].0) == key;
      assert Landing(entries[i].0) == key;
    }
  }

  /** An address without a byte lands nowhere. */
  lemma NotThere(entries: Entries, address: nat)
    requires Sorted(entries) && address < 0x1_0000_0000
    requires forall i | 0 <= i < |entries| :: entries[i].0 != address
    ensures Landing(address) !in MovedMap(entries)
  {
    if Landing(address) in MovedMap(entries) {
      MovedMapKeys(entries, Landing(address));
      var i :| 0 <= i < |entries| && Landing(entries[i].0) == Landing(address);
      LandingInjective(entries[i].0, address);
    }
  }

  lemma MovedMapLonger(entries: Entries, entry: (nat, nat))
    requires Sorted(entries + [entry]) && Sorted(entries) && entry.0 < 0x1_0000_0000
    ensures MovedMap(entries + [entry]) == MovedMap(entries)[Landing(entry.0) := entry.1]
  {
    assert (entries + [entry])[..|entries|] == entries;
  }

  /** Entries at addresses that follow each other, and still do when moved. */
  predicate Run(run: Entries, address: nat) {
    && address + |run| <= 0x1_0000_0000
    && forall j | 0 <= j < |run| :: run[j].0 < 0x1_0000_0000 && Moved(run[j].0) == address + j
  }

  lemma {:induction false} InsertRun(r: Reader, done: Entries, run: Entries)
    requires Sorted(done + run) && Sorted(done) && Sorted(run)
    requires r.content == MovedMap(done) && Run(run, r.base)
    ensures InsertAll(r, Values(run)) == r.(content := MovedMap(done + run), base := r.base + |run|)
    decreases |run|
  {
    if run == [] {
      assert done + run == done;
    } else {
      InsertFirst(r, done, run);
      RunSplits(done, run);
      InsertRun(Insert(r, run[0].1), done + [run[0]], run[1..]);
    }
  }

  lemma RunSplits(done: Entries, run: Entries)
    requires run != []
    ensures done + run == done + [run[0]] + run[1..]
    ensures Values(run)[0] == run[0].1 && Values(run)[1..] == Values(run[1..])
    ensures Sorted(run) ==> Sorted(run[1..])
  {
  }

  lemma InsertFirst(r: Reader, done: Entries, run: Entries)
    requires Sorted(done + run) && Sorted(done) && run != []
    requires r.content == MovedMap(done) && Run(run, r.base)
    ensures Sorted(done + [run[0]])
    ensures Insert(r, run[0].1) == r.(content := MovedMap(done + [run[0]]), base := r.base + 1)
  {
    assert Moved(run[0].0) == r.base + 0;
    FirstOfRun(done, run);
    NotThere(done, run[0].0);
    MovedMapLonger(done, run[0]);
  }

  lemma FirstOfRun(done: Entries, run: Entries)
    requires Sorted(done + run) && run != []
    ensures Sorted(done + [run[0]]) && run[0].0 < 0x1_0000_0000
    ensures forall i | 0 <= i < |done| :: done[i].0 < run[0].0
  {
    SortedParts(done + run, |done| + 1);
    assert (done + run)[..|done| + 1] == done + [run[0]];
    assert (done + run)[|done|] == run[0];
    forall i | 0 <= i < |done| ensures done[i].0 < run[0].0 {
      assert (done + run)[i] == done[i];
    }
  }

  lemma {:induction false} LowsFollow(entries: Entries, max: nat)
    requires Sorted(entries) && entries != [] && max >= 1
    ensures forall j | 0 <= j < RunLength(entries, max) :: entries[j].0 % 0x10000 == entries[0].0 % 0x10000 + j
    decreases max
  {
    var n := RunLength(entries, max);
    if n > 1 {
      SortedParts(entries, 1);
      LowsFollow(entries[1..], max - 1);
      forall j | 0 <= j < n ensures entries[j].0 % 0x10000 == entries[0].0 % 0x10000 + j {
        if j > 0 { assert entries[j] == entries[1..][j - 1]; }
      }
    }
  }

  /** The first data record holds bytes of one 64 KiB segment. */
  predicate CleanGroup(entries: Entries)
    requires entries != []
  {
    entries[RunLength(entries, 16) - 1].0 / 0x10000 == entries[0].0 / 0x10000
  }

  /** And so does every data record of the file. */
  predicate Clean(entries: Entries)
    decreases |entries|
  {
    entries == [] || (CleanGroup(entries) && Clean(entries[RunLength(entries, 16)..]))
  }

  lemma RunIsConsecutive(entries: Entries)
    requires Sorted(entries) && entries != [] && CleanGroup(entries)
    ensures forall j | 0 <= j < RunLength(entries, 16) ::
              entries[j].0 == entries[0].0 + j && entries[j].0 / 0x10000 == entries[0].0 / 0x10000
  {
    var n := RunLength(entries, 16);
    LowsFollow(entries, 16);
    forall j | 0 <= j < n
      ensures entries[j].0 == entries[0].0 + j && entries[j].0 / 0x10000 == entries[0].0 / 0x10000
    {
      Between(entries[0].0, entries[j].0, entries[n - 1].0, j);
    }
  }

  lemma Between(a: nat, b: nat, z: nat, j: nat)
    requires a <= b <= z && a / 0x10000 == z / 0x10000 && b % 0x10000 == a % 0x10000 + j
    ensures b == a + j && b / 0x10000 == a / 0x10000
  {
  }

  // ---------- the records of a file ----------

  predicate AreWords(lines: seq<string>) {
    forall i | 0 <= i < |lines| :: lines[i] != "" && lines[i][0] == ':' && NoSpaces(lines[i])
  }

  function DecodeAll(r: Reader, lines: seq<string>): Reader
    requires AreWords(lines)
    decreases |lines|
  {
    if lines == [] then r else DecodeAll(DecodeLine(r, lines[0][1..]), lines[1..])
  }

  lemma {:induction false} DecodeAllAppend(r: Reader, a: seq<string>, b: seq<string>)
    requires AreWords(a) && AreWords(b)
    ensures AreWords(a + b) && DecodeAll(r, a + b) == DecodeAll(DecodeAll(r, a), b)
    decreases |a|
  {
    if a == [] {
      assert a + b == b;
    } else {
      DecodeAllAppend(DecodeLine(r, a[0][1..]), a[1..], b);
      assert (a + b)[0] == a[0] && (a + b)[1..] == a[1..] + b;
    }
  }

  lemma DecodeOne(r: Reader, bytes: seq<nat>)
    requires AreBytes(bytes)
    ensures AreWords([Record(bytes)]) && DecodeAll(r, [Record(bytes)]) == DecodeLine(r, Record(bytes)[1..])
  {
    RecordIsWord(bytes);
    assert [Record(bytes)][1..] == [];
  }

  /** The decoder is where the encoder assumes it. */
  predicate Ready(r: Reader, entries: Entries, upper: nat)
    requires Sorted(entries) && upper < 0x10000
  {
    entries != [] && entries[0].0 / 0x10000 == upper ==> r.base - r.base % 0x10000 == 0x10000 * Exchanged(upper)
  }

  lemma OneLinear(r: Reader, upper: nat)
    requires upper < 0x10000
    ensures AreWords([LinearRecord(upper)])
    ensures DecodeAll(r, [LinearRecord(upper)]) == r.(base := 0x10000 * Exchanged(upper))
  {
    LinearRecordDecodes(r, upper);
    DecodeOne(r, [2, 0, 0, 4, upper % 256, upper / 256]);
  }

  /** Where the decoder's base address is then. */
  function BaseAfter(base: nat, next: nat, upper: nat): nat
    requires next < 0x10000
  {
    if next != upper then 0x10000 * Exchanged(next) else base
  }

  lemma BaseIsUpper(base: nat, next: nat, upper: nat)
    requires next < 0x10000 && (next == upper ==> base - base % 0x10000 == 0x10000 * Exchanged(next))
    ensures var b := BaseAfter(base, next, upper); b - b % 0x10000 == 0x10000 * Exchanged(next)
  {
    Divided16(Exchanged(next), 0);
  }

  lemma LinearPart(r: Reader, next: nat, upper: nat)
    requires next < 0x10000
    ensures AreWords(LinearLines(next, upper))
    ensures DecodeAll(r, LinearLines(next, upper)) == r.(base := BaseAfter(r.base, next, upper))
  {
    if next == upper {
      LinearKept(r, next);
    } else {
      LinearNew(r, next, upper);
    }
  }

  lemma LinearKept(r: Reader, upper: nat)
    requires upper < 0x10000
    ensures AreWords(LinearLines(upper, upper))
    ensures DecodeAll(r, LinearLines(upper, upper)) == r.(base := r.base)
  {
    assert LinearLines(upper, upper) == [];
  }

  lemma LinearNew(r: Reader, next: nat, upper: nat)
    requires next < 0x10000 && next != upper
    ensures AreWords(LinearLines(next, upper))
    ensures DecodeAll(r, LinearLines(next, upper)) == r.(base := 0x10000 * Exchanged(next))
  {
    OneLinear(r, next);
    assert LinearLines(next, upper) == [LinearRecord(next)];
  }

  lemma DataPart(r: Reader, done: Entries, entries: Entries)
    requires Sorted(done + entries) && Sorted(done) && Sorted(entries) && entries != []
    requires CleanGroup(entries) && r.content == MovedMap(done)
    requires r.base - r.base % 0x10000 == 0x10000 * Exchanged(entries[0].0 / 0x10000)
    ensures var n := RunLength(entries, 16);
            && Sorted(entries[..n]) && Sorted(done + entries[..n])
            && DecodeData(r, entries[0].0 % 0x10000, Values(entries[..n]))
               == r.(content := MovedMap(done + entries[..n]), base := Moved(entries[0].0) + n)
  {
    var n := RunLength(entries, 16);
    var run := entries[..n];
    RunIsConsecutive(entries);
    Regrouped(done, entries, n);
    RunMoves(entries, n);
    RebasedIs(r.base, entries[0].0);
    InsertRun(r.(base := Moved(entries[0].0)), done, run);
  }

  lemma Regrouped(done: Entries, entries: Entries, n: nat)
    requires Sorted(done + entries) && Sorted(entries) && n <= |entries|
    ensures done + entries[..n] + entries[n..] == done + entries
    ensures Sorted(entries[..n]) && Sorted(entries[n..]) && Sorted(done + entries[..n])
  {
    SortedParts(entries, n);
    SortedParts(done + entries, |done| + n);
    assert (done + entries)[..|done| + n] == done + entries[..n];
  }

  lemma RebasedIs(base: nat, address: nat)
    requires address < 0x1_0000_0000
    requires base - base % 0x10000 == 0x10000 * Exchanged(address / 0x10000)
    ensures Rebased(base, address % 0x10000) == Moved(address)
  {
  }

  lemma RunMoves(entries: Entries, n: nat)
    requires Sorted(entries) && 1 <= n <= |entries|
    requires forall j | 0 <= j < n ::
               entries[j].0 == entries[0].0 + j && entries[j].0 / 0x10000 == entries[0].0 / 0x10000
    ensures Run(entries[..n], Moved(entries[0].0))
  {
    var a := entries[0].0;
    assert entries[n - 1].0 == a + n - 1;
    assert a % 0x10000 + n - 1 < 0x10000;
    forall j | 0 <= j < n ensures Moved(entries[..n][j].0) == Moved(a) + j {
      assert entries[..n][j].0 == a + j;
    }
  }

  /** The lines of one turn are read, whatever is in the map already. */
  lemma GroupRead(r: Reader, entries: Entries, upper: nat)
    requires Sorted(entries) && entries != []
    ensures var n := RunLength(entries, 16);
            var base := BaseAfter(r.base, entries[0].0 / 0x10000, upper);
            && AreWords(Group(entries, upper))
            && DecodeAll(r, Group(entries, upper))
               == DecodeData(r.(base := base), entries[0].0 % 0x10000, Values(entries[..n]))
  {
    var n := RunLength(entries, 16);
    var base := BaseAfter(r.base, entries[0].0 / 0x10000, upper);
    LinearPart(r, entries[0].0 / 0x10000, upper);
    var lines := LinearLines(entries[0].0 / 0x10000, upper);
    SortedParts(entries, n);
    var bytes := DataBytes(entries[0].0 % 0x10000, Values(entries[..n]));
    DataRecordDecodes(r.(base := base), entries[0].0 % 0x10000, Values(entries[..n]));
    DecodeOne(r.(base := base), bytes);
    DecodeAllAppend(r, lines, [Record(bytes)]);
  }

  lemma GroupDecodes(r: Reader, done: Entries, entries: Entries, upper: nat)
    requires Sorted(done + entries) && Sorted(done) && Sorted(entries) && entries != [] && upper < 0x10000
    requires CleanGroup(entries) && r.content == MovedMap(done) && Ready(r, entries, upper)
    ensures var n := RunLength(entries, 16);
            && Sorted(done + entries[..n]) && AreWords(Group(entries, upper))
            && DecodeAll(r, Group(entries, upper))
               == r.(content := MovedMap(done + entries[..n]), base := Moved(entries[0].0) + n)
  {
    BaseIsUpper(r.base, entries[0].0 / 0x10000, upper);
    GroupRead(r, entries, upper);
    DataPart(r.(base := BaseAfter(r.base, entries[0].0 / 0x10000, upper)), done, entries);
  }

  /** After a data record the decoder is ready for the next one. */
  lemma ReadyNext(r: Reader, entries: Entries)
    requires Sorted(entries) && entries != [] && CleanGroup(entries)
    requires r.base == Moved(entries[0].0) + RunLength(entries, 16)
    ensures var n := RunLength(entries, 16);
            Sorted(entries[n..]) && Ready(r, entries[n..], entries[0].0 / 0x10000)
  {
    var n := RunLength(entries, 16);
    SortedParts(entries, n);
    if n < |entries| {
      BehindRun(entries);
      ReadyBehind(r, entries[0].0, n, entries[n..]);
    }
  }

  lemma ReadyBehind(r: Reader, a: nat, n: nat, rest: Entries)
    requires Sorted(rest) && rest != [] && a < 0x1_0000_0000 && a + n <= rest[0].0 && r.base == Moved(a) + n
    ensures Ready(r, rest, a / 0x10000)
  {
    SameUpper(a, n, rest[0].0);
  }

  lemma BehindRun(entries: Entries)
    requires Sorted(entries) && entries != [] && CleanGroup(entries)
    ensures var n := RunLength(entries, 16);
            n < |entries| ==> entries[0].0 + n <= entries[n].0
  {
    RunIsConsecutive(entries);
    var n := RunLength(entries, 16);
    if n < |entries| {
      assert entries[n - 1].0 == entries[0].0 + n - 1;
      assert entries[n - 1].0 < entries[n].0;
    }
  }

  lemma SameUpper(a: nat, n: nat, b: nat)
    requires a < 0x1_0000_0000 && a + n <= b
    ensures a / 0x10000 == b / 0x10000
            ==> (Moved(a) + n) - (Moved(a) + n) % 0x10000 == 0x10000 * Exchanged(a / 0x10000)
  {
    if a / 0x10000 == b / 0x10000 {
      assert a % 0x10000 + n < 0x10000;
      assert (a % 0x10000 + n) % 0x10000 == a % 0x10000 + n;
      Divided16(Exchanged(a / 0x10000), a % 0x10000 + n);
    }
  }

  lemma Divided16(high: nat, low: nat)
    requires low < 0x10000
    ensures (0x10000 * high + low) % 0x10000 == low
  {
  }

  lemma BodySplits(entries: Entries, upper: nat)
    requires Sorted(entries) && entries != []
    ensures var n := RunLength(entries, 16);
            Sorted(entries[n..])
            && Body(entries, upper) == Group(entries, upper) + Body(entries[n..], entries[0].0 / 0x10000)
  {
    SortedParts(entries, RunLength(entries, 16));
  }


  lemma BodyStep(r: Reader, s: Reader, entries: Entries, rest: Entries, upper: nat, next: nat)
    requires Sorted(entries) && entries != [] && rest == entries[RunLength(entries, 16)..] && Sorted(rest)
    requires next == entries[0].0 / 0x10000
    requires AreWords(Group(entries, upper)) && AreWords(Body(rest, next))
    requires DecodeAll(r, Group(entries, upper)) == s
    ensures AreWords(Body(entries, upper)) && DecodeAll(r, Body(entries, upper)) == DecodeAll(s, Body(rest, next))
  {
    BodySplits(entries, upper);
    DecodeAllAppend(r, Group(entries, upper), Body(rest, next));
  }

  lemma {:induction false} BodyDecodes(r: Reader, done: Entries, entries: Entries, upper: nat) returns (base: nat)
    requires Sorted(done + entries) && Sorted(done) && Sorted(entries) && upper < 0x10000
    requires Clean(entries) && r.content == MovedMap(done) && Ready(r, entries, upper)
    ensures AreWords(Body(entries, upper))
    ensures DecodeAll(r, Body(entries, upper)) == r.(content := MovedMap(done + entries), base := base)
    decreases |entries|
  {
    if entries == [] {
      assert done + entries == done;
      base := r.base;
    } else {
      base := BodyMore(r, done, entries, upper);
    }
  }

  lemma {:induction false} BodyMore(r: Reader, done: Entries, entries: Entries, upper: nat) returns (base: nat)
    requires Sorted(done + entries) && Sorted(done) && Sorted(entries) && upper < 0x10000 && entries != []
    requires Clean(entries) && r.content == MovedMap(done) && Ready(r, entries, upper)
    ensures AreWords(Body(entries, upper))
    ensures DecodeAll(r, Body(entries, upper)) == r.(content := MovedMap(done + entries), base := base)
    decreases |entries|, 0
  {
    var n := RunLength(entries, 16);
    var rest, more := entries[n..], done + entries[..n];
    Regrouped(done, entries, n);
    GroupDecodes(r, done, entries, upper);
    var s := r.(content := MovedMap(more), base := Moved(entries[0].0) + n);
    ReadyNext(s, entries);
    base := BodyDecodes(s, more, rest, entries[0].0 / 0x10000);
    BodyStep(r, s, entries, rest, upper, entries[0].0 / 0x10000);
  }

  // ---------- what reading never does ----------

  /** Everything that was known before is still known. */
  predicate Extends(before: Reader, after: Reader) {
    && (forall a | a in before.content :: a in after.content && after.content[a] == before.content[a])
    && before.errors <= after.errors && before.warnings <= after.warnings
    && (before.foundEof ==> after.foundEof)
    && (before.startSegment.Some? ==> after.startSegment == before.startSegment)
  }

  lemma {:induction false} InsertAllExtends(r: Reader, bytes: seq<nat>)
    ensures Extends(r, InsertAll(r, bytes))
    decreases |bytes|
  {
    if bytes != [] {
      InsertAllExtends(Insert(r, bytes[0]), bytes[1..]);
    }
  }

  lemma StartSegmentExtends(h: Reader, s: string, length: nat, complete: bool)
    requires |s| >= 8 && (complete ==> 2 * (4 + length) <= |s|)
    ensures Extends(h, DecodeStartSegment(h, s, length, complete))
  {
  }

  lemma StartLinearExtends(h: Reader, s: string, length: nat, complete: bool)
    requires |s| >= 8 && (complete ==> 2 * (4 + length) <= |s|)
    ensures Extends(h, DecodeStartLinear(h, s, length, complete))
  {
  }

  lemma DecodeKindExtends(h: Reader, s: string, length: nat, offset: nat, kind: nat)
    requires |s| >= 8
    ensures Extends(h, DecodeKind(h, s, length, offset, kind))
  {
    if kind == 3 {
      StartSegmentExtends(h, s, length, 2 * (4 + length) <= |s|);
    } else if kind == 5 {
      StartLinearExtends(h, s, length, 2 * (4 + length) <= |s|);
    } else if kind == 0 && 2 * (4 + length) <= |s| {
      InsertAllExtends(Errors(h, Bad(s, 4, length)).(base := Rebased(h.base, offset)), Data(s, 4, length));
    }
  }

  lemma DecodeLineExtends(r: Reader, s: string)
    ensures Extends(r, DecodeLine(r, s))
  {
    var n := |s| / 2;
    var checked := Errors(r, Bad(s, 0, n) + |s| % 2);
    if Checksum(s, n) == 0 && |s| >= 8 {
      DecodeKindExtends(Errors(checked, Bad(s, 0, 4)), s, ByteAt(s, 0), PairAt(s, 1), ByteAt(s, 3));
    }
  }

  lemma ExtendsOn(a: Reader, b: Reader, c: Reader)
    requires Extends(a, b) && Extends(b, c)
    ensures Extends(a, c)
  {
  }

  // ---------- records across a segment boundary ----------

  /** Reading can only have changed the content, the base address and the counts. */
  predicate OnlyContent(r: Reader, s: Reader) {
    s == r.(content := s.content, base := s.base, warnings := s.warnings, errors := s.errors) && Extends(r, s)
  }

  lemma {:induction false} InsertedOnly(r: Reader, bytes: seq<nat>)
    ensures OnlyContent(r, InsertAll(r, bytes)) && InsertAll(r, bytes).base == r.base + |bytes|
    decreases |bytes|
  {
    if bytes != [] { InsertedOnly(Insert(r, bytes[0]), bytes[1..]); }
  }

  /** Each byte is there then, or another one was. */
  lemma {:induction false} InsertedKeys(r: Reader, bytes: seq<nat>, j: nat, key: nat)
    requires j < |bytes| && key == Key(r.base + j)
    ensures key in InsertAll(r, bytes).content
    decreases |bytes|
  {
    var next := Insert(r, bytes[0]);
    InsertedOnly(next, bytes[1..]);
    if j > 0 { InsertedKeys(next, bytes[1..], j - 1, key); }
  }

  lemma InsertedAt(r: Reader, s: Reader, base: nat, bytes: seq<nat>, j: nat, key: nat)
    requires j < |bytes| && s == InsertAll(r.(base := base), bytes) && key == Key(base + j)
    ensures key in s.content
  {
    InsertedKeys(r.(base := base), bytes, j, key);
  }

  /** Where the reader is after one turn of the writing loop. */
  function AfterGroup(r: Reader, entries: Entries, upper: nat): Reader
    requires Sorted(entries) && entries != []
  {
    DecodeData(r.(base := BaseAfter(r.base, entries[0].0 / 0x10000, upper)), entries[0].0 % 0x10000,
               Values(entries[..RunLength(entries, 16)]))
  }

  lemma AfterGroupIs(r: Reader, entries: Entries, upper: nat)
    requires Sorted(entries) && entries != []
    ensures AreWords(Group(entries, upper)) && DecodeAll(r, Group(entries, upper)) == AfterGroup(r, entries, upper)
    ensures OnlyContent(r, AfterGroup(r, entries, upper))
  {
    GroupRead(r, entries, upper);
    var base := Rebased(BaseAfter(r.base, entries[0].0 / 0x10000, upper), entries[0].0 % 0x10000);
    InsertedOnly(r.(base := base), Values(entries[..RunLength(entries, 16)]));
  }

  lemma AfterGroupInserts(r: Reader, entries: Entries, upper: nat)
    requires Sorted(entries) && entries != [] && upper < 0x10000 && Ready(r, entries, upper)
    ensures AfterGroup(r, entries, upper)
            == InsertAll(r.(base := Moved(entries[0].0)), Values(entries[..RunLength(entries, 16)]))
  {
    BaseIsUpper(r.base, entries[0].0 / 0x10000, upper);
    RebasedIs(BaseAfter(r.base, entries[0].0 / 0x10000, upper), entries[0].0);
  }

  lemma AfterGroupBase(r: Reader, entries: Entries, upper: nat)
    requires Sorted(entries) && entries != [] && upper < 0x10000 && Ready(r, entries, upper)
    ensures AfterGroup(r, entries, upper).base == Moved(entries[0].0) + RunLength(entries, 16)
  {
    AfterGroupInserts(r, entries, upper);
    InsertedOnly(r.(base := Moved(entries[0].0)), Values(entries[..RunLength(entries, 16)]));
  }

  /** Reading the records of any content changes nothing else, and never stops early. */
  lemma {:induction false} BodyOnly(r: Reader, entries: Entries, upper: nat)
    requires Sorted(entries)
    ensures AreWords(Body(entries, upper)) && OnlyContent(r, DecodeAll(r, Body(entries, upper)))
    decreases |entries|
  {
    if entries != [] {
      var n, next := RunLength(entries, 16), entries[0].0 / 0x10000;
      var s := AfterGroup(r, entries, upper);
      SortedParts(entries, n);
      AfterGroupIs(r, entries, upper);
      BodyOnly(s, entries[n..], next);
      BodyStep(r, s, entries, entries[n..], upper, next);
      ExtendsOn(r, s, DecodeAll(s, Body(entries[n..], next)));
    }
  }

  /** The first byte of a record that belongs to another segment than the record. */
  lemma {:induction false} FirstSeam(entries: Entries, n: nat) returns (m: nat)
    requires 1 <= n <= |entries| && entries[n - 1].0 / 0x10000 != entries[0].0 / 0x10000
    ensures 1 <= m < n && entries[m - 1].0 / 0x10000 == entries[0].0 / 0x10000 != entries[m].0 / 0x10000
  {
    if entries[n - 2].0 / 0x10000 == entries[0].0 / 0x10000 {
      m := n - 1;
    } else {
      m := FirstSeam(entries, n - 1);
    }
  }

  lemma NextAddress(a: nat, b: nat, z: nat, m: nat)
    requires b / 0x10000 == a / 0x10000 != z / 0x10000 && a <= b < z < 0x1_0000_0000
    requires b % 0x10000 == a % 0x10000 + m - 1 && z % 0x10000 == a % 0x10000 + m
    ensures b + 1 < z && Moved(b + 1) == Moved(a) + m
  {
    assert (b + 1) / 0x10000 == a / 0x10000 && (b + 1) % 0x10000 == a % 0x10000 + m;
  }

  /** The address behind the last byte of a segment, at which the reader puts the first byte of another one. */
  lemma SeamAddress(entries: Entries) returns (x: nat, m: nat)
    requires Sorted(entries) && entries != [] && !CleanGroup(entries)
    ensures m < RunLength(entries, 16) && entries[0].0 < x < 0x1_0000_0000
    ensures Landing(x) == Key(Moved(entries[0].0) + m)
    ensures forall i | 0 <= i < |entries| :: entries[i].0 != x
  {
    m := FirstSeam(entries, RunLength(entries, 16));
    x := entries[m - 1].0 + 1;
    LowsFollow(entries, 16);
    assert entries[m].0 % 0x10000 == entries[0].0 % 0x10000 + m;
    NextAddress(entries[0].0, entries[m - 1].0, entries[m].0, m);
    BetweenNeighbours(entries, m, x);
  }

  lemma BetweenNeighbours(entries: Entries, m: nat, x: nat)
    requires Sorted(entries) && 1 <= m < |entries| && entries[m - 1].0 < x < entries[m].0
    ensures entries[0].0 < x && forall i | 0 <= i < |entries| :: entries[i].0 != x
  {
    forall i | 0 <= i < |entries| ensures entries[i].0 != x {
      if i < m { assert entries[i].0 <= entries[m - 1].0; } else { assert entries[m].0 <= entries[i].0; }
    }
    assert entries[0].0 <= entries[m - 1].0;
  }

  lemma StrayHere(r: Reader, entries: Entries, upper: nat) returns (x: nat)
    requires Sorted(entries) && entries != [] && upper < 0x10000 && Ready(r, entries, upper) && !CleanGroup(entries)
    ensures entries[0].0 < x < 0x1_0000_0000 && Landing(x) in AfterGroup(r, entries, upper).content
    ensures forall i | 0 <= i < |entries| :: entries[i].0 != x
  {
    var m;
    x, m := SeamAddress(entries);
    AfterGroupInserts(r, entries, upper);
    InsertedAt(r, AfterGroup(r, entries, upper), Moved(entries[0].0), Values(entries[..RunLength(entries, 16)]), m,
               Landing(x));
  }

  /** If some record holds bytes of two segments, reading finds a byte where none was written. */
  lemma {:induction false} StrayByte(r: Reader, entries: Entries, upper: nat) returns (x: nat)
    requires Sorted(entries) && upper < 0x10000 && Ready(r, entries, upper) && !Clean(entries)
    ensures AreWords(Body(entries, upper)) && x < 0x1_0000_0000 && entries[0].0 < x
    ensures Landing(x) in DecodeAll(r, Body(entries, upper)).content
    ensures forall i | 0 <= i < |entries| :: entries[i].0 != x
    decreases |entries|
  {
    var n, next := RunLength(entries, 16), entries[0].0 / 0x10000;
    var s := AfterGroup(r, entries, upper);
    SortedParts(entries, n);
    AfterGroupIs(r, entries, upper);
    AfterGroupBase(r, entries, upper);
    BodyOnly(s, entries[n..], next);
    BodyStep(r, s, entries, entries[n..], upper, next);
    if CleanGroup(entries) {
      ReadyNext(s, entries);
      x := StrayByte(s, entries[n..], next);
      StrayBehind(entries, n, x);
    } else {
      x := StrayHere(r, entries, upper);
    }
  }

  lemma StrayBehind(entries: Entries, n: nat, x: nat)
    requires Sorted(entries) && n < |entries| && entries[n].0 < x
    requires forall i | 0 <= i < |entries[n..]| :: entries[n..][i].0 != x
    ensures entries[0].0 < x && forall i | 0 <= i < |entries| :: entries[i].0 != x
  {
    forall i | 0 <= i < |entries| ensures entries[i].0 != x && entries[0].0 < x {
      if i < n {
        assert entries[i].0 < entries[n].0;
      } else {
        assert entries[i] == entries[n..][i - n];
      }
      assert entries[0].0 <= entries[n].0;
    }
  }

  // ---------- the text of a file ----------

  lemma UndefinedStays(r: Reader, s: string)
    requires r.undefined
    ensures DecodeLine(r, s).undefined
  {
    var n := |s| / 2;
    var checked := Errors(r, Bad(s, 0, n) + |s| % 2);
    if Checksum(s, n) == 0 && |s| >= 8 && ByteAt(s, 3) == 0 && 2 * (4 + ByteAt(s, 0)) <= |s| {
      var length := ByteAt(s, 0);
      var h := Errors(Errors(checked, Bad(s, 0, 4)), Bad(s, 4, length));
      InsertsNoFlag(h.(base := Rebased(h.base, PairAt(s, 1))), Data(s, 4, length));
    }
  }

  lemma {:induction false} UndefinedToTheEnd(r: Reader, lines: seq<string>)
    requires AreWords(lines) && r.undefined
    ensures DecodeAll(r, lines).undefined
    decreases |lines|
  {
    if lines != [] {
      UndefinedStays(r, lines[0][1..]);
      UndefinedToTheEnd(DecodeLine(r, lines[0][1..]), lines[1..]);
    }
  }

  /** Reading lines from a text, after the line feed of the line before them. */
  lemma {:induction false} TextDecodes(r: Reader, before: string, lines: seq<string>, count: nat)
    requires AreWords(lines) && (before == "" || before == "\n")
    requires !DecodeAll(r, lines).undefined
    ensures DecodeFrom(r, before + Lines(lines), count) == DecodeAll(r, lines)
    decreases |lines|
  {
    var text := before + Lines(lines);
    if lines == [] {
      NothingToRead(before);
      assert text == before;
    } else {
      var line, rest := lines[0], "\n" + Lines(lines[1..]);
      LinesFirst(lines);
      assert text == before + line + rest;
      ReadWordIs(before, line, rest);
      var next := DecodeLine(r, line[1..]);
      if next.undefined {
        UndefinedToTheEnd(next, lines[1..]);
      }
      TextDecodes(next, "\n", lines[1..], count + 1);
    }
  }

  lemma NothingToRead(before: string)
    requires before == "" || before == "\n"
    ensures ReadWord(before) == ("", "")
  {
    SkipSpacesIs(before, "");
    assert before + "" == before;
  }

  // ---------- files ----------

  lemma ReadyAtStart(r: Reader, entries: Entries, upper: nat)
    requires Sorted(entries) && upper < 0x10000 && r.base == 0x10000 * Exchanged(upper)
    ensures Ready(r, entries, upper)
  {
    Divided16(Exchanged(upper), 0);
  }

  lemma FirstSegment(r: Reader, entries: Entries, upper: nat) returns (base: nat)
    requires Sorted(entries) && Clean(entries) && upper < 0x10000
    requires r.content == map[] && r.base == 0x10000 * Exchanged(upper)
    ensures AreWords(Body(entries, upper))
    ensures DecodeAll(r, Body(entries, upper)) == r.(content := MovedMap(entries), base := base)
  {
    ReadyAtStart(r, entries, upper);
    assert [] + entries == entries;
    base := BodyDecodes(r, [], entries, upper);
  }

  lemma ContentDecodes(entries: Entries) returns (base: nat)
    requires Sorted(entries) && Clean(entries)
    ensures AreWords(ContentLines(entries))
    ensures DecodeAll(Fresh(), ContentLines(entries)) == Fresh().(content := MovedMap(entries), base := base)
  {
    if entries == [] {
      base := 0;
    } else {
      var upper := entries[0].0 / 0x10000;
      var r := Fresh().(base := 0x10000 * Exchanged(upper));
      OneLinear(Fresh(), upper);
      base := FirstSegment(r, entries, upper);
      DecodeAllAppend(Fresh(), [LinearRecord(upper)], Body(entries, upper));
    }
  }

  lemma StartSegmentPart(r: Reader, start: Option<Registers>)
    requires start.Some? ==> start.value.cs < 0x10000 && start.value.ip < 0x10000
    requires r.startSegment.None? && !r.linearExists
    ensures AreWords(StartSegmentLines(start))
    ensures DecodeAll(r, StartSegmentLines(start)) == r.(startSegment := start)
  {
    if start.Some? {
      StartSegmentDecodes(r, start.value);
      DecodeOne(r, StartSegmentBytes(start.value));
    }
  }

  lemma StartLinearPart(r: Reader, start: Option<nat>)
    requires start.Some? ==> start.value < 0x1_0000_0000
    requires !r.linearExists && r.eip == 0
    ensures AreWords(StartLinearLines(start))
    ensures DecodeAll(r, StartLinearLines(start))
            == r.(eip := if start.Some? then start.value else 0,
                  errors := r.errors + if start.Some? && r.startSegment.Some? then 1 else 0)
  {
    if start.Some? {
      StartLinearDecodes(r, start.value);
      DecodeOne(r, StartLinearBytes(start.value));
    }
  }

  /** The content of a file comes back, at the addresses where it lands, exactly if every data record holds bytes
      of one segment. */
  lemma ContentIs(entries: Entries)
    requires Sorted(entries)
    ensures AreWords(ContentLines(entries))
    ensures var r := DecodeAll(Fresh(), ContentLines(entries));
            && OnlyContent(Fresh(), r)
            && (Clean(entries) <==> r.content == MovedMap(entries))
            && (Clean(entries) ==> r.errors == 0 && r.warnings == 0)
  {
    if Clean(entries) {
      var base := ContentDecodes(entries);
    } else {
      var upper := entries[0].0 / 0x10000;
      var r := Fresh().(base := 0x10000 * Exchanged(upper));
      OneLinear(Fresh(), upper);
      ReadyAtStart(r, entries, upper);
      BodyOnly(r, entries, upper);
      var x := StrayByte(r, entries, upper);
      NotThere(entries, x);
      DecodeAllAppend(Fresh(), [LinearRecord(upper)], Body(entries, upper));
    }
  }

  lemma LinesDecode(lines: seq<string>)
    requires AreWords(lines) && !DecodeAll(Fresh(), lines).undefined
    ensures DecodeFrom(Fresh(), Lines(lines), 0) == DecodeAll(Fresh(), lines)
  {
    TextDecodes(Fresh(), "", lines, 0);
    assert "" + Lines(lines) == Lines(lines);
  }

  /** The lines behind the content. */
  function Ending(startSegment: Option<Registers>, startLinear: Option<nat>): seq<string>
    requires Writable([], startSegment, startLinear)
  {
    StartSegmentLines(startSegment) + StartLinearLines(startLinear) + [Record([0, 0, 0, 1])]
  }

  /** What they make of it. */
  function Ended(r: Reader, startSegment: Option<Registers>, startLinear: Option<nat>): Reader {
    r.(foundEof := true, startSegment := startSegment,
       eip := if startLinear.Some? then startLinear.value else 0,
       errors := r.errors + if startSegment.Some? && startLinear.Some? then 1 else 0)
  }

  lemma EndingDecodes(r: Reader, startSegment: Option<Registers>, startLinear: Option<nat>)
    requires Writable([], startSegment, startLinear)
    requires r.startSegment.None? && !r.linearExists && r.eip == 0 && !r.foundEof
    ensures AreWords(Ending(startSegment, startLinear))
    ensures DecodeAll(r, Ending(startSegment, startLinear)) == Ended(r, startSegment, startLinear)
  {
    var starts := StartsDecode(r, startSegment, startLinear);
    var t := Ended(r, startSegment, startLinear).(foundEof := false);
    var end := EndDecodes(t);
    DecodeBoth(r, starts, t, end, t.(foundEof := true));
  }

  lemma DecodeBoth(r: Reader, a: seq<string>, s: Reader, b: seq<string>, t: Reader)
    requires AreWords(a) && AreWords(b) && DecodeAll(r, a) == s && DecodeAll(s, b) == t
    ensures AreWords(a + b) && DecodeAll(r, a + b) == t
  {
    DecodeAllAppend(r, a, b);
  }

  lemma EndDecodes(r: Reader) returns (end: seq<string>)
    requires !r.foundEof
    ensures end == [Record([0, 0, 0, 1])]
    ensures AreWords(end) && DecodeAll(r, end) == r.(foundEof := true)
  {
    end := [Record([0, 0, 0, 1])];
    EndRecordDecodes(r);
    DecodeOne(r, [0, 0, 0, 1]);
  }

  lemma StartsDecode(r: Reader, startSegment: Option<Registers>, startLinear: Option<nat>)
    returns (starts: seq<string>)
    requires Writable([], startSegment, startLinear)
    requires r.startSegment.None? && !r.linearExists && r.eip == 0 && !r.foundEof
    ensures starts == StartSegmentLines(startSegment) + StartLinearLines(startLinear)
    ensures AreWords(starts)
    ensures DecodeAll(r, starts) == Ended(r, startSegment, startLinear).(foundEof := false)
  {
    starts := StartSegmentLines(startSegment) + StartLinearLines(startLinear);
    StartSegmentPart(r, startSegment);
    StartLinearPart(r.(startSegment := startSegment), startLinear);
    DecodeAllAppend(r, StartSegmentLines(startSegment), StartLinearLines(startLinear));
  }

  lemma RestDecodes(entries: Entries, startSegment: Option<Registers>, startLinear: Option<nat>, r: Reader)
    requires Writable(entries, startSegment, startLinear) && AreWords(ContentLines(entries))
    requires r == DecodeAll(Fresh(), ContentLines(entries)) && OnlyContent(Fresh(), r)
    ensures DecodeFrom(Fresh(), WrittenText(entries, startSegment, startLinear), 0)
            == Ended(r, startSegment, startLinear)
  {
    var lines, end := RecordsSplit(entries, startSegment, startLinear);
    EndingDecodes(r, startSegment, startLinear);
    DecodeBoth(Fresh(), ContentLines(entries), r, end, Ended(r, startSegment, startLinear));
    LinesDecode(lines);
  }

  lemma RecordsSplit(entries: Entries, startSegment: Option<Registers>, startLinear: Option<nat>)
    returns (lines: seq<string>, end: seq<string>)
    requires Writable(entries, startSegment, startLinear)
    ensures end == Ending(startSegment, startLinear) && lines == ContentLines(entries) + end
    ensures WrittenText(entries, startSegment, startLinear) == Lines(lines)
  {
    end := Ending(startSegment, startLinear);
    lines := ContentLines(entries) + end;
    Grouped(ContentLines(entries), StartSegmentLines(startSegment), StartLinearLines(startLinear),
            [Record([0, 0, 0, 1])]);
  }

  lemma Grouped(a: seq<string>, b: seq<string>, c: seq<string>, d: seq<string>)
    ensures a + (b + c + d) == a + b + c + d
  {
  }

  /** What a freshly made object holds after reading a written file. */
  lemma FileDecodes(entries: Entries, startSegment: Option<Registers>, startLinear: Option<nat>)
    requires Writable(entries, startSegment, startLinear)
    ensures var r := DecodeFrom(Fresh(), WrittenText(entries, startSegment, startLinear), 0);
            && (r.content == MovedMap(entries) <==> Clean(entries))
            && r.foundEof && r.startSegment == startSegment && !r.linearExists && !r.undefined
            && r.eip == (if startLinear.Some? then startLinear.value else 0)
            && (Clean(entries) ==>
                  && r.errors == (if startSegment.Some? && startLinear.Some? then 1 else 0)
                  && r.warnings == 0)
  {
    ContentIs(entries);
    RestDecodes(entries, startSegment, startLinear, DecodeAll(Fresh(), ContentLines(entries)));
  }

  /** Every file ends with the end record. */
  lemma FileEnds(entries: Entries, startSegment: Option<Registers>, startLinear: Option<nat>)
    requires Writable(entries, startSegment, startLinear)
    ensures exists before :: WrittenText(entries, startSegment, startLinear) == before + ":00000001FF" + "\n"
  {
    var lines := ContentLines(entries) + StartSegmentLines(startSegment) + StartLinearLines(startLinear);
    EndRecordText();
    assert (lines + [":00000001FF"])[..|lines|] == lines;
    assert WrittenText(entries, startSegment, startLinear) == Lines(lines) + ":00000001FF" + "\n";
  }

  lemma {:induction false} NotMoved(entries: Entries)
    requires Sorted(entries) && forall i | 0 <= i < |entries| :: Landing(entries[i].0) == entries[i].0
    ensures MovedMap(entries) == MapOf(entries)
  {
    if entries != [] {
      SortedParts(entries, |entries| - 1);
      NotMoved(entries[..|entries| - 1]);
    }
  }

  predicate InSegment(entries: Entries, upper: nat) {
    forall i | 0 <= i < |entries| :: entries[i].0 / 0x10000 == upper
  }

  lemma {:induction false} OneSegment(entries: Entries, upper: nat)
    requires InSegment(entries, upper)
    ensures Clean(entries)
    decreases |entries|
  {
    if entries != [] {
      var rest := entries[RunLength(entries, 16)..];
      assert forall i | 0 <= i < |rest| :: rest[i] == entries[RunLength(entries, 16) + i];
      OneSegment(rest, upper);
    }
  }

  lemma LandsThere(a: nat)
    requires a < 0x10000
    ensures Landing(a) == a && a / 0x10000 == 0
  {
    assert a / 0x10000 == 0 && Exchanged(0) == 0;
    SmallKey(a);
  }

  lemma SmallKey(a: nat)
    requires a < 0x10000
    ensures Key(a) == a && a % 0x10000 == a
  {
  }

  lemma Below64K(entries: Entries)
    requires Sorted(entries) && forall i | 0 <= i < |entries| :: entries[i].0 < 0x10000
    ensures Clean(entries) && MovedMap(entries) == MapOf(entries)
  {
    forall i | 0 <= i < |entries| ensures Landing(entries[i].0) == entries[i].0 && entries[i].0 / 0x10000 == 0 {
      LandsThere(entries[i].0);
    }
    OneSegment(entries, 0);
    NotMoved(entries);
  }

  /** Every content below 64 KiB, which is all of the device's flash, comes back as it was, without errors or
      warnings. */
  lemma RoundTrip(content: map<nat, nat>, startSegment: Option<Registers>)
    requires forall a | a in content :: a < 0x10000 && content[a] < 256
    requires startSegment.Some? ==> startSegment.value.cs < 0x10000 && startSegment.value.ip < 0x10000
    ensures Writable(SortedEntries(content), startSegment, None)
    ensures var r := DecodeFrom(Fresh(), WrittenText(SortedEntries(content), startSegment, None), 0);
            && r.content == content && r.startSegment == startSegment && r.foundEof
            && r.errors == 0 && r.warnings == 0 && !r.undefined
  {
    SortedEntriesAre(content);
    var entries := SortedEntries(content);
    Below64K(entries);
    FileDecodes(entries, startSegment, None);
  }

  lemma SegmentMoves(entries: Entries, upper: nat)
    requires Sorted(entries) && entries != [] && upper < 0x10000 && InSegment(entries, upper)
    ensures MovedMap(entries) == MapOf(entries) <==> upper / 0x100 == upper % 0x100 < 0x80
  {
    if upper / 0x100 == upper % 0x100 < 0x80 {
      NotMoved(entries);
    } else {
      var last := entries[|entries| - 1].0;
      assert last in MapOf(entries);
      NotAmongMoved(entries, upper, last);
    }
  }

  lemma NotAmongMoved(entries: Entries, upper: nat, key: nat)
    requires Sorted(entries) && upper < 0x10000 && InSegment(entries, upper)
    requires key / 0x10000 == upper && !(upper / 0x100 == upper % 0x100 < 0x80)
    ensures key !in MovedMap(entries)
  {
    forall i | 0 <= i < |entries| ensures Landing(entries[i].0) != key {
      LandsElsewhere(entries[i].0, upper, key);
    }
    if key in MovedMap(entries) {
      MovedMapKeys(entries, key);
    }
  }

  lemma LandsElsewhere(a: nat, upper: nat, key: nat)
    requires a < 0x1_0000_0000 && a / 0x10000 == key / 0x10000 == upper && !(upper / 0x100 == upper % 0x100 < 0x80)
    ensures Landing(a) != key
  {
    assert Moved(a) / 0x10000 == Exchanged(upper);
    assert Exchanged(upper) == upper ==> upper >= 0x8000;
  }

  /** A content within one 64 KiB segment comes back as it was exactly if the two upper bytes of its addresses
      are equal and below 0x80. */
  lemma SegmentRoundTrip(entries: Entries, upper: nat)
    requires Sorted(entries) && entries != [] && upper < 0x10000 && InSegment(entries, upper)
    ensures DecodeFrom(Fresh(), WrittenText(entries, None, None), 0).content == MapOf(entries)
            <==> upper / 0x100 == upper % 0x100 < 0x80
  {
    OneSegment(entries, upper);
    SegmentMoves(entries, upper);
    FileDecodes(entries, None, None);
  }

  /** One word of the text. */
  lemma WordExtends(r: Reader, word: string) returns (next: Reader)
    requires word != ""
    ensures next == if word[0] == ':' then DecodeLine(r, word[1..])
                    else DecodeLine(r.(warnings := r.warnings + 1), word)
    ensures Extends(r, next)
  {
    var start := if word[0] == ':' then r else r.(warnings := r.warnings + 1);
    var line := if word[0] == ':' then word[1..] else word;
    next := DecodeLine(start, line);
    DecodeLineExtends(start, line);
    ExtendsOn(r, start, next);
  }

  /** Whatever the text, reading it changes no address that has a byte already, no start segment address that is
      known, and takes no error or warning back. */
  lemma {:induction false} ReadingExtends(r: Reader, text: string, count: nat)
    ensures Extends(r, DecodeFrom(r, text, count))
    decreases |text|
  {
    var word, rest := ReadWord(text).0, ReadWord(text).1;
    if word != "" && (word[0] == ':' || count > 0) {
      var next := WordExtends(r, word);
      if !next.undefined {
        ReadingExtends(next, rest, count + 1);
        ExtendsOn(r, next, DecodeFrom(next, rest, count + 1));
      }
    }
  }
}

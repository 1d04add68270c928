/** When a written HEX file comes back as it was: where each byte of the content lands, and that no exchange of
    addresses can make up for a record that crosses a segment boundary. */
module HexPlaces {
  import opened IntelHex
  import opened IntelHexRecords
  import opened IntelHexTheorems

  /** The entry that begins the record of entry i. */
  function Head(entries: Entries, i: nat): (h: nat)
    requires i < |entries|
    ensures h <= i
    decreases |entries|
  {
    var n := RunLength(entries, 16);
    if i < n then 0 else n + Head(entries[n..], i - n)
  }

  /** A record holds the entries from its head on. */
  lemma {:induction false} SameRecord(entries: Entries, e: nat, q: nat)
    requires e < |entries| && Head(entries, e) <= q <= e
    ensures Head(entries, q) == Head(entries, e)
    decreases |entries|
  {
    var n := RunLength(entries, 16);
    if e >= n { SameRecord(entries[n..], e - n, q - n); }
  }

  /** The keys of n bytes from `base` on. */
  function KeysFrom(base: nat, n: nat): (k: seq<nat>)
    ensures |k| == n
    decreases n
  {
    if n == 0 then [] else [Key(base)] + KeysFrom(base + 1, n - 1)
  }

  lemma {:induction false} KeysFromAt(base: nat, n: nat, d: nat)
    requires d < n
    ensures KeysFrom(base, n)[d] == Key(base + d)
    decreases n
  {
    if d > 0 {
      KeysFromAt(base + 1, n - 1, d - 1);
      assert base + 1 + (d - 1) == base + d;
    }
  }

  /** Where the entries of a record that begins at `first` are found after reading. */
  function RecordPlaces(first: nat, n: nat): (p: seq<nat>)
    requires first < 0x1_0000_0000
    ensures |p| == n
  {
    KeysFrom(Moved(first), n)
  }

  /** Where all entries are found. */
  function Places(entries: Entries): (p: seq<nat>)
    requires Sorted(entries)
    ensures |p| == |entries|
    decreases |entries|
  {
    if entries == [] then []
    else
      var n := RunLength(entries, 16);
      SortedParts(entries, n);
      RecordPlaces(entries[0].0, n) + Places(entries[n..])
  }

  lemma PlacesSplit(entries: Entries) returns (rest: Entries)
    requires Sorted(entries) && entries != []
    ensures rest == entries[RunLength(entries, 16)..] && Sorted(rest)
    ensures Places(entries) == RecordPlaces(entries[0].0, RunLength(entries, 16)) + Places(rest)
  {
    rest := entries[RunLength(entries, 16)..];
    SortedParts(entries, RunLength(entries, 16));
  }

  lemma Appended(p: seq<nat>, a: seq<nat>, b: seq<nat>, n: nat, i: nat)
    requires p == a + b && |a| == n && i < |p|
    ensures p[i] == if i < n then a[i] else b[i - n]
  {
  }

  lemma HeadBehind(entries: Entries, n: nat, rest: Entries, i: nat, h: nat)
    requires i < |entries| && n == RunLength(entries, 16) <= i && rest == entries[n..] && h == Head(rest, i - n)
    ensures Head(entries, i) == n + h && entries[n + h] == rest[h] && entries[i] == rest[i - n]
  {
  }

  function Low(entries: Entries, i: nat): nat
    requires i < |entries|
  {
    entries[i].0 % 0x10000
  }

  function Segment(entries: Entries, i: nat): nat
    requires i < |entries|
  {
    entries[i].0 / 0x10000
  }

  lemma LowsFirst(entries: Entries, i: nat)
    requires Sorted(entries) && entries != [] && i < RunLength(entries, 16)
    ensures Head(entries, i) == 0 && entries[i].0 % 0x10000 == entries[0].0 % 0x10000 + i
  {
    LowsFollow(entries, 16);
  }

  lemma PlacesFirst(entries: Entries, i: nat) returns (n: nat, first: nat)
    requires Sorted(entries) && entries != [] && i < RunLength(entries, 16)
    ensures n == RunLength(entries, 16) && first == entries[0].0 && first < 0x1_0000_0000
    ensures Places(entries)[i] == RecordPlaces(first, n)[i]
  {
    var rest := PlacesSplit(entries);
    n, first := RunLength(entries, 16), entries[0].0;
    Appended(Places(entries), RecordPlaces(first, n), Places(rest), n, i);
  }

  lemma PlacesBehind(entries: Entries, i: nat) returns (n: nat, rest: Entries)
    requires Sorted(entries) && i < |entries| && RunLength(entries, 16) <= i
    ensures n == RunLength(entries, 16) && rest == entries[n..] && Sorted(rest)
    ensures Places(entries)[i] == Places(rest)[i - n]
  {
    rest := PlacesSplit(entries);
    n := RunLength(entries, 16);
    Appended(Places(entries), RecordPlaces(entries[0].0, n), Places(rest), n, i);
  }

  lemma RecordBehind(entries: Entries, i: nat) returns (n: nat, rest: Entries, j: nat, h: nat)
    requires Sorted(entries) && i < |entries| && RunLength(entries, 16) <= i
    ensures |rest| < |entries| && Sorted(rest) && j < |rest| && i == n + j && h == Head(rest, j)
    ensures Head(entries, i) == n + h && entries[n + h] == rest[h] && entries[i] == rest[j]
    ensures Places(entries)[i] == Places(rest)[j]
  {
    n, rest := PlacesBehind(entries, i);
    j := i - n;
    h := Head(rest, j);
    HeadBehind(entries, n, rest, i, h);
  }

  /** The record of entry i: the entries from its head on, with entry i at d. */
  lemma {:induction false} RecordOf(entries: Entries, i: nat) returns (group: Entries, d: nat)
    requires Sorted(entries) && i < |entries|
    ensures Head(entries, i) + d == i
    ensures Sorted(group) && group != [] && d < RunLength(group, 16)
    ensures group[0] == entries[Head(entries, i)] && group[d] == entries[i] && Places(group)[d] == Places(entries)[i]
    decreases |entries|
  {
    if i < RunLength(entries, 16) {
      group, d := entries, i;
    } else {
      var n, rest, j, h := RecordBehind(entries, i);
      group, d := RecordOf(rest, j);
    }
  }

  lemma LowsInRecord(entries: Entries, i: nat)
    requires Sorted(entries) && i < |entries|
    ensures Low(entries, i) == Low(entries, Head(entries, i)) + (i - Head(entries, i))
  {
    var group, d := RecordOf(entries, i);
    LowsFirst(group, d);
  }

  /** An entry has its own lower half, and the exchanged segment of its record's head. */
  lemma PlaceParts(entries: Entries, i: nat, key: nat)
    requires Sorted(entries) && i < |entries| && key < 0x1_0000_0000 && key == Places(entries)[i]
    ensures key / 0x10000 == Exchanged(Segment(entries, Head(entries, i))) && key % 0x10000 == Low(entries, i)
    ensures Segment(entries, Head(entries, i)) == Exchanged(key / 0x10000)
  {
    var group, d := RecordOf(entries, i);
    LowsFirst(group, d);
    var n, first := PlacesFirst(group, d);
    KeyParts(first, n, d, Low(entries, i), key);
  }

  lemma KeyParts(first: nat, n: nat, d: nat, low: nat, key: nat)
    requires first < 0x1_0000_0000 && d < n && key == RecordPlaces(first, n)[d] && key < 0x1_0000_0000
    requires low == first % 0x10000 + d && low < 0x10000
    ensures key / 0x10000 == Exchanged(first / 0x10000) && key % 0x10000 == low
    ensures first / 0x10000 == Exchanged(key / 0x10000)
  {
    KeysFromAt(Moved(first), n, d);
    MovedParts(first, d, low);
    KeyPlain(Moved(first) + d, key);
    ExchangedTwice(first / 0x10000);
  }

  lemma KeyPlain(n: nat, key: nat)
    requires key == Key(n) && n < 0x1_0000_0000 && key < 0x1_0000_0000
    ensures key == n
  {
  }

  lemma MovedParts(first: nat, d: nat, low: nat)
    requires first < 0x1_0000_0000 && low == first % 0x10000 + d && low < 0x10000
    ensures Moved(first) + d < 0x1_0000_0000
    ensures (Moved(first) + d) / 0x10000 == Exchanged(first / 0x10000) && (Moved(first) + d) % 0x10000 == low
  {
    Divided16(Exchanged(first / 0x10000), low);
  }

  // ---------- the keys of a decoded file ----------

  function SetOf(s: seq<nat>): set<nat> {
    set k | k in s
  }

  lemma SetOfAppend(a: seq<nat>, b: seq<nat>)
    ensures SetOf(a + b) == SetOf(a) + SetOf(b)
  {
  }

  lemma Extended(keys: set<nat>, a: seq<nat>, more: set<nat>, b: seq<nat>, all: set<nat>)
    requires more == keys + SetOf(a) && all == more + SetOf(b)
    ensures all == keys + SetOf(a + b)
  {
    SetOfAppend(a, b);
  }

  lemma InsertOne(r: Reader, byte: nat)
    ensures Insert(r, byte).content.Keys == r.content.Keys + SetOf([Key(r.base)])
    ensures Insert(r, byte).base == r.base + 1
  {
  }

  lemma {:induction false} InsertedKeySet(r: Reader, bytes: seq<nat>)
    ensures InsertAll(r, bytes).content.Keys == r.content.Keys + SetOf(KeysFrom(r.base, |bytes|))
    decreases |bytes|
  {
    if bytes != [] {
      var s := Insert(r, bytes[0]);
      InsertOne(r, bytes[0]);
      InsertedKeySet(s, bytes[1..]);
      Extended(r.content.Keys, [Key(r.base)], s.content.Keys, KeysFrom(s.base, |bytes| - 1),
               InsertAll(s, bytes[1..]).content.Keys);
    }
  }

  lemma GroupKeySet(r: Reader, entries: Entries, upper: nat)
    requires Sorted(entries) && entries != [] && upper < 0x10000 && Ready(r, entries, upper)
    ensures AfterGroup(r, entries, upper).content.Keys
            == r.content.Keys + SetOf(RecordPlaces(entries[0].0, RunLength(entries, 16)))
  {
    AfterGroupInserts(r, entries, upper);
    InsertedKeySet(r.(base := Moved(entries[0].0)), Values(entries[..RunLength(entries, 16)]));
  }

  /** After every record the decoder is ready for the next one. */
  lemma ReadyAfter(r: Reader, entries: Entries, upper: nat)
    requires Sorted(entries) && entries != [] && upper < 0x10000 && Ready(r, entries, upper)
    ensures var n := RunLength(entries, 16);
            Sorted(entries[n..]) && Ready(AfterGroup(r, entries, upper), entries[n..], entries[0].0 / 0x10000)
  {
    var n := RunLength(entries, 16);
    SortedParts(entries, n);
    AfterGroupBase(r, entries, upper);
    if CleanGroup(entries) {
      ReadyNext(AfterGroup(r, entries, upper), entries);
    } else if n < |entries| {
      Above(entries[0].0, entries[n - 1].0, entries[n].0);
    }
  }

  lemma Above(a: nat, b: nat, c: nat)
    requires a <= b < c && a / 0x10000 != b / 0x10000
    ensures c / 0x10000 != a / 0x10000
  {
  }

  /** The records behind the first one. */
  lemma BodyRest(r: Reader, entries: Entries, upper: nat, rest: Entries) returns (s: Reader, next: nat)
    requires Sorted(entries) && entries != [] && upper < 0x10000 && Ready(r, entries, upper)
    requires rest == entries[RunLength(entries, 16)..] && Sorted(rest)
    ensures next < 0x10000 && Ready(s, rest, next) && AreWords(Body(entries, upper)) && AreWords(Body(rest, next))
    ensures s.content.Keys == r.content.Keys + SetOf(RecordPlaces(entries[0].0, RunLength(entries, 16)))
    ensures DecodeAll(r, Body(entries, upper)) == DecodeAll(s, Body(rest, next))
  {
    s, next := AfterGroup(r, entries, upper), entries[0].0 / 0x10000;
    GroupKeySet(r, entries, upper);
    AfterGroupIs(r, entries, upper);
    ReadyAfter(r, entries, upper);
    BodyOnly(s, rest, next);
    BodyStep(r, s, entries, rest, upper, next);
  }

  /** The keys after reading the records are those before and the places of the entries. */
  lemma {:induction false} BodyKeySet(r: Reader, entries: Entries, upper: nat)
    requires Sorted(entries) && upper < 0x10000 && Ready(r, entries, upper)
    ensures AreWords(Body(entries, upper))
    ensures DecodeAll(r, Body(entries, upper)).content.Keys == r.content.Keys + SetOf(Places(entries))
    decreases |entries|
  {
    if entries != [] {
      var rest := PlacesSplit(entries);
      var s, next := BodyRest(r, entries, upper, rest);
      BodyKeySet(s, rest, next);
      Extended(r.content.Keys, RecordPlaces(entries[0].0, RunLength(entries, 16)), s.content.Keys, Places(rest),
               DecodeAll(s, Body(rest, next)).content.Keys);
    }
  }

  /** What a new object holds after reading the content's records. */
  ghost function Decoded(entries: Entries): map<nat, nat>
    requires Sorted(entries)
  {
    ContentIs(entries);
    DecodeAll(Fresh(), ContentLines(entries)).content
  }

  lemma DecodedKeys(entries: Entries)
    requires Sorted(entries) && entries != []
    ensures Decoded(entries).Keys == SetOf(Places(entries))
  {
    var upper := entries[0].0 / 0x10000;
    var r := Fresh().(base := 0x10000 * Exchanged(upper));
    OneLinear(Fresh(), upper);
    ReadyAtStart(r, entries, upper);
    BodyKeySet(r, entries, upper);
    DecodeAllAppend(Fresh(), [LinearRecord(upper)], Body(entries, upper));
  }

  // ---------- a record that crosses a boundary ----------

  /** The first entry of some record that is in another segment than the record. */
  lemma {:induction false} SeamEntry(entries: Entries) returns (i: nat)
    requires !Clean(entries)
    ensures 0 < i < |entries| && Head(entries, i) < i
    ensures Segment(entries, i - 1) == Segment(entries, Head(entries, i)) != Segment(entries, i)
    decreases |entries|
  {
    var n := RunLength(entries, 16);
    if CleanGroup(entries) {
      var rest := entries[n..];
      i := SeamEntry(rest);
      HeadBehind(entries, n, rest, n + i, Head(rest, i));
      HeadBehind(entries, n, rest, n + i - 1, Head(rest, i - 1));
      i := n + i;
    } else {
      i := FirstSeam(entries, n);
    }
  }

  lemma {:induction false} InMapOf(entries: Entries, key: nat) returns (p: nat)
    requires key in MapOf(entries)
    ensures p < |entries| && entries[p].0 == key
    decreases |entries|
  {
    var n := |entries| - 1;
    if entries[n].0 == key {
      p := n;
    } else {
      p := InMapOf(entries[..n], key);
    }
  }

  lemma {:induction false} MapOfHas(entries: Entries, p: nat)
    requires p < |entries|
    ensures entries[p].0 in MapOf(entries)
    decreases |entries|
  {
    var n := |entries| - 1;
    if p < n { MapOfHas(entries[..n], p); }
  }

  /** The addresses of the entries are the places where they are found. */
  ghost predicate Permuted(entries: Entries)
    requires Sorted(entries)
  {
    SetOf(Places(entries)) == MapOf(entries).Keys
  }

  lemma Landed(entries: Entries, i: nat) returns (p: nat)
    requires Sorted(entries) && i < |entries| && Permuted(entries)
    ensures p < |entries| && Low(entries, p) == Low(entries, i)
    ensures Segment(entries, p) == Exchanged(Segment(entries, Head(entries, i)))
    ensures Exchanged(Segment(entries, p)) == Segment(entries, Head(entries, i))
  {
    var key := Places(entries)[i];
    assert key in SetOf(Places(entries));
    p := InMapOf(entries, key);
    PlaceParts(entries, i, key);
  }

  lemma Origin(entries: Entries, p: nat) returns (i: nat)
    requires Sorted(entries) && p < |entries| && Permuted(entries)
    ensures i < |entries| && Low(entries, p) == Low(entries, i)
    ensures Segment(entries, p) == Exchanged(Segment(entries, Head(entries, i)))
    ensures Exchanged(Segment(entries, p)) == Segment(entries, Head(entries, i))
  {
    MapOfHas(entries, p);
    var key := entries[p].0;
    assert key in SetOf(Places(entries));
    i :| 0 <= i < |Places(entries)| && Places(entries)[i] == key;
    PlaceParts(entries, i, key);
  }

  /** The segments, the segments with their bytes exchanged, the lower halves and the heads alone. */
  datatype Outline = Outline(segments: seq<nat>, swapped: seq<nat>, lows: seq<nat>, heads: seq<nat>)

  function OutlineOf(entries: Entries): (o: Outline)
    requires Sorted(entries)
    ensures |o.segments| == |o.swapped| == |o.lows| == |o.heads| == |entries|
  {
    Outline(seq(|entries|, i requires 0 <= i < |entries| => Segment(entries, i)),
            seq(|entries|, i requires 0 <= i < |entries| => Exchanged(Segment(entries, i))),
            seq(|entries|, i requires 0 <= i < |entries| => Low(entries, i)),
            seq(|entries|, i requires 0 <= i < |entries| => Head(entries, i)))
  }

  /** Addresses are in order, and a record goes on from its head. */
  ghost predicate Regular(o: Outline) {
    && |o.segments| == |o.swapped| == |o.lows| == |o.heads|
    && (forall p, q | 0 <= p < q < |o.lows| ::
          o.segments[p] < o.segments[q] || (o.segments[p] == o.segments[q] && o.lows[p] < o.lows[q]))
    && (forall e | 0 <= e < |o.lows| :: o.heads[e] <= e && o.lows[e] == o.lows[o.heads[e]] + (e - o.heads[e]))
    && (forall e, q | 0 <= e < |o.lows| && o.heads[e] <= q <= e :: o.heads[q] == o.heads[e])
  }

  lemma OutlineRegular(entries: Entries)
    requires Sorted(entries)
    ensures Regular(OutlineOf(entries))
  {
    var o := OutlineOf(entries);
    forall p, q | 0 <= p < q < |entries|
      ensures o.segments[p] < o.segments[q] || (o.segments[p] == o.segments[q] && o.lows[p] < o.lows[q])
    {
      Ordered(entries[p].0, entries[q].0);
    }
    forall e | 0 <= e < |entries| ensures o.heads[e] <= e && o.lows[e] == o.lows[o.heads[e]] + (e - o.heads[e]) {
      LowsInRecord(entries, e);
    }
    forall e, q | 0 <= e < |entries| && o.heads[e] <= q <= e ensures o.heads[q] == o.heads[e] {
      SameRecord(entries, e, q);
    }
  }

  lemma Ordered(a: nat, b: nat)
    requires a < b
    ensures a / 0x10000 < b / 0x10000 || (a / 0x10000 == b / 0x10000 && a % 0x10000 < b % 0x10000)
  {
  }

  /** Entry i is found at the address of entry p. */
  predicate Lands(o: Outline, i: nat, p: nat)
    requires |o.segments| == |o.swapped| == |o.lows| == |o.heads| && i < |o.lows|
  {
    && p < |o.lows| && o.heads[i] < |o.lows| && o.lows[p] == o.lows[i]
    && o.segments[p] == o.swapped[o.heads[i]] && o.swapped[p] == o.segments[o.heads[i]]
  }

  lemma LandsAt(entries: Entries, o: Outline, i: nat) returns (p: nat)
    requires Sorted(entries) && o == OutlineOf(entries) && i < |entries| && Permuted(entries)
    ensures Lands(o, i, p)
  {
    p := Landed(entries, i);
  }

  lemma LandsFrom(entries: Entries, o: Outline, p: nat) returns (i: nat)
    requires Sorted(entries) && o == OutlineOf(entries) && p < |entries| && Permuted(entries)
    ensures i < |entries| && Lands(o, i, p)
  {
    i := Origin(entries, p);
  }

  /** Behind the end of a segment nothing is in it. */
  lemma NothingBehind(o: Outline, i: nat, t: nat)
    requires Regular(o) && 0 < i < |o.lows| && t < |o.lows|
    requires o.segments[i - 1] != o.segments[i] && o.lows[i] == o.lows[i - 1] + 1
    ensures o.segments[t] != o.segments[i - 1] || o.lows[t] != o.lows[i]
  {
    if t < i - 1 {
      assert o.segments[t] < o.segments[i - 1] || o.lows[t] < o.lows[i - 1];
    } else if t > i {
      assert o.segments[i - 1] < o.segments[i] <= o.segments[t];
    }
  }

  /** Where a record has left its segment before q and goes on behind it, no record of q's segment has an entry with
      q's lower half. */
  lemma NothingBegins(o: Outline, q: nat, e: nat)
    requires Regular(o) && q + 1 < |o.lows| && e < |o.lows|
    requires o.segments[q + 1] == o.segments[q] != o.segments[o.heads[q + 1]] && o.lows[e] == o.lows[q]
    ensures o.segments[o.heads[e]] != o.segments[q]
  {
    var h := o.heads[e];
    assert o.heads[q + 1] <= q && o.heads[q] == o.heads[q + 1];
    if q < h {
      assert o.lows[h] <= o.lows[e];
      assert o.segments[q] < o.segments[h];
    } else if q <= e {
      assert o.heads[q] == h;
    } else {
      assert o.segments[e] < o.segments[q];
      assert h == e || o.segments[h] <= o.segments[e];
    }
  }

  /** The next address in the same segment belongs to the next entry. */
  lemma Neighbours(o: Outline, q: nat, p: nat)
    requires Regular(o) && q < |o.lows| && p < |o.lows|
    requires o.segments[p] == o.segments[q] && o.lows[p] == o.lows[q] + 1
    ensures p == q + 1
  {
    if q + 1 < p {
      Gap(o, q, p);
    } else if p < q {
      InOrder(o, p, q);
    }
  }

  lemma InOrder(o: Outline, p: nat, q: nat)
    requires Regular(o) && p < q < |o.lows|
    ensures o.segments[p] != o.segments[q] || o.lows[p] < o.lows[q]
  {
    assert o.segments[p] < o.segments[q] || o.lows[p] < o.lows[q];
  }

  lemma Gap(o: Outline, q: nat, p: nat)
    requires Regular(o) && q + 1 < p < |o.lows|
    ensures o.segments[p] != o.segments[q] || o.lows[p] > o.lows[q] + 1
  {
    assert o.segments[q] < o.segments[q + 1] || o.lows[q] < o.lows[q + 1];
    assert o.segments[q + 1] < o.segments[p] || o.lows[q + 1] < o.lows[p];
    assert o.segments[q] <= o.segments[q + 1] <= o.segments[p];
  }

  /** Where the two sides of a seam land, there would have to be a record that lands back where nothing is, at t, or
      one that has left its segment before q and yet goes on behind it, at e. */
  lemma NoSeam(o: Outline, i: nat, q: nat, p: nat, t: nat, e: nat)
    requires Regular(o) && 0 < i < |o.lows| && o.heads[i] < i && q < |o.lows| && p < |o.lows| && e < |o.lows|
    requires o.segments[i - 1] == o.segments[o.heads[i]]
    requires Lands(o, i - 1, q) && Lands(o, i, p) && Lands(o, p, t) && Lands(o, e, i - 1)
    requires o.segments[o.heads[p]] == o.segments[q] ==> o.swapped[o.heads[p]] == o.swapped[q]
    requires o.swapped[o.heads[i]] == o.swapped[i - 1]
    ensures o.segments[i] == o.segments[i - 1]
  {
    assert o.heads[i - 1] == o.heads[i] && o.lows[i] == o.lows[i - 1] + 1;
    Neighbours(o, q, p);
    if o.segments[i] != o.segments[i - 1] {
      NothingBehind(o, i, t);
      NothingBegins(o, q, e);
    }
  }

  lemma SeamOutline(entries: Entries) returns (o: Outline, i: nat)
    requires Sorted(entries) && !Clean(entries)
    ensures o == OutlineOf(entries) && 0 < i < |o.lows| && o.heads[i] < i
    ensures o.segments[i - 1] == o.segments[o.heads[i]] != o.segments[i]
  {
    o := OutlineOf(entries);
    i := SeamEntry(entries);
  }

  lemma SwappedAlike(entries: Entries, o: Outline, a: nat, b: nat)
    requires Sorted(entries) && o == OutlineOf(entries) && a < |entries| && b < |entries|
    ensures o.segments[a] == o.segments[b] ==> o.swapped[a] == o.swapped[b]
  {
  }

  lemma SeamLands(entries: Entries, o: Outline, i: nat) returns (q: nat, p: nat, t: nat, e: nat)
    requires Sorted(entries) && o == OutlineOf(entries) && 0 < i < |entries| && Permuted(entries)
    ensures q < |entries| && p < |entries| && e < |entries|
    ensures Lands(o, i - 1, q) && Lands(o, i, p) && Lands(o, p, t) && Lands(o, e, i - 1)
  {
    q := LandsAt(entries, o, i - 1);
    p := LandsAt(entries, o, i);
    t := LandsAt(entries, o, p);
    e := LandsFrom(entries, o, i - 1);
  }

  /** No exchange makes up for a record that crosses a boundary. */
  lemma UncleanDiffers(entries: Entries)
    requires Sorted(entries) && !Clean(entries)
    ensures Decoded(entries) != MapOf(entries)
  {
    var o, i := SeamOutline(entries);
    OutlineRegular(entries);
    if Decoded(entries) == MapOf(entries) {
      DecodedKeys(entries);
      var q, p, t, e := SeamLands(entries, o, i);
      SwappedAlike(entries, o, o.heads[p], q);
      SwappedAlike(entries, o, o.heads[i], i - 1);
      NoSeam(o, i, q, p, t, e);
    }
  }

  // ---------- when a file comes back as it was ----------

  /** Each byte is matched by the same byte at the address where it lands. */
  predicate Closed(entries: Entries)
    requires Sorted(entries)
  {
    forall i | 0 <= i < |entries| :: (Landing(entries[i].0), entries[i].1) in entries
  }

  lemma {:induction false} MovedMapHas(entries: Entries, i: nat)
    requires Sorted(entries) && i < |entries|
    ensures Landing(entries[i].0) in MovedMap(entries) && MovedMap(entries)[Landing(entries[i].0)] == entries[i].1
    decreases |entries|
  {
    var n := |entries| - 1;
    SortedParts(entries, n);
    if i < n {
      MovedMapHas(entries[..n], i);
      if Landing(entries[i].0) == Landing(entries[n].0) { LandingInjective(entries[i].0, entries[n].0); }
    }
  }

  lemma {:induction false} MapOfIs(entries: Entries, i: nat)
    requires Sorted(entries) && i < |entries|
    ensures entries[i].0 in MapOf(entries) && MapOf(entries)[entries[i].0] == entries[i].1
    decreases |entries|
  {
    var n := |entries| - 1;
    SortedParts(entries, n);
    if i < n { MapOfIs(entries[..n], i); }
  }

  /** Landing twice leads back. */
  lemma LandsBack(a: nat, b: nat)
    requires a < 0x1_0000_0000 && b < 0x1_0000_0000 && b == Landing(a)
    ensures Landing(b) == a || Landing(b) >= 0x1_0000_0000
  {
    SmallKeyIs(Moved(a), b);
    MovedBack(a);
    KeyOr(a);
  }

  lemma SmallKeyIs(n: nat, key: nat)
    requires n < 0x1_0000_0000 && key == Key(n) && key < 0x1_0000_0000
    ensures key == n
  {
  }

  lemma KeyOr(n: nat)
    requires n < 0x1_0000_0000
    ensures Key(n) == n || Key(n) >= 0x1_0000_0000
  {
  }

  lemma MovedBack(a: nat)
    requires a < 0x1_0000_0000
    ensures Moved(Moved(a)) == a
  {
    Divided16(Exchanged(a / 0x10000), a % 0x10000);
    ExchangedTwice(a / 0x10000);
  }

  lemma ClosedIs(entries: Entries)
    requires Sorted(entries)
    ensures MovedMap(entries) == MapOf(entries) <==> Closed(entries)
  {
    if MovedMap(entries) == MapOf(entries) {
      forall i | 0 <= i < |entries| ensures (Landing(entries[i].0), entries[i].1) in entries {
        MovedMapHas(entries, i);
        var p := InMapOf(entries, Landing(entries[i].0));
        MapOfIs(entries, p);
        assert entries[p] == (Landing(entries[i].0), entries[i].1);
      }
    } else if Closed(entries) {
      ClosedMaps(entries);
    }
  }

  lemma ClosedMaps(entries: Entries)
    requires Sorted(entries) && Closed(entries)
    ensures MovedMap(entries) == MapOf(entries)
  {
    forall key | key in MovedMap(entries)
      ensures key in MapOf(entries) && MapOf(entries)[key] == MovedMap(entries)[key]
    {
      ClosedInto(entries, key);
    }
    forall key | key in MapOf(entries) ensures key in MovedMap(entries) {
      ClosedOnto(entries, key);
    }
  }

  lemma ClosedInto(entries: Entries, key: nat)
    requires Sorted(entries) && Closed(entries) && key in MovedMap(entries)
    ensures key in MapOf(entries) && MapOf(entries)[key] == MovedMap(entries)[key]
  {
    MovedMapKeys(entries, key);
    var i :| 0 <= i < |entries| && Landing(entries[i].0) == key;
    MovedMapHas(entries, i);
    var p := Matched(entries, i);
    MapOfIs(entries, p);
  }

  lemma ClosedOnto(entries: Entries, key: nat)
    requires Sorted(entries) && Closed(entries) && key in MapOf(entries)
    ensures key in MovedMap(entries)
  {
    var p := InMapOf(entries, key);
    var q := Matched(entries, p);
    var t := Matched(entries, q);
    LandsBack(entries[p].0, entries[q].0);
    MovedMapHas(entries, q);
  }

  lemma Matched(entries: Entries, i: nat) returns (p: nat)
    requires Sorted(entries) && Closed(entries) && i < |entries|
    ensures p < |entries| && entries[p] == (Landing(entries[i].0), entries[i].1)
  {
    p :| p < |entries| && entries[p] == (Landing(entries[i].0), entries[i].1);
  }

  /** For every content: the file comes back as it was exactly if no record crosses a segment boundary and every byte
      is matched by the same byte at the address with the upper bytes exchanged. */
  lemma ExactRoundTrip(entries: Entries)
    requires Sorted(entries)
    ensures DecodeFrom(Fresh(), WrittenText(entries, None, None), 0).content == MapOf(entries)
            <==> Clean(entries) && Closed(entries)
  {
    FileDecodes(entries, None, None);
    ContentIs(entries);
    RestDecodes(entries, None, None, DecodeAll(Fresh(), ContentLines(entries)));
    ClosedIs(entries);
    if !Clean(entries) { UncleanDiffers(entries); }
  }
}

/** Intel HEX files: what library/intelhexclass.cpp writes and what it reads. Addresses and bytes are
    numbers. IntelHexFile.dfy has the class. */
module IntelHex {
  import opened Keys
  import opened Streams
  import NumberText

  // ---------- bytes as text ----------

  function HexChar(d: nat): (c: char)
    requires d < 16
    ensures !IsSpace(c)
  {
    if d < 10 then '0' + d as char else 'A' + (d - 10) as char
  }

  lemma DigitRoundTrip(d: nat)
    requires d < 16
    ensures NumberText.DigitOf(HexChar(d), 16) == d
  {
  }

  /** ucToHexString */
  function UcToHexString(value: nat): (s: string)
    requires value < 256
    ensures |s| == 2
  {
    [HexChar(value / 16), HexChar(value % 16)]
  }

  /** stringToHex for two characters: a bad digit makes what was read before it 0. */
  function StringToHex(high: char, low: char): (value: nat)
    ensures value < 256
  {
    var h := NumberText.DigitOf(high, 16);
    var l := NumberText.DigitOf(low, 16);
    if l < 0 then 0 else (if h < 0 then 0 else 16 * h) + l
  }

  /** The errors it adds. */
  function BadDigits(high: char, low: char): nat {
    (if NumberText.DigitOf(high, 16) < 0 then 1 else 0) + if NumberText.DigitOf(low, 16) < 0 then 1 else 0
  }

  /** A good pair of digits is its value and no error. Each bad digit is an error; a bad second digit makes the byte 0,
      and a bad first one leaves the value of the second. */
  lemma PairOfDigits(high: char, low: char)
    ensures var h, l := NumberText.DigitOf(high, 16), NumberText.DigitOf(low, 16);
            && (h >= 0 && l >= 0 ==> StringToHex(high, low) == 16 * h + l && BadDigits(high, low) == 0)
            && (h < 0 && l >= 0 ==> StringToHex(high, low) == l && BadDigits(high, low) == 1)
            && (l < 0 ==> StringToHex(high, low) == 0 && BadDigits(high, low) == if h < 0 then 2 else 1)
  {
  }

  function HexText(bytes: seq<nat>): (s: string)
    requires AreBytes(bytes)
    ensures |s| == 2 * |bytes|
  {
    if bytes == [] then "" else HexText(bytes[..|bytes| - 1]) + UcToHexString(bytes[|bytes| - 1])
  }

  predicate AreBytes(bytes: seq<nat>) {
    forall i | 0 <= i < |bytes| :: bytes[i] < 256
  }

  /** Byte number k of a line. */
  function ByteAt(s: string, k: nat): nat
    requires 2 * k + 1 < |s|
  {
    StringToHex(s[2 * k], s[2 * k + 1])
  }

  /** Two bytes of a line, the high one first. */
  function PairAt(s: string, k: nat): (n: nat)
    requires 2 * k + 3 < |s|
    ensures n < 0x10000
  {
    0x100 * ByteAt(s, k) + ByteAt(s, k + 1)
  }

  /** The errors of reading n bytes from byte number `from` on. */
  function Bad(s: string, from: nat, n: nat): nat
    requires 2 * (from + n) <= |s|
    decreases n
  {
    if n == 0 then 0 else Bad(s, from, n - 1) + BadAt(s, from + n - 1)
  }

  function BadAt(s: string, k: nat): nat
    requires 2 * k + 1 < |s|
  {
    BadDigits(s[2 * k], s[2 * k + 1])
  }

  /** The checksum of the first k bytes, in 8 bits. */
  function Checksum(s: string, k: nat): nat
    requires 2 * k <= |s|
  {
    if k == 0 then 0 else (Checksum(s, k - 1) + ByteAt(s, k - 1)) % 256
  }

  function Data(s: string, from: nat, length: nat): (d: seq<nat>)
    requires 2 * (from + length) <= |s|
    ensures |d| == length
  {
    if length == 0 then [] else Data(s, from, length - 1) + [ByteAt(s, from + length - 1)]
  }

  // ---------- reading ----------

  datatype Option<T> = None | Some(value: T)

  datatype Registers = Registers(cs: nat, ip: nat)

  /** What an intelhex object holds. `undefined` says that the source read past the end of a line. */
  datatype Reader = Reader(
    content: map<nat, nat>, base: nat, foundEof: bool, startSegment: Option<Registers>,
    eip: nat, linearExists: bool, warnings: nat, errors: nat, undefined: bool)

  function Fresh(): Reader {
    Reader(map[], 0, false, None, 0, false, 0, 0, false)
  }

  function Errors(r: Reader, n: nat): Reader {
    r.(errors := r.errors + n)
  }

  /** An address on its way into the map passes through a 32-bit signed integer. */
  function Key(address: nat): nat {
    var low := address % 0x1_0000_0000;
    if low < 0x8000_0000 then low else low + 0xFFFF_FFFF_0000_0000
  }

  /** One byte of decodeDataRecord: what is there is never overwritten. */
  function Insert(r: Reader, byte: nat): Reader {
    var key := Key(r.base);
    if key !in r.content then r.(content := r.content[key := byte], base := r.base + 1)
    else if r.content[key] == byte then r.(warnings := r.warnings + 1, base := r.base + 1)
    else r.(errors := r.errors + 1, base := r.base + 1)
  }

  function InsertAll(r: Reader, bytes: seq<nat>): Reader
    decreases |bytes|
  {
    if bytes == [] then r else InsertAll(Insert(r, bytes[0]), bytes[1..])
  }

  /** The low half of an address replaced by an offset. */
  function Rebased(base: nat, loadOffset: nat): nat {
    base - base % 0x10000 + loadOffset
  }

  /** decodeDataRecord */
  function DecodeData(r: Reader, loadOffset: nat, bytes: seq<nat>): Reader {
    InsertAll(r.(base := Rebased(r.base, loadOffset)), bytes)
  }

  /** A record whose checksum is right. */
  function DecodeRecord(r: Reader, s: string): Reader {
    if |s| < 8 then r.(undefined := true)
    else DecodeKind(Errors(r, Bad(s, 0, 4)), s, ByteAt(s, 0), PairAt(s, 1), ByteAt(s, 3))
  }

  /** The switch on the record type. */
  function DecodeKind(h: Reader, s: string, length: nat, offset: nat, kind: nat): Reader
    requires |s| >= 8
  {
    var complete := 2 * (4 + length) <= |s|;
    if kind == 0 then
      if complete then DecodeData(Errors(h, Bad(s, 4, length)), offset, Data(s, 4, length)) else h.(undefined := true)
    else if kind == 1 then
      if h.foundEof then Errors(h, 1) else h.(foundEof := true)
    else if kind == 2 || kind == 4 then DecodeExtended(h, s, length, kind)
    else if kind == 3 then DecodeStartSegment(h, s, length, complete)
    else if kind == 5 then DecodeStartLinear(h, s, length, complete)
    else Errors(h, 1)
  }

  /** An extended segment or linear address. */
  function DecodeExtended(h: Reader, s: string, length: nat, kind: nat): Reader {
    if length != 2 then Errors(h, 1)
    else if |s| < 12 then h.(undefined := true)
    else
      var read := Errors(h, Bad(s, 4, 2));
      read.(base := if kind == 2 then 0x10 * PairAt(s, 4) else 0x10000 * PairAt(s, 4))
  }

  function DecodeStartSegment(h: Reader, s: string, length: nat, complete: bool): Reader
    requires |s| >= 8 && (complete ==> 2 * (4 + length) <= |s|)
  {
    var known := h.startSegment.Some?;
    if length == 4 && !known && !complete then h.(undefined := true)
    else
      var result :=
        if length == 4 && !known then
          var read := Errors(h, Bad(s, 4, 4));
          read.(startSegment := Some(Registers(PairAt(s, 4), PairAt(s, 6))))
        else if known then Errors(h, 1)
        else h;
      Errors(result, (if h.linearExists then 1 else 0) + if length != 4 then 1 else 0)
  }

  /** The record is read but never marked as found. */
  function DecodeStartLinear(h: Reader, s: string, length: nat, complete: bool): Reader
    requires |s| >= 8 && (complete ==> 2 * (4 + length) <= |s|)
  {
    if length == 4 && !h.linearExists && !complete then h.(undefined := true)
    else
      var result :=
        if length == 4 && !h.linearExists then
          var read := Errors(h, Bad(s, 4, 4));
          read.(eip := 0x10000 * PairAt(s, 4) + PairAt(s, 6))
        else if h.linearExists then Errors(h, 1)
        else h;
      Errors(result, (if h.startSegment.Some? then 1 else 0) + if length != 4 then 1 else 0)
  }

  /** The body of operator>>'s loop for a line with its record mark removed. */
  function DecodeLine(r: Reader, s: string): Reader {
    var n := |s| / 2;
    var checked := Errors(r, Bad(s, 0, n) + |s| % 2);
    if Checksum(s, n) != 0 then Errors(checked, 1) else DecodeRecord(checked, s)
  }

  /** The loop of operator>>, with `count` lines read. */
  function DecodeFrom(r: Reader, text: string, count: nat): Reader
    decreases |text|
  {
    var read := ReadWord(text);
    var word, rest := read.0, read.1;
    if word == "" then r
    else if word[0] == ':' then
      var next := DecodeLine(r, word[1..]);
      if next.undefined then next else DecodeFrom(next, rest, count + 1)
    else
      var warned := r.(warnings := r.warnings + 1);
      if count == 0 then Errors(warned, 1)
      else
        var next := DecodeLine(warned, word);
        if next.undefined then next else DecodeFrom(next, rest, count + 1)
  }

  // ---------- writing ----------

  function Sum(bytes: seq<nat>): nat {
    if bytes == [] then 0 else Sum(bytes[..|bytes| - 1]) + bytes[|bytes| - 1]
  }

  /** The byte that makes the sum of a record 0. */
  function Complement(bytes: seq<nat>): (c: nat)
    ensures c < 256 && (Sum(bytes) + c) % 256 == 0
  {
    (256 - Sum(bytes) % 256) % 256
  }

  function WithChecksum(bytes: seq<nat>): (all: seq<nat>)
    requires AreBytes(bytes)
    ensures AreBytes(all) && |all| == |bytes| + 1
  {
    bytes + [Complement(bytes)]
  }

  /** A record: the mark, the bytes and the checksum. */
  function Record(bytes: seq<nat>): (s: string)
    requires AreBytes(bytes)
  {
    ":" + HexText(WithChecksum(bytes))
  }

  /** The content in the order of its addresses. */
  type Entries = seq<(nat, nat)>

  predicate Sorted(entries: Entries) {
    && (forall i, j | 0 <= i < j < |entries| :: entries[i].0 < entries[j].0)
    && (forall i | 0 <= i < |entries| :: entries[i].0 < 0x1_0000_0000 && entries[i].1 < 256)
  }

  /** The upper half of an address, written low byte first. */
  function LinearRecord(upper: nat): string
    requires upper < 0x10000
  {
    Record([2, 0, 0, 4, upper % 256, upper / 256])
  }

  function DataBytes(offset: nat, data: seq<nat>): (b: seq<nat>)
    requires offset < 0x10000 && 1 <= |data| <= 16 && AreBytes(data)
    ensures AreBytes(b)
  {
    [|data|, offset / 256, offset % 256, 0] + data
  }

  /** How many of the first `max` entries go into one data record. Only the lower halves of their addresses
      are compared. */
  function RunLength(entries: Entries, max: nat): (n: nat)
    requires entries != [] && max >= 1
    ensures 1 <= n <= |entries| && n <= max
    decreases max
  {
    if |entries| == 1 || max == 1 || entries[1].0 % 0x10000 != entries[0].0 % 0x10000 + 1 then 1
    else 1 + RunLength(entries[1..], max - 1)
  }

  function Values(entries: Entries): (v: seq<nat>)
    ensures |v| == |entries|
    ensures Sorted(entries) ==> AreBytes(v)
  {
    seq(|entries|, i requires 0 <= i < |entries| => entries[i].1)
  }

  /** The linear record that is written when the upper half changes. */
  function LinearLines(next: nat, upper: nat): seq<string>
    requires next < 0x10000
  {
    if next != upper then [LinearRecord(next)] else []
  }

  /** One turn of operator<<'s loop: a data record, with the linear record before it if there is one. */
  function Group(entries: Entries, upper: nat): seq<string>
    requires Sorted(entries) && entries != []
  {
    var address := entries[0].0;
    var n := RunLength(entries, 16);
    SortedParts(entries, n);
    LinearLines(address / 0x10000, upper) + [Record(DataBytes(address % 0x10000, Values(entries[..n])))]
  }

  /** The records of operator<<'s loop when the upper half of the last linear record is `upper`. */
  function Body(entries: Entries, upper: nat): seq<string>
    requires Sorted(entries)
    decreases |entries|
  {
    if entries == [] then []
    else
      var n := RunLength(entries, 16);
      SortedParts(entries, n);
      Group(entries, upper) + Body(entries[n..], entries[0].0 / 0x10000)
  }

  lemma SortedParts(entries: Entries, n: nat)
    requires Sorted(entries) && n <= |entries|
    ensures Sorted(entries[..n]) && Sorted(entries[n..])
  {
  }

  function ContentLines(entries: Entries): seq<string>
    requires Sorted(entries)
  {
    if entries == [] then []
    else [LinearRecord(entries[0].0 / 0x10000)] + Body(entries, entries[0].0 / 0x10000)
  }

  function StartSegmentBytes(r: Registers): (b: seq<nat>)
    requires r.cs < 0x10000 && r.ip < 0x10000
    ensures AreBytes(b)
  {
    [4, 0, 0, 3, r.cs / 256, r.cs % 256, r.ip / 256, r.ip % 256]
  }

  function StartSegmentLines(start: Option<Registers>): seq<string>
    requires start.Some? ==> start.value.cs < 0x10000 && start.value.ip < 0x10000
  {
    if start.None? then [] else [Record(StartSegmentBytes(start.value))]
  }

  function StartLinearBytes(eip: nat): (b: seq<nat>)
    requires eip < 0x1_0000_0000
    ensures AreBytes(b)
  {
    [4, 0, 0, 5, eip / 0x100_0000, eip / 0x1_0000 % 256, eip / 256 % 256, eip % 256]
  }

  function StartLinearLines(start: Option<nat>): seq<string>
    requires start.Some? ==> start.value < 0x1_0000_0000
  {
    if start.None? then [] else [Record(StartLinearBytes(start.value))]
  }

  /** The content of an intelhex object that can be written. */
  predicate Writable(entries: Entries, startSegment: Option<Registers>, startLinear: Option<nat>) {
    && Sorted(entries)
    && (startSegment.Some? ==> startSegment.value.cs < 0x10000 && startSegment.value.ip < 0x10000)
    && (startLinear.Some? ==> startLinear.value < 0x1_0000_0000)
  }

  /** Everything operator<< writes in linear mode. */
  function AllRecords(entries: Entries, startSegment: Option<Registers>, startLinear: Option<nat>): seq<string>
    requires Writable(entries, startSegment, startLinear)
  {
    ContentLines(entries) + StartSegmentLines(startSegment) + StartLinearLines(startLinear)
    + [Record([0, 0, 0, 1])]
  }

  function WrittenText(entries: Entries, startSegment: Option<Registers>, startLinear: Option<nat>): string
    requires Writable(entries, startSegment, startLinear)
  {
    Lines(AllRecords(entries, startSegment, startLinear))
  }

  // ---------- ordered maps ----------

  /** The elements of a map in the order of their keys. */
  function SortedEntries(m: map<nat, nat>): (entries: Entries)
    decreases m.Keys
  {
    if m.Keys == {} then []
    else
      var k := Largest(m.Keys);
      SortedEntries(m - {k}) + [(k, m[k])]
  }

  function MapOf(entries: Entries): map<nat, nat> {
    if entries == [] then map[]
    else MapOf(entries[..|entries| - 1])[entries[|entries| - 1].0 := entries[|entries| - 1].1]
  }

  predicate GoodContent(m: map<nat, nat>) {
    forall a | a in m :: a < 0x1_0000_0000 && m[a] < 256
  }

  lemma SortedLonger(entries: Entries, k: nat, v: nat)
    requires Sorted(entries) && k < 0x1_0000_0000 && v < 256
    requires forall i | 0 <= i < |entries| :: entries[i].0 < k
    ensures Sorted(entries + [(k, v)])
  {
  }

  lemma MapOfLonger(entries: Entries, k: nat, v: nat)
    ensures MapOf(entries + [(k, v)]) == MapOf(entries)[k := v]
  {
    assert (entries + [(k, v)])[..|entries|] == entries;
  }

  lemma WithoutKey(m: map<nat, nat>, k: nat)
    requires k in m
    ensures m == (m - {k})[k := m[k]]
    ensures GoodContent(m) ==> GoodContent(m - {k})
  {
  }

  lemma {:induction false} SortedEntriesAre(m: map<nat, nat>)
    requires GoodContent(m)
    ensures Sorted(SortedEntries(m)) && MapOf(SortedEntries(m)) == m
    ensures forall i | 0 <= i < |SortedEntries(m)| :: SortedEntries(m)[i].0 in m
    decreases m.Keys
  {
    if m.Keys != {} {
      var k := Largest(m.Keys);
      var rest := SortedEntries(m - {k});
      WithoutKey(m, k);
      SortedEntriesAre(m - {k});
      forall i | 0 <= i < |rest| ensures rest[i].0 < k && rest[i].0 in m {
        assert rest[i].0 in (m - {k});
        assert rest[i].0 in m.Keys;
      }
      SortedLonger(rest, k, m[k]);
      MapOfLonger(rest, k, m[k]);
    }
  }
}

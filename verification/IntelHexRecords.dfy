/** Reading back single records of an Intel HEX file. */
module IntelHexRecords {
  import opened Streams
  import opened IntelHex

  // ---------- records ----------

  lemma {:induction false} HexTextAt(bytes: seq<nat>, k: nat)
    requires AreBytes(bytes) && k < |bytes|
    ensures ByteAt(HexText(bytes), k) == bytes[k] && BadAt(HexText(bytes), k) == 0
    ensures !IsSpace(HexText(bytes)[2 * k]) && !IsSpace(HexText(bytes)[2 * k + 1])
  {
    var n := |bytes| - 1;
    var s := HexText(bytes[..n]);
    assert HexText(bytes) == s + UcToHexString(bytes[n]);
    if k == n {
      DigitRoundTrip(bytes[n] / 16);
      DigitRoundTrip(bytes[n] % 16);
    } else {
      HexTextAt(bytes[..n], k);
      assert HexText(bytes)[2 * k] == s[2 * k] && HexText(bytes)[2 * k + 1] == s[2 * k + 1];
    }
  }

  lemma HexTextNoSpaces(bytes: seq<nat>)
    requires AreBytes(bytes)
    ensures NoSpaces(HexText(bytes))
  {
    var s := HexText(bytes);
    forall i | 0 <= i < |s| ensures !IsSpace(s[i]) {
      HexTextAt(bytes, i / 2);
    }
  }

  lemma {:induction false} HexTextGood(bytes: seq<nat>, from: nat, n: nat)
    requires AreBytes(bytes) && from + n <= |bytes|
    ensures Bad(HexText(bytes), from, n) == 0
    ensures Data(HexText(bytes), from, n) == bytes[from..from + n]
  {
    if n > 0 {
      HexTextGood(bytes, from, n - 1);
      HexTextAt(bytes, from + n - 1);
    }
  }

  lemma SumNext(bytes: seq<nat>, k: nat)
    requires 1 <= k <= |bytes|
    ensures Sum(bytes[..k]) % 256 == (Sum(bytes[..k - 1]) % 256 + bytes[k - 1]) % 256
  {
    assert bytes[..k][..k - 1] == bytes[..k - 1];
  }

  lemma {:induction false} HexTextChecksum(bytes: seq<nat>, k: nat)
    requires AreBytes(bytes) && k <= |bytes|
    ensures Checksum(HexText(bytes), k) == Sum(bytes[..k]) % 256
  {
    if k > 0 {
      HexTextChecksum(bytes, k - 1);
      HexTextAt(bytes, k - 1);
      SumNext(bytes, k);
    }
  }

  lemma SumIsZero(bytes: seq<nat>)
    requires AreBytes(bytes)
    ensures Sum(WithChecksum(bytes)) % 256 == 0
  {
    assert WithChecksum(bytes)[..|bytes|] == bytes;
  }

  lemma RecordTail(bytes: seq<nat>)
    requires AreBytes(bytes)
    ensures Record(bytes)[0] == ':' && Record(bytes)[1..] == HexText(WithChecksum(bytes))
  {
  }

  /** The sum of every record is 0. */
  lemma RecordSums(bytes: seq<nat>)
    requires AreBytes(bytes)
    ensures |Record(bytes)| == 2 * |bytes| + 3 && Checksum(Record(bytes)[1..], |bytes| + 1) == 0
  {
    var all := WithChecksum(bytes);
    RecordTail(bytes);
    HexTextChecksum(all, |all|);
    SumIsZero(bytes);
    assert all[..|all|] == all;
  }

  lemma RecordIsWord(bytes: seq<nat>)
    requires AreBytes(bytes)
    ensures Record(bytes)[0] == ':' && NoSpaces(Record(bytes))
  {
    var line := Record(bytes);
    RecordTail(bytes);
    HexTextNoSpaces(WithChecksum(bytes));
    forall i | 0 <= i < |line| ensures !IsSpace(line[i]) {
      if i > 0 { assert line[i] == line[1..][i - 1]; }
    }
  }

  /** A line without bad digits and with the right checksum gets past the checks. */
  predicate Passes(s: string) {
    |s| % 2 == 0 && Bad(s, 0, |s| / 2) == 0 && Checksum(s, |s| / 2) == 0
  }

  lemma RecordPasses(bytes: seq<nat>)
    requires AreBytes(bytes)
    ensures Passes(Record(bytes)[1..])
  {
    RecordSums(bytes);
    RecordTail(bytes);
    HexTextGood(WithChecksum(bytes), 0, |bytes| + 1);
  }

  lemma PassingLine(r: Reader, s: string)
    requires Passes(s)
    ensures DecodeLine(r, s) == DecodeRecord(r, s)
  {
    assert Errors(r, 0) == r;
  }

  /** The parts that the decoder takes a record into. */
  lemma RecordParts(bytes: seq<nat>)
    requires AreBytes(bytes) && 4 <= |bytes| == 4 + bytes[0]
    ensures var s := Record(bytes)[1..];
            && |s| == 2 * |bytes| + 2 && Bad(s, 0, 4) == 0 && Bad(s, 4, bytes[0]) == 0
            && ByteAt(s, 0) == bytes[0] && PairAt(s, 1) == 0x100 * bytes[1] + bytes[2] && ByteAt(s, 3) == bytes[3]
            && Data(s, 4, bytes[0]) == bytes[4..]
  {
    var all := WithChecksum(bytes);
    RecordTail(bytes);
    HexTextGood(all, 0, 4);
    HexTextGood(all, 4, bytes[0]);
    HexTextAt(all, 0);
    HexTextAt(all, 1);
    HexTextAt(all, 2);
    HexTextAt(all, 3);
    assert all[4..4 + bytes[0]] == bytes[4..];
  }

  lemma RecordPair(bytes: seq<nat>, k: nat)
    requires AreBytes(bytes) && k + 1 < |bytes|
    ensures |Record(bytes)[1..]| == 2 * |bytes| + 2
    ensures PairAt(Record(bytes)[1..], k) == 0x100 * bytes[k] + bytes[k + 1]
  {
    var all := WithChecksum(bytes);
    RecordTail(bytes);
    HexTextAt(all, k);
    HexTextAt(all, k + 1);
  }

  lemma DataRecordDecodes(r: Reader, offset: nat, data: seq<nat>)
    requires offset < 0x10000 && 1 <= |data| <= 16 && AreBytes(data)
    ensures DecodeLine(r, Record(DataBytes(offset, data))[1..]) == DecodeData(r, offset, data)
  {
    var bytes := DataBytes(offset, data);
    RecordPasses(bytes);
    PassingLine(r, Record(bytes)[1..]);
    RecordParts(bytes);
    assert bytes[4..] == data;
    assert 0x100 * (offset / 256) + offset % 256 == offset;
  }

  /** The two bytes of a 16-bit number exchanged. */
  function Exchanged(n: nat): (e: nat)
    requires n < 0x10000
    ensures e < 0x10000
  {
    0x100 * (n % 0x100) + n / 0x100
  }

  lemma LinearRecordDecodes(r: Reader, upper: nat)
    requires upper < 0x10000
    ensures DecodeLine(r, LinearRecord(upper)[1..]) == r.(base := 0x10000 * Exchanged(upper))
  {
    var bytes := [2, 0, 0, 4, upper % 256, upper / 256];
    RecordPasses(bytes);
    PassingLine(r, Record(bytes)[1..]);
    RecordParts(bytes);
    RecordPair(bytes, 4);
  }

  lemma StartSegmentDecodes(r: Reader, registers: Registers)
    requires registers.cs < 0x10000 && registers.ip < 0x10000 && r.startSegment.None? && !r.linearExists
    ensures DecodeLine(r, Record(StartSegmentBytes(registers))[1..]) == r.(startSegment := Some(registers))
  {
    var bytes := StartSegmentBytes(registers);
    RecordPasses(bytes);
    PassingLine(r, Record(bytes)[1..]);
    RecordParts(bytes);
    RecordPair(bytes, 4);
    RecordPair(bytes, 6);
  }

  /** The address is read, but the object does not note that it has one, and complains about another start
      record. */
  lemma StartLinearDecodes(r: Reader, eip: nat)
    requires eip < 0x1_0000_0000 && !r.linearExists
    ensures DecodeLine(r, Record(StartLinearBytes(eip))[1..])
            == r.(eip := eip, errors := r.errors + if r.startSegment.Some? then 1 else 0)
  {
    var bytes := StartLinearBytes(eip);
    RecordPasses(bytes);
    PassingLine(r, Record(bytes)[1..]);
    RecordParts(bytes);
    RecordPair(bytes, 4);
    RecordPair(bytes, 6);
    FourBytes(eip);
  }

  lemma FourBytes(n: nat)
    requires n < 0x1_0000_0000
    ensures 0x10000 * (0x100 * (n / 0x100_0000) + n / 0x1_0000 % 256) + (0x100 * (n / 256 % 256) + n % 256) == n
  {
  }

  lemma EndRecordDecodes(r: Reader)
    requires !r.foundEof
    ensures DecodeLine(r, Record([0, 0, 0, 1])[1..]) == r.(foundEof := true)
  {
    var bytes := [0, 0, 0, 1];
    RecordPasses(bytes);
    PassingLine(r, Record(bytes)[1..]);
    RecordParts(bytes);
  }

  lemma {:induction false} SumChanged(bytes: seq<nat>, k: nat, v: nat)
    requires k < |bytes|
    ensures Sum(bytes[k := v]) + bytes[k] == Sum(bytes) + v
  {
    var n := |bytes| - 1;
    var changed := bytes[k := v];
    if k == n {
      assert changed[..n] == bytes[..n];
    } else {
      SumChanged(bytes[..n], k, v);
      assert changed[..n] == bytes[..n][k := v];
    }
  }

  /** A line with good digits and a wrong checksum. */
  predicate Fails(s: string) {
    |s| % 2 == 0 && Bad(s, 0, |s| / 2) == 0 && Checksum(s, |s| / 2) != 0
  }

  lemma FailingLine(r: Reader, s: string)
    requires Fails(s)
    ensures DecodeLine(r, s) == Errors(r, 1)
  {
    assert Errors(r, 0) == r;
  }

  lemma TextFails(bytes: seq<nat>)
    requires AreBytes(bytes) && Sum(bytes) % 256 != 0
    ensures Fails(HexText(bytes))
  {
    var n := |bytes|;
    HexTextChecksum(bytes, n);
    assert bytes[..n] == bytes;
    HexTextGood(bytes, 0, n);
    FailsBy(HexText(bytes), n);
  }

  lemma FailsBy(s: string, n: nat)
    requires |s| == 2 * n && Bad(s, 0, n) == 0 && Checksum(s, n) != 0
    ensures Fails(s)
  {
    assert |s| / 2 == n;
  }

  lemma ChangedByteFails(all: seq<nat>, k: nat, v: nat)
    requires AreBytes(all) && Sum(all) % 256 == 0 && k < |all| && v < 256 && v != all[k]
    ensures AreBytes(all[k := v]) && Fails(HexText(all[k := v]))
  {
    SumChanged(all, k, v);
    NotZeroAnyMore(Sum(all), Sum(all[k := v]), all[k], v);
    TextFails(all[k := v]);
  }

  /** A record in which one byte is changed, be it data, header or checksum, only adds an error. */
  lemma ChangedByteRefused(r: Reader, bytes: seq<nat>, k: nat, v: nat)
    requires AreBytes(bytes) && k <= |bytes| && v < 256 && v != WithChecksum(bytes)[k]
    ensures AreBytes(WithChecksum(bytes)[k := v])
    ensures DecodeLine(r, HexText(WithChecksum(bytes)[k := v])) == Errors(r, 1)
  {
    SumIsZero(bytes);
    ChangedByteFails(WithChecksum(bytes), k, v);
    FailingLine(r, HexText(WithChecksum(bytes)[k := v]));
  }

  lemma NotZeroAnyMore(sum: nat, changed: nat, x: nat, v: nat)
    requires sum % 256 == 0 && changed + x == sum + v && x < 256 && v < 256 && x != v
    ensures changed % 256 != 0
  {
  }

  // ---------- records of any origin ----------

  lemma HexCharIs(d: nat)
    requires d < 16
    ensures HexChar(d) == "0123456789ABCDEF"[d]
  {
  }

  lemma {:induction false} HexTextDigits(bytes: seq<nat>, k: nat)
    requires AreBytes(bytes) && k < |bytes|
    ensures HexText(bytes)[2 * k] == HexChar(bytes[k] / 16) && HexText(bytes)[2 * k + 1] == HexChar(bytes[k] % 16)
  {
    var n := |bytes| - 1;
    var s := HexText(bytes[..n]);
    assert HexText(bytes) == s + UcToHexString(bytes[n]);
    if k < n {
      HexTextDigits(bytes[..n], k);
      assert HexText(bytes)[2 * k] == s[2 * k] && HexText(bytes)[2 * k + 1] == s[2 * k + 1];
    }
  }

  /** A record that is no data record begins with its length, an offset of 0 and its kind. */
  lemma RecordHead(bytes: seq<nat>)
    requires AreBytes(bytes) && |bytes| >= 4 && bytes[0] < 10 && bytes[1] == bytes[2] == 0 && bytes[3] < 10
    ensures |Record(bytes)| >= 9
    ensures Record(bytes)[..9] == [':', '0', '0' + bytes[0] as char, '0', '0', '0', '0', '0', '0' + bytes[3] as char]
  {
    RecordTail(bytes);
    var all := WithChecksum(bytes);
    HexTextDigits(all, 0);
    HexTextDigits(all, 1);
    HexTextDigits(all, 2);
    HexTextDigits(all, 3);
  }

  /** The addresses are written in records 3, 5 and 4 with an offset of 0. */
  lemma AddressRecords(registers: Registers, eip: nat, upper: nat)
    requires registers.cs < 0x10000 && registers.ip < 0x10000 && eip < 0x1_0000_0000 && upper < 0x10000
    ensures ":04000003" <= Record(StartSegmentBytes(registers))
    ensures ":04000005" <= Record(StartLinearBytes(eip))
    ensures ":02000004" <= LinearRecord(upper)
  {
    RecordHead(StartSegmentBytes(registers));
    RecordHead(StartLinearBytes(eip));
    RecordHead([2, 0, 0, 4, upper % 256, upper / 256]);
  }

  /** The last line of every file. */
  lemma EndRecordText()
    ensures Record([0, 0, 0, 1]) == ":00000001FF"
  {
    var bytes := [0, 0, 0, 1];
    assert bytes[..3][..2][..1][..0] == [];
    assert Sum(bytes[..1]) == 0 && bytes[..2][..1] == bytes[..1] && bytes[..3][..2] == bytes[..2];
    assert Sum(bytes[..2]) == 0;
    assert Sum(bytes[..3]) == 0;
    assert WithChecksum(bytes) == [0, 0, 0, 1, 255];
    HexTextFive(0, 0, 0, 1, 255);
  }

  lemma HexTextFive(a: nat, b: nat, c: nat, d: nat, e: nat)
    requires a < 256 && b < 256 && c < 256 && d < 256 && e < 256
    ensures HexText([a, b, c, d, e])
            == UcToHexString(a) + UcToHexString(b) + UcToHexString(c) + UcToHexString(d) + UcToHexString(e)
  {
    assert [a, b, c, d, e][..4] == [a, b, c, d] && [a, b, c, d][..3] == [a, b, c] && [a, b, c][..2] == [a, b];
    assert [a, b][..1] == [a] && [a][..0] == [];
    assert HexText([a]) == UcToHexString(a);
    assert HexText([a, b]) == UcToHexString(a) + UcToHexString(b);
    assert HexText([a, b, c]) == UcToHexString(a) + UcToHexString(b) + UcToHexString(c);
  }

  /** Records 2 and 4 set the base address to 16 times, or 65536 times, the number in them, high byte first. */
  lemma ExtendedDecodes(r: Reader, x: nat, y: nat, kind: nat, high: nat, low: nat)
    requires x < 256 && y < 256 && (kind == 2 || kind == 4) && high < 256 && low < 256
    ensures DecodeLine(r, Record([2, x, y, kind, high, low])[1..])
            == r.(base := (if kind == 2 then 16 else 65536) * (256 * high + low))
  {
    var bytes := [2, x, y, kind, high, low];
    RecordPasses(bytes);
    PassingLine(r, Record(bytes)[1..]);
    RecordParts(bytes);
    RecordPair(bytes, 4);
  }

  /** Records 3 and 5 hold the registers CS and IP, and the register EIP, each high byte first. */
  lemma StartDecodes(r: Reader, bytes: seq<nat>)
    requires AreBytes(bytes) && |bytes| == 8 && bytes[0] == 4 && (bytes[3] == 3 || bytes[3] == 5)
    requires if bytes[3] == 3 then r.startSegment.None? else !r.linearExists
    ensures DecodeLine(r, Record(bytes)[1..])
            == if bytes[3] == 3 then
                 r.(startSegment := Some(Registers(256 * bytes[4] + bytes[5], 256 * bytes[6] + bytes[7])),
                    errors := r.errors + if r.linearExists then 1 else 0)
               else
                 r.(eip := 0x100_0000 * bytes[4] + 0x1_0000 * bytes[5] + 0x100 * bytes[6] + bytes[7],
                    errors := r.errors + if r.startSegment.Some? then 1 else 0)
  {
    RecordPasses(bytes);
    PassingLine(r, Record(bytes)[1..]);
    RecordParts(bytes);
    RecordPair(bytes, 4);
    RecordPair(bytes, 6);
  }

  /** What is refused with one error and changes nothing else: a second end record, extended addresses of a wrong
      length, and records of other kinds. */
  lemma RecordsRefused(r: Reader, bytes: seq<nat>)
    requires AreBytes(bytes) && 4 <= |bytes| == 4 + bytes[0]
    requires (bytes[3] == 1 && r.foundEof) || ((bytes[3] == 2 || bytes[3] == 4) && bytes[0] != 2) || bytes[3] > 5
    ensures DecodeLine(r, Record(bytes)[1..]) == r.(errors := r.errors + 1)
  {
    RecordPasses(bytes);
    PassingLine(r, Record(bytes)[1..]);
    RecordParts(bytes);
  }

  /** A start address of a wrong length is not taken, and one whose kind is known already is not taken either. Each of
      that counts as an error, and so does a known address of the other kind. */
  lemma StartsRefused(r: Reader, bytes: seq<nat>)
    requires AreBytes(bytes) && 4 <= |bytes| == 4 + bytes[0] && (bytes[3] == 3 || bytes[3] == 5)
    requires bytes[0] != 4 || if bytes[3] == 3 then r.startSegment.Some? else r.linearExists
    ensures DecodeLine(r, Record(bytes)[1..])
            == r.(errors := r.errors + (if r.startSegment.Some? then 1 else 0) + (if r.linearExists then 1 else 0)
                            + if bytes[0] != 4 then 1 else 0)
  {
    RecordPasses(bytes);
    PassingLine(r, Record(bytes)[1..]);
    RecordParts(bytes);
  }

  /** The key of an address is its lower 32 bits, with the highest of them repeated in the upper 32 of 64. */
  lemma KeyExtends(address: nat)
    ensures Key(address) % 0x1_0000_0000 == address % 0x1_0000_0000
    ensures Key(address) / 0x1_0000_0000
            == if address % 0x1_0000_0000 / 0x8000_0000 == 1 then 0xFFFF_FFFF else 0
  {
  }

  /** For which lines with good digits and the right checksum the source reads past the end of the line. */
  lemma ReadsTooFar(r: Reader, s: string)
    requires Passes(s) && !r.undefined
    ensures DecodeLine(r, s).undefined
            <==> |s| < 8
                 || var length, kind := ByteAt(s, 0), ByteAt(s, 3);
                    if kind == 0 then |s| < 8 + 2 * length
                    else if kind == 2 || kind == 4 then length == 2 && |s| < 12
                    else if kind == 3 then length == 4 && r.startSegment.None? && |s| < 16
                    else kind == 5 && length == 4 && !r.linearExists && |s| < 16
  {
    PassingLine(r, s);
    if |s| >= 8 && ByteAt(s, 3) == 0 && |s| >= 8 + 2 * ByteAt(s, 0) {
      var h := Errors(r, Bad(s, 0, 4));
      InsertsNoFlag(Errors(h, Bad(s, 4, ByteAt(s, 0))).(base := Rebased(r.base, PairAt(s, 1))),
                    Data(s, 4, ByteAt(s, 0)));
    }
  }

  lemma {:induction false} InsertsNoFlag(r: Reader, bytes: seq<nat>)
    ensures InsertAll(r, bytes).undefined == r.undefined
    decreases |bytes|
  {
    if bytes != [] { InsertsNoFlag(Insert(r, bytes[0]), bytes[1..]); }
  }

  /** A byte for an address that has one already changes nothing in the content: it is a warning if it is the same
      byte, and an error if not. */
  lemma KnownAddress(r: Reader, byte: nat)
    requires Key(r.base) in r.content
    ensures var s := Insert(r, byte);
            && s.content == r.content && s.base == r.base + 1
            && s.warnings == r.warnings + (if r.content[Key(r.base)] == byte then 1 else 0)
            && s.errors == r.errors + if r.content[Key(r.base)] == byte then 0 else 1
  {
  }

  /** Each byte of a data record is inserted, or a warning, or an error. */
  lemma {:induction false} BytesAccounted(r: Reader, bytes: seq<nat>)
    ensures var s := InsertAll(r, bytes);
            |s.content| + s.warnings + s.errors == |r.content| + r.warnings + r.errors + |bytes|
    decreases |bytes|
  {
    if bytes != [] {
      InsertCounts(r, bytes[0]);
      BytesAccounted(Insert(r, bytes[0]), bytes[1..]);
    }
  }

  lemma InsertCounts(r: Reader, byte: nat)
    ensures var s := Insert(r, byte);
            |s.content| + s.warnings + s.errors == |r.content| + r.warnings + r.errors + 1
  {
    var key := Key(r.base);
    if key !in r.content {
      assert r.content[key := byte].Keys == r.content.Keys + {key};
      assert |r.content[key := byte].Keys| == |r.content.Keys| + 1;
    }
  }

  /** A line without its mark is a warning. The first line is then not read, nor anything behind it; a later one is
      read as it is. */
  lemma MarkMissing(r: Reader, word: string, rest: string, count: nat)
    requires word != "" && NoSpaces(word) && Separated(rest) && word[0] != ':'
    ensures var warned := r.(warnings := r.warnings + 1);
            && DecodeFrom(r, word + rest, 0) == warned.(errors := r.errors + 1)
            && var next := DecodeLine(warned, word);
               count > 0 ==>
                 DecodeFrom(r, word + rest, count)
                 == if next.undefined then next else DecodeFrom(next, rest, count + 1)
  {
    ReadWordIs("", word, rest);
    assert "" + word + rest == word + rest;
  }

  // ---------- how the content is divided ----------

  /** A record ends only where it is full, or the next address does not follow. */
  lemma {:induction false} RunIsMaximal(entries: Entries, max: nat)
    requires entries != [] && max >= 1
    ensures var n := RunLength(entries, max);
            && (n < max && n < |entries| ==> entries[n].0 % 0x10000 != entries[n - 1].0 % 0x10000 + 1)
            && forall i | 0 < i < n :: entries[i].0 % 0x10000 == entries[i - 1].0 % 0x10000 + 1
    decreases max
  {
    var n := RunLength(entries, max);
    if n > 1 {
      var rest := entries[1..];
      RunIsMaximal(rest, max - 1);
      assert n < |entries| ==> rest[n - 1] == entries[n] && rest[n - 2] == entries[n - 1];
      forall i | 0 < i < n ensures entries[i].0 % 0x10000 == entries[i - 1].0 % 0x10000 + 1 {
        if i > 1 { assert rest[i - 1] == entries[i] && rest[i - 2] == entries[i - 1]; }
      }
    }
  }

  ghost predicate IsDataRecord(line: string) {
    exists offset: nat, data: seq<nat> ::
      offset < 0x10000 && 1 <= |data| <= 16 && AreBytes(data) && line == Record(DataBytes(offset, data))
  }

  /** Within a segment nothing but data records is written. */
  lemma {:induction false} OnlyData(entries: Entries, upper: nat)
    requires Sorted(entries) && forall i | 0 <= i < |entries| :: entries[i].0 / 0x10000 == upper
    ensures forall i | 0 <= i < |Body(entries, upper)| :: IsDataRecord(Body(entries, upper)[i])
    decreases |entries|
  {
    if entries != [] {
      var n := RunLength(entries, 16);
      var line := FirstIsData(entries, upper);
      OnlyData(entries[n..], upper);
      assert Body(entries, upper) == [line] + Body(entries[n..], upper);
    }
  }

  lemma FirstIsData(entries: Entries, upper: nat) returns (line: string)
    requires Sorted(entries) && entries != [] && entries[0].0 / 0x10000 == upper
    ensures Sorted(entries[RunLength(entries, 16)..])
    ensures IsDataRecord(line) && Group(entries, upper) == [line]
  {
    var n := RunLength(entries, 16);
    SortedParts(entries, n);
    line := Record(DataBytes(entries[0].0 % 0x10000, Values(entries[..n])));
    assert [] + [line] == [line];
  }
}

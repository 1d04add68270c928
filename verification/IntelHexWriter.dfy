/** operator<< of library/intelhexclass.cpp: writing the content of an intelhex object in linear mode. */
module IntelHexWriter {
  import opened Streams
  import opened IntelHex
  import opened IntelHexRecords

  lemma HexTextLonger(bytes: seq<nat>, byte: nat)
    requires AreBytes(bytes) && byte < 256
    ensures AreBytes(bytes + [byte]) && HexText(bytes + [byte]) == HexText(bytes) + UcToHexString(byte)
  {
    assert (bytes + [byte])[..|bytes|] == bytes;
  }

  lemma SumLonger(bytes: seq<nat>, byte: nat)
    ensures Sum(bytes + [byte]) % 256 == (Sum(bytes) % 256 + byte) % 256
  {
    assert (bytes + [byte])[..|bytes|] == bytes;
  }

  /** The current record, byte by byte. */
  predicate Building(thisRecord: string, checksum: nat, bytes: seq<nat>) {
    AreBytes(bytes) && thisRecord == ":" + HexText(bytes) && checksum == Sum(bytes) % 256
  }

  method AppendByte(thisRecord: string, checksum: nat, dataByte: nat, ghost bytes: seq<nat>)
    returns (longer: string, sum: nat)
    requires Building(thisRecord, checksum, bytes) && dataByte < 256
    ensures Building(longer, sum, bytes + [dataByte])
  {
    HexTextLonger(bytes, dataByte);
    SumLonger(bytes, dataByte);
    sum := (checksum + dataByte) % 256;
    longer := thisRecord + UcToHexString(dataByte);
  }

  lemma RecordClosed(thisRecord: string, checksum: nat, bytes: seq<nat>)
    requires Building(thisRecord, checksum, bytes)
    ensures (256 - checksum) % 256 == Complement(bytes)
    ensures thisRecord + UcToHexString(Complement(bytes)) == Record(bytes)
  {
    HexTextLonger(bytes, Complement(bytes));
  }

  /** A record of the given bytes is appended to the output. */
  method WriteRecord(dataOut: string, bytes: seq<nat>, ghost lines: seq<string>) returns (longer: string)
    requires AreBytes(bytes) && dataOut == Lines(lines)
    ensures longer == Lines(lines + [Record(bytes)])
  {
    var thisRecord, checksum := ":", 0;
    for i := 0 to |bytes|
      invariant Building(thisRecord, checksum, bytes[..i])
    {
      assert bytes[..i + 1] == bytes[..i] + [bytes[i]];
      thisRecord, checksum := AppendByte(thisRecord, checksum, bytes[i], bytes[..i]);
    }
    assert bytes[..|bytes|] == bytes;
    RecordClosed(thisRecord, checksum, bytes);
    thisRecord := thisRecord + UcToHexString((256 - checksum) % 256);
    OneLine(lines, thisRecord);
    longer := dataOut + thisRecord + "\n";
  }

  lemma OneLine(lines: seq<string>, line: string)
    ensures Lines(lines + [line]) == Lines(lines) + line + "\n"
  {
    assert (lines + [line])[..|lines|] == lines;
  }

  /** The collecting loop goes on at entry number x. */
  predicate Collecting(entries: Entries, x: nat) {
    x < |entries| && x < 16 && RunLength(entries, 16) == x + RunLength(entries[x..], 16 - x)
  }

  predicate Continues(entries: Entries, x: nat)
    requires x < |entries|
  {
    x + 1 < |entries| && entries[x + 1].0 % 0x10000 == entries[x].0 % 0x10000 + 1
  }

  lemma CollectingNext(entries: Entries, x: nat)
    requires Collecting(entries, x)
    ensures if x == 15 || !Continues(entries, x) then RunLength(entries, 16) == x + 1 else Collecting(entries, x + 1)
  {
    var rest := entries[x..];
    assert rest[0] == entries[x] && rest[1..] == entries[x + 1..];
    if x + 1 < |entries| { assert rest[1] == entries[x + 1]; }
  }

  lemma ValuesNext(entries: Entries, x: nat)
    requires x < |entries|
    ensures Values(entries[..x + 1]) == Values(entries[..x]) + [entries[x].1]
  {
  }

  /** The collecting loop: up to 16 bytes at consecutive addresses. */
  method Collect(entries: Entries) returns (recordData: seq<nat>)
    requires entries != []
    ensures |recordData| == RunLength(entries, 16) && recordData == Values(entries[..|recordData|])
    ensures var n := |recordData|;
            && 1 <= n <= 16 && n <= |entries|
            && (forall i | 0 < i < n :: entries[i].0 % 0x10000 == entries[i - 1].0 % 0x10000 + 1)
            && (n < 16 && n < |entries| ==> entries[n].0 % 0x10000 != entries[n - 1].0 % 0x10000 + 1)
  {
    recordData := [];
    assert entries[0..] == entries;
    for x := 0 to 16
      invariant x == |recordData| && x <= |entries| && recordData == Values(entries[..x])
      invariant if x < 16 then Collecting(entries, x) else RunLength(entries, 16) == x
    {
      CollectingNext(entries, x);
      ValuesNext(entries, x);
      var currentAddress := entries[x].0 % 0x10000;
      recordData := recordData + [entries[x].1];
      if x + 1 == |entries| {
        break;
      }
      var previousAddress := currentAddress;
      currentAddress := entries[x + 1].0 % 0x10000;
      if currentAddress != previousAddress + 1 {
        break;
      }
    }
    RunIsMaximal(entries, 16);
  }

  /** The loop of operator<<. */
  method WriteContent(entries: Entries) returns (dataOut: string)
    requires entries != [] && Sorted(entries)
    ensures dataOut == Lines(ContentLines(entries))
  {
    var addressOffset := entries[0].0 / 0x10000;
    ghost var lines: seq<string> := [];
    dataOut := WriteLinear("", addressOffset, []);
    lines := [] + [LinearRecord(addressOffset)];
    var rest := entries;
    while rest != []
      invariant Sorted(rest) && dataOut == Lines(lines)
      invariant lines + Body(rest, addressOffset) == ContentLines(entries)
      decreases |rest|
    {
      dataOut, lines, addressOffset, rest := WriteGroup(dataOut, rest, addressOffset, lines);
    }
    assert lines + [] == lines;
  }

  method WriteLinear(dataOut: string, upper: nat, ghost lines: seq<string>) returns (longer: string)
    requires upper < 0x10000 && dataOut == Lines(lines)
    ensures longer == Lines(lines + [LinearRecord(upper)])
  {
    longer := WriteRecord(dataOut, [2, 0, 0, 4, upper % 256, upper / 256 % 256], lines);
    assert upper / 256 % 256 == upper / 256;
  }

  /** One turn of the loop. */
  method WriteGroup(dataOut: string, entries: Entries, addressOffset: nat, ghost lines: seq<string>)
    returns (longer: string, ghost more: seq<string>, newOffset: nat, rest: Entries)
    requires entries != [] && Sorted(entries) && dataOut == Lines(lines)
    ensures |rest| < |entries| && Sorted(rest) && longer == Lines(more)
    ensures more + Body(rest, newOffset) == lines + Body(entries, addressOffset)
  {
    var loadOffset := entries[0].0;
    longer, more, newOffset := dataOut, lines, addressOffset;
    if loadOffset / 0x10000 != addressOffset {
      newOffset := loadOffset / 0x10000;
      longer := WriteLinear(longer, newOffset, lines);
      more := lines + [LinearRecord(newOffset)];
    }
    var recordData := Collect(entries);
    GroupAppended(lines, entries, addressOffset);
    longer := WriteRecord(longer, DataBytes(loadOffset % 0x10000, recordData), more);
    more := more + [Record(DataBytes(loadOffset % 0x10000, recordData))];
    rest := entries[|recordData|..];
  }

  lemma GroupAppended(lines: seq<string>, entries: Entries, upper: nat)
    requires Sorted(entries) && entries != []
    ensures var n := RunLength(entries, 16);
            var next := entries[0].0 / 0x10000;
            && Sorted(entries[..n]) && Sorted(entries[n..])
            && (if next != upper then lines + [LinearRecord(next)] else lines)
               + [Record(DataBytes(entries[0].0 % 0x10000, Values(entries[..n])))]
               + Body(entries[n..], next)
               == lines + Body(entries, upper)
  {
    var n := RunLength(entries, 16);
    var next := entries[0].0 / 0x10000;
    SortedParts(entries, n);
    var record := Record(DataBytes(entries[0].0 % 0x10000, Values(entries[..n])));
    assert Body(entries, upper) == LinearLines(next, upper) + [record] + Body(entries[n..], next);
    Regroup(lines, LinearLines(next, upper), [record], Body(entries[n..], next));
    if next == upper { assert lines + [] == lines; }
  }

  lemma Regroup(a: seq<string>, b: seq<string>, c: seq<string>, d: seq<string>)
    ensures a + b + c + d == a + (b + c + d)
  {
  }
}

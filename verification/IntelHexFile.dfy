/** The intelhex class of library/intelhexclass.cpp: its stream operators, step by step. */
module IntelHexFile {
  import opened Streams
  import opened IntelHex
  import opened IntelHexWriter
  import NumberText

  // ---------- facts about the specification ----------

  lemma ShiftedNibble(value: nat)
    requires value < 256
    ensures value * 16 % 256 <= 240
  {
    assert value * 16 % 256 == value % 16 * 16;
  }

  lemma {:induction false} InsertAllLonger(r: Reader, bytes: seq<nat>, byte: nat)
    ensures InsertAll(r, bytes + [byte]) == Insert(InsertAll(r, bytes), byte)
    decreases |bytes|
  {
    if bytes == [] {
      assert ([] + [byte])[1..] == [];
    } else {
      assert (bytes + [byte])[1..] == bytes[1..] + [byte];
      InsertAllLonger(Insert(r, bytes[0]), bytes[1..], byte);
    }
  }

  lemma {:induction false} InsertAllErrors(r: Reader, bytes: seq<nat>, n: nat)
    ensures InsertAll(Errors(r, n), bytes) == Errors(InsertAll(r, bytes), n)
    decreases |bytes|
  {
    if bytes != [] {
      InsertErrors(r, bytes[0], n);
      InsertAllErrors(Insert(r, bytes[0]), bytes[1..], n);
    }
  }

  lemma InsertAllNext(r: Reader, s: string, from: nat, n: nat)
    requires 2 * (from + n + 1) <= |s|
    ensures Insert(Errors(Errors(InsertAll(r, Data(s, from, n)), Bad(s, from, n)), BadAt(s, from + n)),
                   ByteAt(s, from + n))
            == Errors(InsertAll(r, Data(s, from, n + 1)), Bad(s, from, n + 1))
  {
    var before := InsertAll(r, Data(s, from, n));
    var byte, bad := ByteAt(s, from + n), Bad(s, from, n + 1);
    InsertAllLonger(r, Data(s, from, n), byte);
    InsertErrors(before, byte, bad);
    assert Errors(Errors(before, Bad(s, from, n)), BadAt(s, from + n)) == Errors(before, bad);
  }

  lemma InsertErrors(r: Reader, byte: nat, n: nat)
    ensures Insert(Errors(r, n), byte) == Errors(Insert(r, byte), n)
  {
  }

  class IntelHexFile {
    var content: map<nat, nat>
    var segmentBaseAddress: nat
    var foundEof: bool
    var startSegment: Option<Registers>
    var eip: nat
    var startLinearExists: bool
    var warnings: nat
    var errors: nat
    // the source reads past the end of a line
    var overrun: bool

    ghost function View(): Reader
      reads this
    {
      Reader(content, segmentBaseAddress, foundEof, startSegment, eip, startLinearExists, warnings, errors, overrun)
    }

    constructor ()
      ensures View() == Fresh()
    {
      content, segmentBaseAddress, foundEof, startSegment := map[], 0, false, None;
      eip, startLinearExists, warnings, errors, overrun := 0, false, 0, 0, false;
    }

    /** The body of stringToHex's loop, in 8 bits. */
    method AddDigit(value: nat, c: char) returns (next: nat)
      requires value < 256
      modifies this`errors
      ensures next == if NumberText.DigitOf(c, 16) < 0 then 0 else value * 16 % 256 + NumberText.DigitOf(c, 16)
      ensures errors == old(errors) + if NumberText.DigitOf(c, 16) < 0 then 1 else 0
    {
      next := value * 16 % 256;
      ShiftedNibble(value);
      if '0' <= c <= '9' {
        next := (next + (c as int - '0' as int)) % 256;
      } else if 'A' <= c <= 'F' {
        next := (next + (c as int - 'A' as int + 10)) % 256;
      } else if 'a' <= c <= 'f' {
        next := (next + (c as int - 'a' as int + 10)) % 256;
      } else {
        errors := errors + 1;
        next := 0;
      }
    }

    /** stringToHex */
    method ReadByte(high: char, low: char) returns (value: nat)
      modifies this`errors
      ensures value == StringToHex(high, low) && errors == old(errors) + BadDigits(high, low)
    {
      value := AddDigit(0, high);
      value := AddDigit(value, low);
    }

    method ReadByteAt(s: string, k: nat) returns (value: nat)
      requires 2 * k + 1 < |s|
      modifies this`errors
      ensures value == ByteAt(s, k) && errors == old(errors) + BadAt(s, k)
    {
      value := ReadByte(s[2 * k], s[2 * k + 1]);
    }

    method ReadPairAt(s: string, k: nat) returns (value: nat)
      requires 2 * k + 3 < |s|
      modifies this`errors
      ensures value == PairAt(s, k) && errors == old(errors) + Bad(s, k, 2)
    {
      var high := ReadByteAt(s, k);
      var low := ReadByteAt(s, k + 1);
      value := 0x100 * high + low;
      assert Bad(s, k, 0) == 0 && Bad(s, k, 1) == BadAt(s, k);
    }

    /** ihContent.insert */
    method InsertByte(byte: nat)
      modifies this`content, this`segmentBaseAddress, this`warnings, this`errors
      ensures View() == Insert(old(View()), byte)
    {
      var key := Key(segmentBaseAddress);
      if key in content {
        if content[key] == byte {
          warnings := warnings + 1;
        } else {
          errors := errors + 1;
        }
      } else {
        content := content[key := byte];
      }
      segmentBaseAddress := segmentBaseAddress + 1;
    }

    /** The body of decodeDataRecord's loop. */
    method ReadAndInsert(s: string, k: nat)
      requires 2 * k + 1 < |s|
      modifies this
      ensures View() == Insert(Errors(old(View()), BadAt(s, k)), ByteAt(s, k))
    {
      var byteRead := ReadByteAt(s, k);
      InsertByte(byteRead);
    }

    /** decodeDataRecord, for the bytes from byte number `from` of the line on. */
    method DecodeDataRecord(recordLength: nat, loadOffset: nat, s: string, from: nat)
      requires 2 * (from + recordLength) <= |s|
      modifies this
      ensures View() == DecodeData(Errors(old(View()), Bad(s, from, recordLength)), loadOffset,
                                   Data(s, from, recordLength))
    {
      segmentBaseAddress := segmentBaseAddress - segmentBaseAddress % 0x10000;
      segmentBaseAddress := segmentBaseAddress + loadOffset;
      ghost var start := View();
      for x := 0 to recordLength
        invariant View() == Errors(InsertAll(start, Data(s, from, x)), Bad(s, from, x))
      {
        InsertAllNext(start, s, from, x);
        ReadAndInsert(s, from + x);
      }
      InsertAllErrors(start, Data(s, from, recordLength), Bad(s, from, recordLength));
    }

    /** The first pass over a line. */
    method CheckLine(s: string) returns (checksum: nat)
      modifies this`errors
      ensures checksum == Checksum(s, |s| / 2)
      ensures errors == old(errors) + Bad(s, 0, |s| / 2) + |s| % 2
    {
      checksum := 0;
      var k := 0;
      while 2 * k < |s|
        invariant k <= (|s| + 1) / 2
        invariant 2 * k <= |s| ==> checksum == Checksum(s, k) && errors == old(errors) + Bad(s, 0, k)
        invariant 2 * k > |s| ==> checksum == Checksum(s, |s| / 2) && errors == old(errors) + Bad(s, 0, |s| / 2) + 1
      {
        if 2 * k + 1 < |s| {
          var byteRead := ReadByteAt(s, k);
          checksum := (checksum + byteRead) % 256;
        } else {
          errors := errors + 1;
        }
        k := k + 1;
      }
    }

    /** The second pass, over a line with the right checksum. */
    method ReadRecord(s: string)
      modifies this
      ensures View() == DecodeRecord(old(View()), s)
    {
      if |s| < 8 {
        overrun := true;
        return;
      }
      var length, offset, kind := ReadHeader(s);
      ghost var header := View();
      assert header == Errors(old(View()), Bad(s, 0, 4));
      ReadKind(s, length, offset, kind);
      assert View() == DecodeKind(header, s, length, offset, kind);
    }

    /** The switch on the record type. */
    method ReadKind(s: string, length: nat, offset: nat, kind: nat)
      requires |s| >= 8
      modifies this
      ensures View() == DecodeKind(old(View()), s, length, offset, kind)
    {
      if kind == 0 {
        if 2 * (4 + length) <= |s| {
          DecodeDataRecord(length, offset, s, 4);
        } else {
          overrun := true;
        }
      } else if kind == 1 {
        if foundEof {
          errors := errors + 1;
        } else {
          foundEof := true;
        }
      } else if kind == 2 || kind == 4 {
        ReadExtended(s, length, kind);
      } else if kind == 3 {
        ReadStartSegment(s, length);
      } else if kind == 5 {
        ReadStartLinear(s, length);
      } else {
        errors := errors + 1;
      }
    }

    method ReadHeader(s: string) returns (length: nat, offset: nat, kind: nat)
      requires |s| >= 8
      modifies this`errors
      ensures length == ByteAt(s, 0) && offset == PairAt(s, 1) && kind == ByteAt(s, 3)
      ensures errors == old(errors) + Bad(s, 0, 4)
    {
      length := ReadByteAt(s, 0);
      offset := ReadPairAt(s, 1);
      kind := ReadByteAt(s, 3);
      BadPairs(s);
    }

    lemma BadPairs(s: string)
      requires |s| >= 8
      ensures Bad(s, 0, 4) == BadAt(s, 0) + Bad(s, 1, 2) + BadAt(s, 3)
    {
      assert Bad(s, 0, 3) == Bad(s, 0, 2) + BadAt(s, 2);
      assert Bad(s, 0, 2) == BadAt(s, 0) + BadAt(s, 1);
      assert Bad(s, 1, 1) == BadAt(s, 1);
    }

    method ReadExtended(s: string, length: nat, kind: nat)
      requires |s| >= 8 && (kind == 2 || kind == 4)
      modifies this
      ensures View() == DecodeExtended(old(View()), s, length, kind)
    {
      if length != 2 {
        errors := errors + 1;
      } else if |s| < 12 {
        overrun := true;
      } else {
        var address := ReadPairAt(s, 4);
        segmentBaseAddress := if kind == 2 then 0x10 * address else 0x10000 * address;
      }
    }

    lemma BadFour(s: string)
      requires |s| >= 16
      ensures Bad(s, 4, 4) == Bad(s, 4, 2) + Bad(s, 6, 2)
    {
      assert Bad(s, 4, 3) == Bad(s, 4, 2) + BadAt(s, 6);
      assert Bad(s, 6, 1) == BadAt(s, 6);
    }

    method ReadStartSegment(s: string, length: nat)
      requires |s| >= 8
      modifies this
      ensures View() == DecodeStartSegment(old(View()), s, length, 2 * (4 + length) <= |s|)
    {
      if length == 4 && startSegment.None? {
        if |s| < 16 {
          overrun := true;
          return;
        }
        BadFour(s);
        var cs := ReadPairAt(s, 4);
        var ip := ReadPairAt(s, 6);
        startSegment := Some(Registers(cs, ip));
      } else if startSegment.Some? {
        errors := errors + 1;
      }
      if startLinearExists {
        errors := errors + 1;
      }
      if length != 4 {
        errors := errors + 1;
      }
    }

    method ReadStartLinear(s: string, length: nat)
      requires |s| >= 8
      modifies this
      ensures View() == DecodeStartLinear(old(View()), s, length, 2 * (4 + length) <= |s|)
    {
      if length == 4 && !startLinearExists {
        if |s| < 16 {
          overrun := true;
          return;
        }
        BadFour(s);
        var high := ReadPairAt(s, 4);
        var low := ReadPairAt(s, 6);
        eip := 0x10000 * high + low;
      } else if startLinearExists {
        errors := errors + 1;
      }
      if startSegment.Some? {
        errors := errors + 1;
      }
      if length != 4 {
        errors := errors + 1;
      }
    }

    /** The body of operator>>'s loop for a line with its record mark removed. */
    method ReadLine(s: string)
      modifies this
      ensures View() == DecodeLine(old(View()), s)
    {
      var checksum := CheckLine(s);
      if checksum == 0 {
        ReadRecord(s);
      } else {
        errors := errors + 1;
      }
    }

    /** operator>> */
    method Read(text: string)
      modifies this
      ensures View() == DecodeFrom(old(View()), text, 0)
    {
      var dataIn := text;
      var lineCounter: nat := 0;
      var line;
      while true
        invariant DecodeFrom(View(), dataIn, lineCounter) == DecodeFrom(old(View()), text, 0)
        decreases |dataIn|
      {
        var read := ReadWord(dataIn);
        line, dataIn := read.0, read.1;
        if line == "" {
          break;
        }
        lineCounter := lineCounter + 1;
        if line[0] != ':' {
          warnings := warnings + 1;
          if lineCounter == 1 {
            errors := errors + 1;
            return;
          }
        } else {
          line := line[1..];
        }
        ReadLine(line);
        assert View().undefined == overrun;
        if overrun {
          return;
        }
      }
    }

    /** operator<<, in linear mode. */
    method Write() returns (dataOut: string)
      requires Writable(SortedEntries(content), startSegment, if startLinearExists then Some(eip) else None)
      ensures dataOut
              == WrittenText(SortedEntries(content), startSegment, if startLinearExists then Some(eip) else None)
    {
      dataOut := "";
      var entries := SortedEntries(content);
      if entries != [] {
        dataOut := WriteContent(entries);
      }
      ghost var first := ContentLines(entries);
      if startSegment.Some? {
        dataOut := WriteRecord(dataOut, StartSegmentBytes(startSegment.value), first);
        first := first + StartSegmentLines(startSegment);
      }
      assert first == ContentLines(entries) + StartSegmentLines(startSegment);
      ghost var startLinear := if startLinearExists then Some(eip) else None;
      if startLinearExists {
        dataOut := WriteRecord(dataOut, StartLinearBytes(eip), first);
        first := first + StartLinearLines(startLinear);
      }
      assert first == ContentLines(entries) + StartSegmentLines(startSegment) + StartLinearLines(startLinear);
      dataOut := WriteRecord(dataOut, [0, 0, 0, 1], first);
    }
  }
}

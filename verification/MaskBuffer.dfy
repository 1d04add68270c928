/** library/MaskBuffer.cpp: the encoder and the decoder of the client, on buffers of fixed capacity. */
module MaskBuffer {
  import opened Bits
  import opened Crc
  import opened CrcTheorems
  import opened Framing
  import opened FramingTheorems

  /** Crc_AddCrc16: the same register as one 16-bit number. */
  method AddCrc16(byte: Byte, crc: Register) returns (next: Register)
    ensures next == AddByte(crc, byte)
  {
    var high, low := AddCrc(byte, High(crc), Low(crc));
    PairOfHalves(crc);
    next := Pair(high, low);
  }

  lemma PairOfHalves(r: Register)
    ensures Pair(High(r), Low(r)) == r
  {
  }

  /** MaskBuffer. `failed` stands for the exception of a full buffer, after which nothing happens any more. */
  class Masker {
    const mData: array<Byte>
    var mLength: nat
    var mCrc: Register
    var failed: bool

    ghost predicate Valid()
      reads this
    {
      mLength <= mData.Length
    }

    ghost function Data(): seq<Byte>
      requires Valid()
      reads this, mData
    {
      mData[..mLength]
    }

    /** What is in the buffer, or that it was too small, after `s` was to be added to `before`. */
    ghost predicate Holds(before: seq<Byte>, failedBefore: bool, s: seq<Byte>)
      reads this, mData
    {
      && Valid()
      && failed == (failedBefore || |before + s| > mData.Length)
      && (!failed ==> Data() == before + s)
    }

    constructor (capacity: nat)
      ensures Valid() && fresh(mData) && mData.Length == capacity && mCrc == CrcOf([])
      ensures failed == (capacity == 0) && (!failed ==> Data() == [STX])
    {
      mData := new Byte[capacity](_ => Byte(Zeros(8)));
      mLength := 0;
      mCrc := Zeros(16);
      failed := false;
      new;
      AddPure(STX);
    }

    /** BaseBuffer::AddPure */
    method AddPure(newByte: Byte)
      requires Valid()
      modifies this`mLength, this`failed, mData
      ensures Holds(old(Data()), old(failed), [newByte])
    {
      if !failed {
        if mLength >= mData.Length {
          failed := true;
        } else {
          mData[mLength] := newByte;
          mLength := mLength + 1;
          assert mData[..mLength] == old(mData[..mLength]) + [newByte];
        }
      }
    }

    method Add(newByte: Byte)
      requires Valid()
      modifies this`mLength, this`failed, mData
      ensures Holds(old(Data()), old(failed), EscapeByte(newByte))
    {
      if IsCtrlChar(newByte) {
        AddPure(DLE);
      }
      AddPure(newByte);
      assert old(Data()) + [DLE] + [newByte] == old(Data()) + [DLE, newByte];
    }

    method AppendCrc(crcInLittleEndian: bool)
      requires Valid()
      modifies this`mLength, this`failed, mData
      ensures Holds(old(Data()), old(failed),
                    if crcInLittleEndian then EscapeByte(Low(mCrc)) + EscapeByte(High(mCrc))
                    else EscapeByte(High(mCrc)) + EscapeByte(Low(mCrc)))
    {
      var first, second := High(mCrc), Low(mCrc);
      if crcInLittleEndian {
        first, second := Low(mCrc), High(mCrc);
      }
      Add(first);
      Add(second);
      assert old(Data()) + EscapeByte(first) + EscapeByte(second)
             == old(Data()) + (EscapeByte(first) + EscapeByte(second));
    }

    /** The loop of MaskBuffer::Mask. */
    method AddAllWithCrc(input: seq<Byte>)
      requires Valid() && mCrc == CrcOf([])
      modifies this, mData
      ensures Holds(old(Data()), old(failed), Escape(input)) && mCrc == CrcOf(input)
    {
      var i := 0;
      assert old(Data()) + Escape([]) == old(Data());
      while i < |input|
        invariant i <= |input|
        invariant Holds(old(Data()), old(failed), Escape(input[..i])) && mCrc == CrcOf(input[..i])
      {
        EscapeGrows(old(Data()), input, i);
        Add(input[i]);
        mCrc := AddCrc16(input[i], mCrc);
        i := i + 1;
      }
      assert input[..i] == input;
    }

    lemma EscapeGrows(before: seq<Byte>, input: seq<Byte>, i: nat)
      requires i < |input|
      ensures before + Escape(input[..i + 1]) == before + Escape(input[..i]) + EscapeByte(input[i])
      ensures CrcOf(input[..i + 1]) == AddByte(CrcOf(input[..i]), input[i])
    {
      assert input[..i + 1][..i] == input[..i];
    }

    /** MaskBuffer::Mask on a new buffer: the whole frame if it fits, else the exception. */
    method Mask(input: seq<Byte>, crcInLittleEndian: bool)
      requires Valid() && !failed && Data() == [STX] && mCrc == CrcOf([])
      modifies this, mData
      ensures Valid() && failed == (|Frame(input, crcInLittleEndian)| > mData.Length)
      ensures !failed ==> Data() == Frame(input, crcInLittleEndian)
    {
      AddAllWithCrc(input);
      AppendCrc(crcInLittleEndian);
      AddPure(ETX);
      MaskedFrame(input, crcInLittleEndian);
    }
  }

  lemma MaskedFrame(payload: seq<Byte>, le: bool)
    ensures var t := Trailer(payload, le);
            Frame(payload, le)
            == [STX] + Escape(payload) + (EscapeByte(t[0]) + EscapeByte(t[1])) + [ETX]
  {
    var t := Trailer(payload, le);
    assert t == [t[0], t[1]];
    EscapeTwo(payload, t[0], t[1]);
    Regroup([STX], Escape(payload), EscapeByte(t[0]), EscapeByte(t[1]));
  }

  lemma Regroup(a: seq<Byte>, b: seq<Byte>, c: seq<Byte>, d: seq<Byte>)
    ensures a + (b + c + d) == a + b + (c + d)
  {
  }

  datatype Outcome = NeedMore | EndOfFrame | OverflowFault | UnderrunFault | OutOfBoundsFault

  /** UnmaskBuffer. */
  class Unmasking {
    const mData: array<Byte>
    var mLength: nat
    var mCrc: Register
    var mPreCrc: Register
    var mPrePreCrc: Register
    var mLastWasDLE: bool

    ghost predicate Sized()
      reads this
    {
      mLength <= mData.Length
    }

    ghost function Data(): seq<Byte>
      requires Sized()
      reads this, mData
    {
      mData[..mLength]
    }

    /** While a frame is received the three registers belong to the buffered bytes, all but the last one,
        and all but the last two. */
    ghost predicate Valid()
      reads this, mData
    {
      && Sized()
      && mCrc == CrcOf(Data())
      && mPreCrc == CrcOf(Data()[..if mLength >= 1 then mLength - 1 else 0])
      && mPrePreCrc == CrcOf(Data()[..if mLength >= 2 then mLength - 2 else 0])
    }

    ghost function State(): Unmasker
      requires Sized()
      reads this, mData
    {
      Unmasker(Data(), mLastWasDLE)
    }

    constructor (capacity: nat)
      ensures Valid() && fresh(mData) && mData.Length == capacity && State() == Unmasker([], false)
    {
      mData := new Byte[capacity](_ => Byte(Zeros(8)));
      mLength := 0;
      mCrc, mPreCrc, mPrePreCrc := Zeros(16), Zeros(16), Zeros(16);
      mLastWasDLE := false;
    }

    method Clear()
      modifies this
      ensures Valid() && State() == Unmasker([], false)
    {
      mLength := 0;
      mCrc, mPreCrc, mPrePreCrc := Zeros(16), Zeros(16), Zeros(16);
      mLastWasDLE := false;
    }

    /** UnmaskBuffer::Add */
    method Add(newByte: Byte) returns (r: Outcome)
      requires Valid() && !mLastWasDLE
      modifies this, mData
      ensures Sized()
      ensures if old(mLength) < mData.Length
              then r == NeedMore && Valid() && State() == Unmasker(old(Data()) + [newByte], false)
              else r == OverflowFault
    {
      if mLength >= mData.Length {
        return OverflowFault;
      }
      ghost var before := Data();
      mData[mLength] := newByte;
      mLength := mLength + 1;
      assert Data() == before + [newByte];
      mPrePreCrc := mPreCrc;
      mPreCrc := mCrc;
      mCrc := AddCrc16(newByte, mCrc);
      assert Data()[..mLength - 1] == before;
      assert mLength >= 2 ==> Data()[..mLength - 2] == before[..mLength - 2];
      r := NeedMore;
    }

    /** UnmaskBuffer::GetCrc16 */
    method GetCrc16(crcInLittleEndian: bool) returns (crc: Register)
      requires Valid() && (crcInLittleEndian ==> mLength >= 2)
      ensures crc == Zeros(16) <==> CrcMatches(Data(), crcInLittleEndian)
    {
      crc := mCrc;
      if crcInLittleEndian {
        crc := AddCrc16(mData[mLength - 1], mPrePreCrc);
        crc := AddCrc16(mData[mLength - 2], crc);
      }
    }

    /** UnmaskBuffer::CheckAndRemoveCrc. In little-endian order the source reads the two last bytes without
        a test that there are two. */
    method CheckAndRemoveCrc(crcInLittleEndian: bool) returns (r: Outcome)
      requires Valid()
      modifies this
      ensures Sized() && Agrees(r, Finish(old(Data()), true, crcInLittleEndian))
    {
      if crcInLittleEndian && mLength < 2 {
        return OutOfBoundsFault;
      }
      var crc := GetCrc16(crcInLittleEndian);
      if crc == Zeros(16) {
        if 2 > mLength { return UnderrunFault; }
        mLength := mLength - 2;
        assert Data() == old(Data())[..mLength];
      } else {
        Clear();
      }
      r := EndOfFrame;
    }

    /** The outcome and the buffer are what the decoding function says. */
    ghost predicate Agrees(r: Outcome, s: Status)
      requires Sized()
      reads this, mData
    {
      match s
      case More(u) => r == NeedMore && Valid() && State() == u
      case Complete(data) => r == EndOfFrame && Data() == data
      case Overflow => r == OverflowFault
      case Underrun => r == UnderrunFault
      case OutOfBounds => r == OutOfBoundsFault
    }

    /** One pass through the loop of UnmaskBuffer::Unmask. */
    method UnmaskByte(input: Byte, checkCrc: bool, crcInLittleEndian: bool) returns (r: Outcome)
      requires Valid()
      modifies this, mData
      ensures Sized()
      ensures Agrees(r, Unmask(old(State()), mData.Length, input, checkCrc, crcInLittleEndian))
    {
      ControlsDistinct();
      if mLastWasDLE {
        mLastWasDLE := false;
        r := Add(input);
      } else if input == ETX {
        if checkCrc {
          r := CheckAndRemoveCrc(crcInLittleEndian);
        } else {
          r := EndOfFrame;
        }
      } else if input == DLE {
        mLastWasDLE := true;
        r := NeedMore;
      } else if input == STX {
        Clear();
        r := NeedMore;
      } else {
        r := Add(input);
      }
    }

    /** UnmaskBuffer::Unmask */
    method UnmaskBytes(input: seq<Byte>, checkCrc: bool, crcInLittleEndian: bool) returns (r: Outcome)
      requires Valid()
      modifies this, mData
      ensures Sized()
      ensures Agrees(r, UnmaskAll(old(State()), mData.Length, input, checkCrc, crcInLittleEndian))
    {
      ghost var start := State();
      r := NeedMore;
      var i := 0;
      while i < |input| && r == NeedMore
        invariant i <= |input| && Sized()
        invariant Agrees(r, UnmaskAll(start, mData.Length, input[..i], checkCrc, crcInLittleEndian))
      {
        UnmaskLast(start, mData.Length, input, i, checkCrc, crcInLittleEndian);
        r := UnmaskByte(input[i], checkCrc, crcInLittleEndian);
        i := i + 1;
      }
      UnmaskStops(start, mData.Length, input, i, checkCrc, crcInLittleEndian);
    }
  }

  lemma UnmaskLast(u: Unmasker, capacity: nat, s: seq<Byte>, i: nat, check: bool, le: bool)
    requires i < |s|
    ensures var r := UnmaskAll(u, capacity, s[..i], check, le);
            UnmaskAll(u, capacity, s[..i + 1], check, le)
            == if r.More? then Unmask(r.state, capacity, s[i], check, le) else r
  {
    assert s[..i + 1][..i] == s[..i];
  }

  lemma UnmaskStops(u: Unmasker, capacity: nat, s: seq<Byte>, i: nat, check: bool, le: bool)
    requires i <= |s|
    ensures !UnmaskAll(u, capacity, s[..i], check, le).More? || i == |s|
            ==> UnmaskAll(u, capacity, s, check, le) == UnmaskAll(u, capacity, s[..i], check, le)
  {
    if i == |s| {
      assert s[..i] == s;
    } else {
      assert s == s[..i] + s[i..];
      UnmaskAppend(u, capacity, s[..i], s[i..], check, le);
    }
  }
}

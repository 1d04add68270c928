/** firmware/CommandIO.c: the command parser with its buffer and running CRC, and the response encoder. */
module CommandIO {
  import opened Bits
  import opened Crc
  import opened CrcTheorems
  import opened Framing
  import opened FramingTheorems
  import RingBuf

  class CommandBuffer {
    const buffer: array<Byte>
    var counter: nat
    var state: Mode
    var crcH: Byte
    var crcL: Byte
    var oddStxReceived: bool
    // frames given to ScriptCtrl_Add, error answers and FW_IDENT answers, in order
    var outputs: seq<Output>
    const controller: Controller

    constructor (size: nat, controller: Controller)
      requires 5 <= size < 256
      ensures Valid() && fresh(buffer) && buffer.Length == size && this.controller == controller
      ensures state == WaitForSTX && !oddStxReceived && outputs == []
    {
      buffer := new Byte[size](_ => Byte(Zeros(8)));
      this.controller := controller;
      state, counter, oddStxReceived, outputs := WaitForSTX, 0, false, [];
      crcH, crcL := Byte(Zeros(8)), Byte(Zeros(8));
    }

    /** While a frame is received, the CRC registers hold the CRC of the bytes buffered so far. */
    ghost predicate Valid()
      reads this, buffer
    {
      && 5 <= buffer.Length < 256
      && counter <= buffer.Length
      && (state != WaitForSTX ==> Pair(crcH, crcL) == CrcOf(buffer[..counter]))
    }

    /** The parser that this buffer is. */
    ghost function Contents(): (p: Parser)
      requires Valid()
      reads this, buffer
      ensures Held(p)
    {
      Parser(state, if state == WaitForSTX then [] else buffer[..counter], oddStxReceived, outputs, buffer[..])
    }

    method DeleteBuffer()
      modifies this`counter, this`crcH, this`crcL
      ensures counter == 0 && Pair(crcH, crcL) == CrcOf([])
    {
      counter := 0;
      crcH, crcL := NewCrc();
    }

    /** CommandIO_Init */
    method Init()
      requires 5 <= buffer.Length < 256
      modifies this`counter, this`crcH, this`crcL, this`state, this`oddStxReceived
      ensures Valid() && counter == 0 && Pair(crcH, crcL) == CrcOf([])
      ensures Contents() == Parser(WaitForSTX, [], false, outputs, buffer[..])
    {
      state := WaitForSTX;
      DeleteBuffer();
      oddStxReceived := false;
    }

    /** CommandIO_Error */
    method Error()
      requires Valid()
      modifies this
      ensures Valid() && counter == 0 && Pair(crcH, crcL) == CrcOf([])
      ensures Contents() == Errored(old(Contents()))
    {
      outputs := outputs + [BadPacket(buffer[1])];
      Init();
    }

    method WriteByte(byte: Byte)
      requires Valid() && state != WaitForSTX
      modifies this, buffer
      ensures Valid() && Contents() == Stored(old(Contents()), byte)
      ensures if old(counter) < buffer.Length
              then outputs == old(outputs) && counter == old(counter) + 1 && buffer[old(counter)] == byte
              else outputs == old(outputs) + [BadPacket(old(buffer[1]))] && state == WaitForSTX && !oddStxReceived
      ensures state == WaitForSTX ==> counter == 0 && Pair(crcH, crcL) == CrcOf([])
    {
      if counter < buffer.Length {
        buffer[counter] := byte;
        counter := counter + 1;
        assert buffer[..counter] == old(buffer[..counter]) + [byte];
        assert buffer[..] == old(buffer[..])[old(counter) := byte];
        crcH, crcL := AddCrc(byte, crcH, crcL);
        assert CrcOf(buffer[..counter]) == AddByte(CrcOf(old(buffer[..counter])), byte);
      } else {
        Error();
      }
    }

    method CheckForFwIdentMessage()
      modifies this`oddStxReceived, this`outputs
      ensures oddStxReceived == !old(oddStxReceived)
      ensures outputs == old(outputs) + if old(oddStxReceived) then [FwIdent] else []
    {
      oddStxReceived := !oddStxReceived;
      if !oddStxReceived {
        outputs := outputs + [FwIdent];
      }
    }

    /** What ScriptCtrl_Add does to a LOOP_OFF that it accepts. */
    method FillIn(loopEnd: LoopEnd)
      requires 5 <= buffer.Length
      modifies buffer
      ensures buffer[..] == Edited(old(buffer[..]), loopEnd)
    {
      if buffer[0] == LOOP_OFF && loopEnd.LoopEnd? {
        buffer[1] := loopEnd.startIndex;
        buffer[4] := loopEnd.depth;
        buffer[2] := buffer[3];
      }
    }

    /** The end of a frame. */
    method EndOfFrame()
      requires Valid() && state == SaveChar
      modifies this, buffer
      ensures Valid() && Contents() == Ended(old(Contents()), controller)
    {
      oddStxReceived := false;
      state := WaitForSTX;
      PairHalves(crcH, crcL);
      if crcL == Byte(Zeros(8)) && crcH == Byte(Zeros(8)) {
        var reply := controller(|outputs|);
        outputs := outputs + [Delivered(buffer[..counter], buffer[..], reply.answer)];
        FillIn(reply.loopEnd);
      } else {
        outputs := outputs + [CrcFailed(buffer[0])];
      }
    }

    /** One pass through the loop of CommandIO_GetCommands. */
    method Receive(newByte: Byte)
      requires Valid()
      modifies this, buffer
      ensures Valid() && Contents() == Parse(old(Contents()), controller, newByte)
    {
      ControlsDistinct();
      match state
      case WaitForSTX =>
        if newByte == STX {
          CheckForFwIdentMessage();
          DeleteBuffer();
          state := SaveChar;
        }
      case UnMaskChar =>
        WriteByte(newByte);
        state := SaveChar;
      case SaveChar =>
        if newByte == DLE {
          state := UnMaskChar;
        } else if newByte == STX {
          CheckForFwIdentMessage();
          DeleteBuffer();
        } else if newByte == ETX {
          EndOfFrame();
        } else {
          WriteByte(newByte);
        }
    }

    /** The next byte of the receive buffer. */
    method ReceiveNext(ring: RingBuf.Buffer<Byte>)
      requires Valid() && ring.Valid() && ring.data != buffer && ring.contents != []
      modifies this, buffer, ring
      ensures Valid() && ring.Valid() && !ring.errorFull
      ensures [old(ring.contents)[0]] + ring.contents == old(ring.contents)
      ensures Contents() == Parse(old(Contents()), controller, old(ring.contents)[0])
    {
      var newByte := ring.Get();
      Receive(newByte);
    }

    /** The loop of CommandIO_GetCommands. */
    method Drain(ring: RingBuf.Buffer<Byte>)
      requires Valid() && ring.Valid() && ring.data != buffer && !ring.errorFull
      modifies this, buffer, ring
      ensures Valid() && ring.Valid() && ring.contents == [] && !ring.errorFull
      ensures Contents() == ParseAll(old(Contents()), controller, old(ring.contents))
    {
      var empty := ring.IsEmpty();
      while !empty
        invariant Valid() && ring.Valid() && !ring.errorFull && (empty <==> ring.contents == [])
        invariant ParseAll(Contents(), controller, ring.contents)
                  == ParseAll(old(Contents()), controller, old(ring.contents))
        decreases |ring.contents|
      {
        ghost var before, rest := Contents(), ring.contents;
        ReceiveNext(ring);
        ParseFirst(before, controller, rest[0], ring.contents);
        empty := ring.IsEmpty();
      }
    }

    /** CommandIO_GetCommands: after a receive overflow everything buffered is dropped, otherwise all
        received bytes are parsed. */
    method GetCommands(ring: RingBuf.Buffer<Byte>)
      requires Valid() && ring.Valid() && ring.data != buffer
      modifies this, buffer, ring
      ensures Valid() && ring.Valid() && ring.contents == [] && !ring.errorFull
      ensures Contents() ==
              if old(ring.errorFull) then Errored(old(Contents()))
              else ParseAll(old(Contents()), controller, old(ring.contents))
      ensures old(ring.errorFull) ==>
                outputs == old(outputs) + [BadPacket(old(buffer[1]))] && state == WaitForSTX && !oddStxReceived
    {
      var failed := ring.HasError();
      if failed {
        ring.Init();
        Error();
      } else {
        Drain(ring);
      }
    }
  }

  /** UART_Send with masking, as CommandIO_SendResponse does for every byte of data and CRC. */
  method SendMasked(uart: seq<Byte>, byte: Byte) returns (sent: seq<Byte>)
    ensures sent == uart + EscapeByte(byte)
  {
    sent := uart;
    if byte == STX || byte == DLE || byte == ETX {
      sent := sent + [DLE];
    }
    sent := sent + [byte];
  }

  lemma EscapeNext(frame: seq<Byte>, i: nat)
    requires i < |frame|
    ensures Escape(frame[..i + 1]) == Escape(frame[..i]) + EscapeByte(frame[i])
    ensures CrcOf(frame[..i + 1]) == AddByte(CrcOf(frame[..i]), frame[i])
  {
    assert frame[..i + 1][..i] == frame[..i];
  }

  /** The data loop of CommandIO_SendResponse. */
  method SendData(frame: seq<Byte>) returns (uart: seq<Byte>, crcH: Byte, crcL: Byte)
    ensures uart == [STX] + Escape(frame) && Pair(crcH, crcL) == CrcOf(frame)
  {
    crcH, crcL := NewCrc();
    uart := [STX];
    var data, frameLength := 0, |frame|;
    while frameLength > 0
      invariant 0 <= data <= data + frameLength == |frame|
      invariant uart == [STX] + Escape(frame[..data])
      invariant Pair(crcH, crcL) == CrcOf(frame[..data])
    {
      frameLength := frameLength - 1;
      var tempByte := frame[data];
      EscapeNext(frame, data);
      data := data + 1;
      crcH, crcL := AddCrc(tempByte, crcH, crcL);
      uart := SendMasked(uart, tempByte);
    }
    assert frame[..data] == frame;
  }

  lemma FrameSent(frame: seq<Byte>, crcH: Byte, crcL: Byte)
    requires Pair(crcH, crcL) == CrcOf(frame)
    ensures Frame(frame, false) == [STX] + Escape(frame) + EscapeByte(crcH) + EscapeByte(crcL) + [ETX]
  {
    PairHalves(crcH, crcL);
    EscapeTwo(frame, crcH, crcL);
    Grouped([STX], Escape(frame), EscapeByte(crcH), EscapeByte(crcL));
  }

  lemma Grouped(a: seq<Byte>, b: seq<Byte>, c: seq<Byte>, d: seq<Byte>)
    ensures a + (b + c + d) == a + b + c + d
  {
  }

  /** CommandIO_SendResponse: the bytes sent are one frame, high CRC byte first. */
  method SendResponse(frame: seq<Byte>) returns (uart: seq<Byte>)
    ensures uart == Frame(frame, false)
  {
    var crcH, crcL;
    uart, crcH, crcL := SendData(frame);
    FrameSent(frame, crcH, crcL);
    uart := SendMasked(uart, crcH);
    uart := SendMasked(uart, crcL);
    uart := uart + [ETX];
  }
}

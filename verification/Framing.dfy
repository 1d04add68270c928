/** The STX/DLE/ETX framing: what an encoder must emit, and the two streaming decoders as step functions.

    The classes in CommandIO.dfy and MaskBuffer.dfy are proved to compute exactly these functions. */
module Framing {
  import opened Bits
  import opened Crc
  import opened CrcTheorems

  const STX: Byte := Byte(Zeros(4) + Ones(4))
  const DLE: Byte := Byte(Zeros(5) + [true, false, true])
  const ETX: Byte := Byte(Zeros(5) + [true, false, false])

  predicate IsCtrlChar(b: Byte) {
    b == STX || b == ETX || b == DLE
  }

  lemma ControlsDistinct()
    ensures STX != DLE && STX != ETX && DLE != ETX
  {
    assert STX.bits[4] && !DLE.bits[4] && !ETX.bits[4] && DLE.bits[7] && !ETX.bits[7];
  }

  // ---------- encoding ----------

  /** Control characters get a DLE in front. */
  function Escape(s: seq<Byte>): seq<Byte> {
    if s == [] then []
    else Escape(s[..|s| - 1]) + EscapeByte(s[|s| - 1])
  }

  function EscapeByte(b: Byte): seq<Byte> {
    if IsCtrlChar(b) then [DLE, b] else [b]
  }

  /** The CRC of the payload, low byte first for the bootloader and high byte first for the firmware. */
  function Trailer(payload: seq<Byte>, littleEndian: bool): (t: seq<Byte>)
    ensures |t| == 2
  {
    var crc := CrcOf(payload);
    if littleEndian then [Low(crc), High(crc)] else [High(crc), Low(crc)]
  }

  function Frame(payload: seq<Byte>, littleEndian: bool): seq<Byte> {
    [STX] + Escape(payload + Trailer(payload, littleEndian)) + [ETX]
  }

  // ---------- the parser of the firmware ----------

  datatype Mode = WaitForSTX | UnMaskChar | SaveChar

  /** The command buffer. Outside a frame it holds what earlier frames have left there. */
  type Memory = m: seq<Byte> | 5 <= |m| witness seq(5, _ => Byte(Zeros(8)))

  datatype Answer = Silent | Answer(code: Byte)

  /** What ScriptCtrl_Add returns, Silent being NO_RESPONSE, and what it may write into the command. */
  datatype Reply = Reply(answer: Answer, loopEnd: LoopEnd)
  datatype LoopEnd = Unchanged | LoopEnd(startIndex: Byte, depth: Byte)

  /** The script controller, whatever it does between two commands: its reply to the command that would be the
      output with this number. */
  type Controller = nat -> Reply

  /** A frame with residue 0, with the buffer that ScriptCtrl_Add is given and the answer; or an answer of the
      parser itself, with the command byte that it quotes. */
  datatype Output =
    | Delivered(frame: seq<Byte>, command: Memory, answer: Answer)
    | CrcFailed(cmd: Byte)
    | BadPacket(cmd: Byte)
    | FwIdent

  datatype Parser = Parser(mode: Mode, buffer: seq<Byte>, oddStx: bool, outputs: seq<Output>, memory: Memory)

  const LOOP_OFF: Byte := Byte(Ones(4) + [false, true, true, false])

  /** ScriptCtrl_Add fills in the start, counter and depth of a LOOP_OFF in place. */
  function Edited(memory: Memory, loopEnd: LoopEnd): (m: Memory)
    ensures |m| == |memory|
    ensures forall i | 0 <= i < |m| && i != 1 && i != 2 && i != 4 :: m[i] == memory[i]
    ensures memory[0] != LOOP_OFF ==> m == memory
  {
    if memory[0] == LOOP_OFF && loopEnd.LoopEnd? then
      memory[1 := loopEnd.startIndex][4 := loopEnd.depth][2 := memory[3]]
    else memory
  }

  /** CommandIO_Error and CommandIO_Init. */
  function Errored(p: Parser): Parser {
    Parser(WaitForSTX, [], false, p.outputs + [BadPacket(p.memory[1])], p.memory)
  }

  function Stored(p: Parser, b: Byte): Parser {
    if |p.buffer| < |p.memory| then p.(buffer := p.buffer + [b], memory := p.memory[|p.buffer| := b])
    else Errored(p)
  }

  /** Every second STX of a row of STX is answered with FW_IDENT. */
  function Started(p: Parser): Parser {
    Parser(SaveChar, [], !p.oddStx, p.outputs + (if p.oddStx then [FwIdent] else []), p.memory)
  }

  function Ended(p: Parser, c: Controller): Parser {
    if CrcOf(p.buffer) == Zeros(16) then
      var reply := c(|p.outputs|);
      Parser(WaitForSTX, [], false, p.outputs + [Delivered(p.buffer, p.memory, reply.answer)],
             Edited(p.memory, reply.loopEnd))
    else Parser(WaitForSTX, [], false, p.outputs + [CrcFailed(p.memory[0])], p.memory)
  }

  /** One byte into CommandIO_GetCommands. */
  function Parse(p: Parser, c: Controller, b: Byte): (q: Parser)
    ensures |q.memory| == |p.memory|
  {
    match p.mode
    case WaitForSTX => if b == STX then Started(p) else p
    // after an overflow the mode is SaveChar, too
    case UnMaskChar => Stored(p, b).(mode := SaveChar)
    case SaveChar =>
      if b == DLE then p.(mode := UnMaskChar)
      else if b == STX then Started(p)
      else if b == ETX then Ended(p, c)
      else Stored(p, b)
  }

  function ParseAll(p: Parser, c: Controller, s: seq<Byte>): (q: Parser)
    ensures |q.memory| == |p.memory|
  {
    if s == [] then p else Parse(ParseAll(p, c, s[..|s| - 1]), c, s[|s| - 1])
  }

  // ---------- the decoder of the client ----------

  datatype Unmasker = Unmasker(data: seq<Byte>, lastWasDLE: bool)

  /** `Complete` carries what is left in the buffer. The three faults are the exception for a full buffer, the
      one for a frame without room for a CRC, and reading before the buffer. */
  datatype Status = More(state: Unmasker) | Complete(data: seq<Byte>) | Overflow | Underrun | OutOfBounds

  /** GetCrc16 is 0; in little-endian order the last two bytes are taken in reverse. */
  predicate CrcMatches(data: seq<Byte>, littleEndian: bool)
    requires littleEndian ==> |data| >= 2
  {
    var n := |data|;
    if littleEndian then AddByte(AddByte(CrcOf(data[..n - 2]), data[n - 1]), data[n - 2]) == Zeros(16)
    else CrcOf(data) == Zeros(16)
  }

  /** CheckAndRemoveCrc at the end of a frame. */
  function Finish(data: seq<Byte>, checkCrc: bool, littleEndian: bool): Status {
    if !checkCrc then Complete(data)
    else if littleEndian && |data| < 2 then OutOfBounds
    else if !CrcMatches(data, littleEndian) then Complete([])
    else if |data| < 2 then Underrun
    else Complete(data[..|data| - 2])
  }

  /** One byte into UnmaskBuffer::Unmask. */
  function Unmask(u: Unmasker, capacity: nat, b: Byte, checkCrc: bool, littleEndian: bool): Status {
    if !u.lastWasDLE && b == ETX then Finish(u.data, checkCrc, littleEndian)
    else if !u.lastWasDLE && b == DLE then More(u.(lastWasDLE := true))
    else if !u.lastWasDLE && b == STX then More(Unmasker([], false))
    else if |u.data| < capacity then More(Unmasker(u.data + [b], false))
    else Overflow
  }

  /** The bytes after the one that completes the frame are not looked at. */
  function UnmaskAll(u: Unmasker, capacity: nat, s: seq<Byte>, checkCrc: bool, littleEndian: bool): Status {
    if s == [] then More(u)
    else
      var r := UnmaskAll(u, capacity, s[..|s| - 1], checkCrc, littleEndian);
      if r.More? then Unmask(r.state, capacity, s[|s| - 1], checkCrc, littleEndian) else r
  }
}

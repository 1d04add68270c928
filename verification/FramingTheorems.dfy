/** The decoders invert the encoder, for every payload, fragmentation and earlier traffic. */
module FramingTheorems {
  import opened Bits
  import opened Crc
  import opened CrcTheorems
  import opened CrcByteOrder
  import opened Framing
  import Numbers

  /** The control characters, and the command code that ScriptCtrl_Add edits, as numbers. */
  lemma Codes()
    ensures Numbers.BitsValue(STX.bits) == 0x0F && Numbers.BitsValue(DLE.bits) == 0x05
    ensures Numbers.BitsValue(ETX.bits) == 0x04 && Numbers.BitsValue(LOOP_OFF.bits) == 0xF6
  {
    assert STX.bits == [false, false, false, false, true, true, true, true];
    assert DLE.bits == [false, false, false, false, false, true, false, true];
    assert ETX.bits == [false, false, false, false, false, true, false, false];
    assert LOOP_OFF.bits == [true, true, true, true, false, true, true, false];
    Numbers.EightBits(false, false, false, false, true, true, true, true);
    Numbers.EightBits(false, false, false, false, false, true, false, true);
    Numbers.EightBits(false, false, false, false, false, true, false, false);
    Numbers.EightBits(true, true, true, true, false, true, true, false);
  }

  // ---------- the parser of the firmware ----------

  /** How the input is cut into fragments makes no difference. */
  lemma {:induction false} ParseAppend(p: Parser, c: Controller, a: seq<Byte>, b: seq<Byte>)
    ensures ParseAll(p, c, a + b) == ParseAll(ParseAll(p, c, a), c, b)
    decreases |b|
  {
    if b == [] {
      assert a + b == a;
    } else {
      assert (a + b)[..|a + b| - 1] == a + b[..|b| - 1];
      ParseAppend(p, c, a, b[..|b| - 1]);
    }
  }

  lemma ParseOne(p: Parser, c: Controller, b: Byte)
    ensures ParseAll(p, c, [b]) == Parse(p, c, b)
  {
    assert [b][..0] == [];
  }

  lemma ParseFirst(p: Parser, c: Controller, b: Byte, rest: seq<Byte>)
    ensures ParseAll(p, c, [b] + rest) == ParseAll(Parse(p, c, b), c, rest)
  {
    ParseAppend(p, c, [b], rest);
    ParseOne(p, c, b);
  }

  lemma ParseTwo(p: Parser, c: Controller, a: Byte, b: Byte)
    ensures ParseAll(p, c, [a, b]) == Parse(Parse(p, c, a), c, b)
  {
    ParseOne(p, c, a);
    assert [a, b][..1] == [a];
  }

  lemma EscapeLast(s: seq<Byte>)
    requires s != []
    ensures Escape(s) == Escape(s[..|s| - 1]) + EscapeByte(s[|s| - 1])
  {
  }

  /** How many bytes have to be escaped. */
  function Controls(s: seq<Byte>): (n: nat)
    ensures n <= |s|
  {
    if s == [] then 0
    else
      var b := s[|s| - 1];
      Controls(s[..|s| - 1]) + if b == STX || b == ETX || b == DLE then 1 else 0
  }

  /** Exactly the control characters are escaped, each by one byte. */
  lemma {:induction false} EscapeLength(s: seq<Byte>)
    ensures |Escape(s)| == |s| + Controls(s)
  {
    if s != [] {
      var n := |s| - 1;
      EscapeLength(s[..n]);
      OneControl(s[n]);
    }
  }

  lemma OneControl(b: Byte)
    ensures |EscapeByte(b)| == if b == STX || b == ETX || b == DLE then 2 else 1
  {
  }

  lemma EscapeTwo(s: seq<Byte>, x: Byte, y: Byte)
    ensures Escape(s + [x, y]) == Escape(s) + EscapeByte(x) + EscapeByte(y)
  {
    EscapeLast(s + [x, y]);
    assert (s + [x, y])[..|s| + 1] == s + [x];
    EscapeLast(s + [x]);
    assert (s + [x])[..|s|] == s;
  }

  /** Bytes `s` stored in the memory from position k on. */
  function Overlaid(m: Memory, k: nat, s: seq<Byte>): (r: Memory)
    requires k + |s| <= |m|
    ensures |r| == |m|
  {
    m[..k] + s + m[k + |s|..]
  }

  function Extended(p: Parser, s: seq<Byte>): Parser
    requires |p.buffer| + |s| <= |p.memory|
  {
    p.(buffer := p.buffer + s, memory := Overlaid(p.memory, |p.buffer|, s))
  }

  lemma ExtendedByNone(p: Parser)
    requires |p.buffer| <= |p.memory|
    ensures Extended(p, []) == p
  {
  }

  lemma ExtendedByOne(p: Parser, s: seq<Byte>, b: Byte)
    requires |p.buffer| + |s| < |p.memory|
    ensures Extended(p, s + [b]) == Stored(Extended(p, s), b)
  {
    var k := |p.buffer| + |s|;
    assert Overlaid(p.memory, |p.buffer|, s + [b]) == Overlaid(p.memory, |p.buffer|, s)[k := b];
    assert p.buffer + s + [b] == p.buffer + (s + [b]);
  }

  /** An escaped byte is stored unchanged, whatever it is. */
  lemma ParseEscaped(p: Parser, c: Controller, b: Byte)
    requires p.mode == SaveChar && |p.buffer| < |p.memory|
    ensures ParseAll(p, c, EscapeByte(b)) == Stored(p, b)
  {
    ControlsDistinct();
    if IsCtrlChar(b) { ParseTwo(p, c, DLE, b); } else { ParseOne(p, c, b); }
  }

  lemma {:induction false} ParseEscape(p: Parser, c: Controller, s: seq<Byte>)
    requires p.mode == SaveChar && |p.buffer| + |s| <= |p.memory|
    ensures ParseAll(p, c, Escape(s)) == Extended(p, s)
    decreases |s|
  {
    if s == [] {
      ExtendedByNone(p);
    } else {
      var n := |s| - 1;
      ParseEscape(p, c, s[..n]);
      EscapeLast(s);
      ParseAppend(p, c, Escape(s[..n]), EscapeByte(s[n]));
      ParseEscaped(Extended(p, s[..n]), c, s[n]);
      ExtendedByOne(p, s[..n], s[n]);
      assert s[..n] + [s[n]] == s;
    }
  }

  /** The frames handed to ScriptCtrl_Add. */
  function Deliveries(outputs: seq<Output>): seq<seq<Byte>> {
    if outputs == [] then []
    else
      var o := outputs[|outputs| - 1];
      Deliveries(outputs[..|outputs| - 1]) + if o.Delivered? then [o.frame] else []
  }

  lemma {:induction false} DeliveriesAppend(a: seq<Output>, b: seq<Output>)
    ensures Deliveries(a + b) == Deliveries(a) + Deliveries(b)
    decreases |b|
  {
    if b == [] {
      assert a + b == a;
    } else {
      assert (a + b)[..|a + b| - 1] == a + b[..|b| - 1];
      DeliveriesAppend(a, b[..|b| - 1]);
    }
  }

  lemma DeliveriesOne(o: Output)
    ensures Deliveries([o]) == if o.Delivered? then [o.frame] else []
  {
    assert [o][..0] == [];
  }

  lemma TrailerMatches(payload: seq<Byte>)
    ensures CrcOf(payload + Trailer(payload, false)) == Zeros(16)
  {
    FrameResidue(payload, High(CrcOf(payload)), Low(CrcOf(payload)));
  }

  /** STX, whatever came before, starts an empty frame. */
  lemma ParseStart(p: Parser, c: Controller)
    requires p.mode != UnMaskChar
    ensures Parse(p, c, STX) == Started(p)
    ensures Deliveries(Started(p).outputs) == Deliveries(p.outputs)
  {
    ControlsDistinct();
    var ident := if p.oddStx then [FwIdent] else [];
    DeliveriesAppend(p.outputs, ident);
    DeliveriesOne(FwIdent);
  }

  /** The bytes of a frame between STX and ETX, and what they leave behind. */
  lemma ParseBody(s: Parser, c: Controller, body: seq<Byte>)
    requires s.mode == SaveChar && s.buffer == [] && |body| <= |s.memory|
    ensures ParseAll(s, c, Escape(body) + [ETX])
            == Ended(s.(buffer := body, memory := body + s.memory[|body|..]), c)
  {
    ControlsDistinct();
    ParseEscape(s, c, body);
    assert [] + body == body && s.memory[..0] + body == body;
    ParseAppend(s, c, Escape(body), [ETX]);
    ParseOne(Extended(s, body), c, ETX);
  }

  lemma ParseWhole(p: Parser, c: Controller, body: seq<Byte>)
    requires p.mode != UnMaskChar && |body| <= |p.memory|
    ensures ParseAll(p, c, [STX] + Escape(body) + [ETX])
            == Ended(Started(p).(buffer := body, memory := body + p.memory[|body|..]), c)
  {
    ParseStart(p, c);
    ParseBody(Started(p), c, body);
    ParseFirst(p, c, STX, Escape(body) + [ETX]);
    assert [STX] + (Escape(body) + [ETX]) == [STX] + Escape(body) + [ETX];
  }

  /** From every state outside an escape, whatever was received before, the firmware hands exactly the
      payload and its CRC to the script controller. */
  lemma ParserReceives(p: Parser, c: Controller, payload: seq<Byte>)
    requires p.mode != UnMaskChar && |payload| + 2 <= |p.memory|
    ensures var body := payload + Trailer(payload, false);
            var r := ParseAll(p, c, Frame(payload, false));
            && r.mode == WaitForSTX && !r.oddStx
            && r.outputs == Started(p).outputs
               + [Delivered(body, body + p.memory[|body|..], c(|Started(p).outputs|).answer)]
            && Deliveries(r.outputs) == Deliveries(p.outputs) + [body]
  {
    var body := payload + Trailer(payload, false);
    var r, memory := ParsedFrame(p, c, payload, body);
    var s := Started(p);
    TrailerMatches(payload);
    ParseStart(p, c);
    EndedDelivers(s, c, body, memory);
    DeliveredLast(s.outputs, Delivered(body, memory, c(|s.outputs|).answer));
  }

  lemma ParsedFrame(p: Parser, c: Controller, payload: seq<Byte>, body: seq<Byte>)
    returns (r: Parser, memory: seq<Byte>)
    requires p.mode != UnMaskChar && body == payload + Trailer(payload, false) && |body| <= |p.memory|
    ensures memory == body + p.memory[|body|..] && |memory| == |p.memory|
    ensures r == ParseAll(p, c, Frame(payload, false))
    ensures r == Ended(Started(p).(buffer := body, memory := memory), c)
  {
    ParseWhole(p, c, body);
    r, memory := ParseAll(p, c, Frame(payload, false)), body + p.memory[|body|..];
  }

  lemma EndedDelivers(s: Parser, c: Controller, body: seq<Byte>, memory: seq<Byte>)
    requires CrcOf(body) == Zeros(16) && |memory| == |s.memory|
    ensures var r := Ended(s.(buffer := body, memory := memory), c);
            && r.mode == WaitForSTX && !r.oddStx
            && r.outputs == s.outputs + [Delivered(body, memory, c(|s.outputs|).answer)]
  {
  }

  lemma DeliveredLast(outputs: seq<Output>, o: Output)
    requires o.Delivered?
    ensures Deliveries(outputs + [o]) == Deliveries(outputs) + [o.frame]
  {
    DeliveriesAppend(outputs, [o]);
    DeliveriesOne(o);
  }

  function Frames(payloads: seq<seq<Byte>>): seq<Byte> {
    if payloads == [] then []
    else Frames(payloads[..|payloads| - 1]) + Frame(payloads[|payloads| - 1], false)
  }

  function WithTrailers(payloads: seq<seq<Byte>>): seq<seq<Byte>> {
    seq(|payloads|, i requires 0 <= i < |payloads| => payloads[i] + Trailer(payloads[i], false))
  }

  lemma WithTrailersLast(payloads: seq<seq<Byte>>)
    requires payloads != []
    ensures var n := |payloads| - 1;
            WithTrailers(payloads) == WithTrailers(payloads[..n]) + [payloads[n] + Trailer(payloads[n], false)]
  {
  }

  /** Streaming: every sequence of frames is delivered completely and in order. */
  lemma {:induction false} ParserReceivesAll(p: Parser, c: Controller, payloads: seq<seq<Byte>>)
    requires p.mode != UnMaskChar && forall i | 0 <= i < |payloads| :: |payloads[i]| + 2 <= |p.memory|
    ensures var r := ParseAll(p, c, Frames(payloads));
            && r.mode != UnMaskChar
            && Deliveries(r.outputs) == Deliveries(p.outputs) + WithTrailers(payloads)
    decreases |payloads|
  {
    if payloads != [] {
      var n := |payloads| - 1;
      var before := Frames(payloads[..n]);
      ParserReceivesAll(p, c, payloads[..n]);
      ParserReceivesNext(p, c, before, payloads[n]);
      WithTrailersLast(payloads);
      assert Frames(payloads) == before + Frame(payloads[n], false);
      Appended(Deliveries(p.outputs), WithTrailers(payloads[..n]), payloads[n] + Trailer(payloads[n], false));
    }
  }

  lemma Appended(a: seq<seq<Byte>>, b: seq<seq<Byte>>, last: seq<Byte>)
    ensures a + b + [last] == a + (b + [last])
  {
  }

  lemma ParserReceivesNext(p: Parser, c: Controller, before: seq<Byte>, payload: seq<Byte>)
    requires |payload| + 2 <= |p.memory| && ParseAll(p, c, before).mode != UnMaskChar
    ensures var r := ParseAll(p, c, before + Frame(payload, false));
            && r.mode == WaitForSTX
            && Deliveries(r.outputs)
               == Deliveries(ParseAll(p, c, before).outputs) + [payload + Trailer(payload, false)]
  {
    ParseAppend(p, c, before, Frame(payload, false));
    ParserReceives(ParseAll(p, c, before), c, payload);
  }

  function Join(fragments: seq<seq<Byte>>): seq<Byte> {
    if fragments == [] then [] else Join(fragments[..|fragments| - 1]) + fragments[|fragments| - 1]
  }

  /** The parser, called once for each fragment. */
  function ParseFragments(p: Parser, c: Controller, fragments: seq<seq<Byte>>): Parser {
    if fragments == [] then p
    else ParseAll(ParseFragments(p, c, fragments[..|fragments| - 1]), c, fragments[|fragments| - 1])
  }

  lemma {:induction false} FragmentsJoin(p: Parser, c: Controller, fragments: seq<seq<Byte>>)
    ensures ParseFragments(p, c, fragments) == ParseAll(p, c, Join(fragments))
    decreases |fragments|
  {
    if fragments != [] {
      var n := |fragments| - 1;
      FragmentsJoin(p, c, fragments[..n]);
      ParseAppend(p, c, Join(fragments[..n]), fragments[n]);
    }
  }

  /** A byte that completes no escape leaves the parser outside an escape. */
  lemma UnitOutsideEscape(p: Parser, c: Controller, b: Byte)
    requires p.mode != UnMaskChar
    ensures ParseAll(p, c, EscapeByte(b)).mode != UnMaskChar
  {
    ControlsDistinct();
    if IsCtrlChar(b) { ParseTwo(p, c, DLE, b); } else { ParseOne(p, c, b); }
  }

  lemma {:induction false} EscapeOutsideEscape(p: Parser, c: Controller, s: seq<Byte>)
    requires p.mode != UnMaskChar
    ensures ParseAll(p, c, Escape(s)).mode != UnMaskChar
    decreases |s|
  {
    if s != [] {
      var n := |s| - 1;
      EscapeLast(s);
      EscapeOutsideEscape(p, c, s[..n]);
      ParseAppend(p, c, Escape(s[..n]), EscapeByte(s[n]));
      UnitOutsideEscape(ParseAll(p, c, Escape(s[..n])), c, s[n]);
    }
  }

  /** Self-synchronisation: in every state at all, after every garbage, one frame of any length and byte
      order brings the parser back to waiting, so at most this one frame is lost. */
  lemma AnyFrameSynchronises(p: Parser, c: Controller, payload: seq<Byte>, littleEndian: bool)
    ensures ParseAll(p, c, Frame(payload, littleEndian)).mode == WaitForSTX
  {
    ControlsDistinct();
    var body := Escape(payload + Trailer(payload, littleEndian));
    ParseAppend(p, c, [STX] + body, [ETX]);
    ParseAppend(p, c, [STX], body);
    ParseOne(p, c, STX);
    var s := Parse(p, c, STX);
    EscapeOutsideEscape(s, c, payload + Trailer(payload, littleEndian));
    ParseOne(ParseAll(s, c, body), c, ETX);
  }

  /** After any garbage and any frame, the next frames arrive. */
  lemma ParserRecovers(p: Parser, c: Controller, garbage: seq<Byte>, lost: seq<Byte>, payload: seq<Byte>)
    requires |payload| + 2 <= |p.memory|
    ensures var before := ParseAll(p, c, garbage + Frame(lost, false));
            var after := ParseAll(p, c, garbage + Frame(lost, false) + Frame(payload, false));
            Deliveries(after.outputs) == Deliveries(before.outputs) + [payload + Trailer(payload, false)]
  {
    ParseAppend(p, c, garbage, Frame(lost, false));
    AnyFrameSynchronises(ParseAll(p, c, garbage), c, lost, false);
    ParserReceivesNext(p, c, garbage + Frame(lost, false), payload);
  }

  // ---------- outside a frame, and in one that is too long ----------

  /** Between frames everything but STX is ignored. */
  lemma {:induction false} NoiseIgnored(p: Parser, c: Controller, s: seq<Byte>)
    requires p.mode == WaitForSTX && STX !in s
    ensures ParseAll(p, c, s) == p
    decreases |s|
  {
    if s != [] { NoiseIgnored(p, c, s[..|s| - 1]); }
  }

  /** Of n times STX every second one is answered with FW_IDENT. */
  lemma {:induction false} IdentAnswers(p: Parser, c: Controller, n: nat)
    requires p.mode != UnMaskChar && n > 0
    ensures var r := ParseAll(p, c, seq(n, _ => STX));
            var odd := if p.oddStx then 1 else 0;
            && r.outputs == p.outputs + seq((n + odd) / 2, _ => FwIdent)
            && r.mode == SaveChar && r.buffer == [] && r.memory == p.memory && (r.oddStx <==> (n + odd) % 2 == 1)
    decreases n
  {
    var row := seq(n, _ => STX);
    ControlsDistinct();
    if n == 1 {
      assert row == [STX];
      ParseOne(p, c, STX);
      if p.oddStx { assert seq(1, _ => FwIdent) == [FwIdent]; }
    } else {
      IdentAnswers(p, c, n - 1);
      assert row[..n - 1] == seq(n - 1, _ => STX);
      var k := (n - 1 + if p.oddStx then 1 else 0) / 2;
      assert seq(k, _ => FwIdent) + [FwIdent] == seq(k + 1, _ => FwIdent);
    }
  }

  lemma FullBuffer(s: Parser, c: Controller, fits: seq<Byte>, b: Byte)
    requires s.mode == SaveChar && s.buffer == [] && |fits| == |s.memory|
    ensures var r := ParseAll(s, c, Escape(fits) + EscapeByte(b));
            r.outputs == s.outputs + [BadPacket(fits[1])] && r.buffer == [] && r.memory == fits && !r.oddStx
  {
    ParseEscape(s, c, fits);
    ParseAppend(s, c, Escape(fits), EscapeByte(b));
    ExtendedFull(s, fits);
    NoRoom(Extended(s, fits), c, b);
  }

  lemma ExtendedFull(s: Parser, fits: seq<Byte>)
    requires s.mode == SaveChar && s.buffer == [] && |fits| == |s.memory|
    ensures var full := Extended(s, fits);
            full.mode == SaveChar && full.memory == fits && full.buffer == fits && full.outputs == s.outputs
  {
  }

  lemma NoRoom(full: Parser, c: Controller, b: Byte)
    requires full.mode == SaveChar && |full.buffer| == |full.memory|
    ensures var r := ParseAll(full, c, EscapeByte(b));
            && r.outputs == full.outputs + [BadPacket(full.memory[1])] && r.buffer == [] && r.memory == full.memory
            && !r.oddStx && r.mode == if IsCtrlChar(b) then SaveChar else WaitForSTX
  {
    ControlsDistinct();
    if IsCtrlChar(b) { ParseTwo(full, c, DLE, b); } else { ParseOne(full, c, b); }
  }

  /** A frame that is longer than the command buffer is answered with BAD_PACKET as soon as the buffer is full,
      whatever follows. */
  lemma OverlongAnswered(p: Parser, c: Controller, body: seq<Byte>, more: seq<Byte>)
    requires p.mode != UnMaskChar && |body| > |p.memory|
    ensures var ident := if p.oddStx then [FwIdent] else [];
            p.outputs + ident + [BadPacket(body[1])] <= ParseAll(p, c, [STX] + (Escape(body) + more)).outputs
  {
    var n := |p.memory|;
    var rest := Escape(body[n + 1..]) + more;
    ParseStart(p, c);
    ParseFirst(p, c, STX, Escape(body) + more);
    EscapeSplit(body, n, more);
    FullBuffer(Started(p), c, body[..n], body[n]);
    ParseAppend(Started(p), c, Escape(body[..n]) + EscapeByte(body[n]), rest);
    ParserSound(ParseAll(Started(p), c, Escape(body[..n]) + EscapeByte(body[n])), c, rest);
  }

  /** Where a LOOP_OFF gets what the script controller fills in: start, counter and depth; the counter begins with the
      number of loops. Other commands stay as they are. */
  lemma LoopEndFilledIn(memory: Memory, startIndex: Byte, depth: Byte)
    ensures var m := Edited(memory, LoopEnd(startIndex, depth));
            && Edited(memory, Unchanged) == memory
            && if memory[0] == LOOP_OFF then
                 m[..5] == [LOOP_OFF, startIndex, memory[3], memory[3], depth] && m[5..] == memory[5..]
               else m == memory
  {
  }

  // ---------- what is delivered ----------

  const ZERO: Byte := Byte(Zeros(8))

  /** A frame that passes the CRC test is some payload with its CRC exactly if it has room for one. */
  lemma ResidueIsTrailer(f: seq<Byte>)
    requires CrcOf(f) == Zeros(16)
    ensures (exists payload :: f == payload + Trailer(payload, false)) <==> |f| >= 2
  {
    if |f| >= 2 {
      var n := |f| - 2;
      assert f == f[..n] + [f[n], f[n + 1]];
      FrameResidue(f[..n], f[n], f[n + 1]);
      assert f == f[..n] + Trailer(f[..n], false);
    }
  }

  /** A register of zeros stays as it is exactly if it takes zeros. */
  lemma ZeroBits(z: Register, b: Octet)
    requires z == Zeros(16)
    ensures AddBits(z, b) == z <==> b == Zeros(8)
  {
    TakeOwnBits(z);
    assert z[..4] == Zeros(4) && z[4..] + Zeros(4) == z;
    AddBitsAppend(z, Zeros(4), Zeros(4));
    assert Zeros(4) + Zeros(4) == Zeros(8);
    if AddBits(z, b) == z {
      EqualEnds(z, z, b, Zeros(8));
      SumOfZeros(z, b);
    }
  }

  lemma SumOfZeros(z: Register, b: Octet)
    requires z == Zeros(16) && Plus(z, z) == Plus(b, Zeros(8)) + Zeros(8)
    ensures b == Zeros(8)
  {
    PlusSelf(z);
    PlusZeros(b);
    assert (b + Zeros(8))[..8] == b && z[..8] == Zeros(8);
  }

  lemma OneByteCrc(b: Byte)
    ensures CrcOf([b]) == AddBits(Zeros(16), b.bits)
  {
    assert [b][..0] == [];
    assert AddBytes(Zeros(16), [b]) == AddByte(AddBytes(Zeros(16), []), b);
  }

  /** The frames that pass the test without a CRC are the empty one and the single byte 0. */
  lemma ShortResidues(f: seq<Byte>)
    requires |f| < 2
    ensures CrcOf(f) == Zeros(16) <==> f == [] || f == [ZERO]
  {
    if |f| == 1 {
      assert f == [f[0]];
      OneByteCrc(f[0]);
      ZeroBits(Zeros(16), f[0].bits);
    }
  }

  /** What the script controller is given: a payload with its CRC at the beginning of the buffer, or a frame
      without a CRC, in a buffer that still holds what earlier frames have left in it. */
  ghost predicate Sound(o: Output) {
    o.Delivered? ==>
      && |o.frame| <= |o.command| && o.command[..|o.frame|] == o.frame
      && ((exists payload :: o.frame == payload + Trailer(payload, false)) || o.frame == [] || o.frame == [ZERO])
  }

  predicate Held(p: Parser) {
    |p.buffer| <= |p.memory| && p.memory[..|p.buffer|] == p.buffer
  }

  lemma DeliveredIsSound(p: Parser, c: Controller)
    requires Held(p)
    ensures Sound(Ended(p, c).outputs[|p.outputs|])
  {
    if CrcOf(p.buffer) == Zeros(16) {
      ResidueIsTrailer(p.buffer);
      if |p.buffer| < 2 { ShortResidues(p.buffer); }
    }
  }

  lemma StepIsSound(p: Parser, c: Controller, b: Byte)
    requires Held(p)
    ensures var q := Parse(p, c, b);
            && Held(q) && p.outputs <= q.outputs
            && forall i | |p.outputs| <= i < |q.outputs| :: Sound(q.outputs[i])
  {
    ControlsDistinct();
    if p.mode == SaveChar && b == ETX {
      DeliveredIsSound(p, c);
    }
  }

  /** Whatever bytes arrive, cut as they may be, nothing else is ever delivered. */
  lemma {:induction false} ParserSound(p: Parser, c: Controller, s: seq<Byte>)
    requires Held(p)
    ensures var r := ParseAll(p, c, s);
            && Held(r) && p.outputs <= r.outputs
            && forall i | |p.outputs| <= i < |r.outputs| :: Sound(r.outputs[i])
    decreases |s|
  {
    if s != [] {
      var q := ParseAll(p, c, s[..|s| - 1]);
      ParserSound(p, c, s[..|s| - 1]);
      StepIsSound(q, c, s[|s| - 1]);
    }
  }

  /** `STX ETX` passes the CRC test, and the script controller is given the buffer as it is. */
  lemma EmptyFrameIsDelivered(p: Parser, c: Controller)
    requires p.mode != UnMaskChar
    ensures ParseAll(p, c, [STX, ETX]).outputs
            == Started(p).outputs + [Delivered([], p.memory, c(|Started(p).outputs|).answer)]
  {
    ParseWhole(p, c, []);
    assert [STX] + Escape([]) + [ETX] == [STX, ETX];
    assert [] + p.memory[0..] == p.memory;
  }

  /** Behind a frame it runs the command of that frame once more; only a LOOP_OFF has changed, in the three bytes
      that the script controller filled in. */
  lemma EmptyFrameRepeats(p: Parser, c: Controller, payload: seq<Byte>)
    requires p.mode != UnMaskChar && |payload| + 2 <= |p.memory|
    ensures var r := ParseAll(p, c, Frame(payload, false) + [STX, ETX]);
            var n := |Started(p).outputs|;
            && |r.outputs| == n + 2 && r.outputs[n].Delivered? && r.outputs[n + 1].Delivered?
            && r.outputs[n].frame == payload + Trailer(payload, false) && r.outputs[n + 1].frame == []
            && r.outputs[n + 1].command == Edited(r.outputs[n].command, c(n).loopEnd)
  {
    var body := payload + Trailer(payload, false);
    TrailerMatches(payload);
    ParseWhole(p, c, body);
    ParseAppend(p, c, Frame(payload, false), [STX, ETX]);
    EmptyFrameIsDelivered(ParseAll(p, c, Frame(payload, false)), c);
  }

  /** Behind a frame that failed the test it runs what the test has refused. */
  lemma EmptyFrameRunsRefused(p: Parser, c: Controller, body: seq<Byte>)
    requires p.mode != UnMaskChar && |body| <= |p.memory| && CrcOf(body) != Zeros(16)
    ensures var r := ParseAll(p, c, [STX] + Escape(body) + [ETX] + [STX, ETX]);
            var n := |Started(p).outputs|;
            && |r.outputs| == n + 2 && r.outputs[n].CrcFailed? && r.outputs[n + 1].Delivered?
            && r.outputs[n + 1].frame == [] && r.outputs[n + 1].command == body + p.memory[|body|..]
  {
    ParseWhole(p, c, body);
    ParseAppend(p, c, [STX] + Escape(body) + [ETX], [STX, ETX]);
    EmptyFrameIsDelivered(ParseAll(p, c, [STX] + Escape(body) + [ETX]), c);
  }

  /** A changed byte, or two changed adjacent bytes, of a frame and its CRC are noticed by the firmware. */
  lemma CorruptFrameIsRefused(p: Parser, c: Controller, before: seq<Byte>, x: seq<Byte>, y: seq<Byte>,
                              after: seq<Byte>)
    requires p.mode != UnMaskChar && |before + x + after| <= |p.memory|
    requires |x| == |y| <= 2 && x != y
    requires CrcOf(before + x + after) == Zeros(16)
    ensures var r := ParseAll(p, c, [STX] + Escape(before + y + after) + [ETX]);
            && r.mode == WaitForSTX && r.outputs == Started(p).outputs + [CrcFailed(r.memory[0])]
            && Deliveries(r.outputs) == Deliveries(p.outputs)
  {
    AdjacentBytesDetected(before, x, y, after);
    ParseStart(p, c);
    ParseWhole(p, c, before + y + after);
    var r := ParseAll(p, c, [STX] + Escape(before + y + after) + [ETX]);
    DeliveriesAppend(Started(p).outputs, [CrcFailed(r.memory[0])]);
    DeliveriesOne(CrcFailed(r.memory[0]));
  }

  // ---------- the decoder of the client ----------

  lemma {:induction false} UnmaskAppend(u: Unmasker, capacity: nat, a: seq<Byte>, b: seq<Byte>, check: bool, le: bool)
    ensures var r := UnmaskAll(u, capacity, a, check, le);
            UnmaskAll(u, capacity, a + b, check, le)
            == if r.More? then UnmaskAll(r.state, capacity, b, check, le) else r
    decreases |b|
  {
    if b == [] {
      assert a + b == a;
    } else {
      assert (a + b)[..|a + b| - 1] == a + b[..|b| - 1];
      UnmaskAppend(u, capacity, a, b[..|b| - 1], check, le);
    }
  }

  lemma UnmaskOne(u: Unmasker, capacity: nat, b: Byte, check: bool, le: bool)
    ensures UnmaskAll(u, capacity, [b], check, le) == Unmask(u, capacity, b, check, le)
  {
    assert [b][..0] == [];
  }

  lemma UnmaskEscaped(u: Unmasker, capacity: nat, b: Byte, check: bool, le: bool)
    requires !u.lastWasDLE && |u.data| < capacity
    ensures UnmaskAll(u, capacity, EscapeByte(b), check, le) == More(Unmasker(u.data + [b], false))
  {
    ControlsDistinct();
    if IsCtrlChar(b) {
      UnmaskOne(u, capacity, DLE, check, le);
      assert [DLE, b][..1] == [DLE];
    } else {
      UnmaskOne(u, capacity, b, check, le);
    }
  }

  lemma UnmaskNext(u: Unmasker, capacity: nat, done: seq<Byte>, data: seq<Byte>, b: Byte, check: bool, le: bool)
    requires UnmaskAll(u, capacity, done, check, le) == More(Unmasker(data, false)) && |data| < capacity
    ensures UnmaskAll(u, capacity, done + EscapeByte(b), check, le) == More(Unmasker(data + [b], false))
  {
    UnmaskAppend(u, capacity, done, EscapeByte(b), check, le);
    UnmaskEscaped(Unmasker(data, false), capacity, b, check, le);
  }

  lemma TakeLast(a: seq<Byte>, s: seq<Byte>)
    requires s != []
    ensures a + s[..|s| - 1] + [s[|s| - 1]] == a + s
  {
  }

  lemma {:induction false} UnmaskEscape(u: Unmasker, capacity: nat, s: seq<Byte>, check: bool, le: bool)
    requires !u.lastWasDLE && |u.data| + |s| <= capacity
    ensures UnmaskAll(u, capacity, Escape(s), check, le) == More(Unmasker(u.data + s, false))
    decreases |s|
  {
    if s == [] {
      assert u.data + s == u.data;
    } else {
      var n := |s| - 1;
      UnmaskEscape(u, capacity, s[..n], check, le);
      UnmaskNext(u, capacity, Escape(s[..n]), u.data + s[..n], s[n], check, le);
      EscapeLast(s);
      TakeLast(u.data, s);
    }
  }

  /** The CRC test accepts exactly the trailer that the encoder appends, in both byte orders. */
  lemma CrcMatchesTrailer(payload: seq<Byte>, t: seq<Byte>, le: bool)
    requires |t| == 2
    ensures CrcMatches(payload + t, le) <==> t == Trailer(payload, le)
  {
    var data := payload + t;
    assert data[..|data| - 2] == payload;
    assert t == [t[0], t[1]];
    BytesResidueZero(CrcOf(payload), t[1], t[0]);
    FrameResidue(payload, t[0], t[1]);
  }

  lemma UnmaskWhole(u: Unmasker, capacity: nat, body: seq<Byte>, check: bool, le: bool)
    requires !u.lastWasDLE && |body| <= capacity
    ensures UnmaskAll(u, capacity, [STX] + Escape(body) + [ETX], check, le) == Finish(body, check, le)
  {
    ControlsDistinct();
    UnmaskAppend(u, capacity, [STX] + Escape(body), [ETX], check, le);
    UnmaskAppend(u, capacity, [STX], Escape(body), check, le);
    UnmaskOne(u, capacity, STX, check, le);
    UnmaskEscape(Unmasker([], false), capacity, body, check, le);
    assert [] + body == body;
    UnmaskOne(Unmasker(body, false), capacity, ETX, check, le);
  }

  /** The client recovers the payload of every frame that fits, after any earlier unfinished input. */
  lemma UnmaskerReceives(u: Unmasker, capacity: nat, payload: seq<Byte>, le: bool)
    requires !u.lastWasDLE && |payload| + 2 <= capacity
    ensures UnmaskAll(u, capacity, Frame(payload, le), true, le) == Complete(payload)
  {
    var body := payload + Trailer(payload, le);
    UnmaskWhole(u, capacity, body, true, le);
    CrcMatchesTrailer(payload, Trailer(payload, le), le);
    assert body[..|body| - 2] == payload;
  }

  /** Without the CRC test it recovers everything between STX and ETX. */
  lemma UnmaskerReceivesUnchecked(u: Unmasker, capacity: nat, body: seq<Byte>, le: bool)
    requires !u.lastWasDLE && |body| <= capacity
    ensures UnmaskAll(u, capacity, [STX] + Escape(body) + [ETX], false, le) == Complete(body)
  {
    UnmaskWhole(u, capacity, body, false, le);
  }

  /** With it, a frame without room for a CRC is a fault. */
  lemma ShortFrameFaults(u: Unmasker, capacity: nat, body: seq<Byte>)
    requires !u.lastWasDLE && |body| < 2 <= capacity
    ensures UnmaskAll(u, capacity, [STX] + Escape(body) + [ETX], true, true) == OutOfBounds
    ensures UnmaskAll(u, capacity, [STX] + Escape(body) + [ETX], true, false)
            == if body == [] || body == [ZERO] then Underrun else Complete([])
  {
    UnmaskWhole(u, capacity, body, true, true);
    UnmaskWhole(u, capacity, body, true, false);
    ShortResidues(body);
  }

  /** More bytes than the buffer holds are the exception for a full buffer. */
  lemma UnmaskerOverflows(u: Unmasker, capacity: nat, body: seq<Byte>, more: seq<Byte>, check: bool, le: bool)
    requires !u.lastWasDLE && |u.data| <= capacity < |u.data| + |body|
    ensures UnmaskAll(u, capacity, Escape(body) + more, check, le) == Overflow
  {
    var n := capacity - |u.data|;
    EscapeSplit(body, n, more);
    OverflowsAt(u, capacity, body[..n], body[n], Escape(body[n + 1..]) + more, check, le);
  }

  lemma OverflowsAt(u: Unmasker, capacity: nat, fits: seq<Byte>, b: Byte, more: seq<Byte>, check: bool, le: bool)
    requires !u.lastWasDLE && |u.data| + |fits| == capacity
    ensures UnmaskAll(u, capacity, Escape(fits) + EscapeByte(b) + more, check, le) == Overflow
  {
    UnmaskEscape(u, capacity, fits, check, le);
    FullOverflows(Unmasker(u.data + fits, false), capacity, b, check, le);
    UnmaskAppend(u, capacity, Escape(fits), EscapeByte(b), check, le);
    UnmaskAppend(u, capacity, Escape(fits) + EscapeByte(b), more, check, le);
  }

  lemma EscapeSplit(s: seq<Byte>, n: nat, more: seq<Byte>)
    requires n < |s|
    ensures Escape(s) + more == Escape(s[..n]) + EscapeByte(s[n]) + (Escape(s[n + 1..]) + more)
  {
    var rest := s[n..];
    assert s[..n] + rest == s && [s[n]] + s[n + 1..] == rest;
    EscapeAppend(s[..n], rest);
    EscapeAppend([s[n]], s[n + 1..]);
    EscapeOne(s[n]);
    Regroup(Escape(s[..n]), EscapeByte(s[n]), Escape(s[n + 1..]), more);
  }

  lemma Regroup(a: seq<Byte>, b: seq<Byte>, c: seq<Byte>, d: seq<Byte>)
    ensures a + (b + c) + d == a + b + (c + d)
  {
  }

  lemma EscapeOne(b: Byte)
    ensures Escape([b]) == EscapeByte(b)
  {
    assert [b][..0] == [];
  }

  lemma {:induction false} EscapeAppend(a: seq<Byte>, b: seq<Byte>)
    ensures Escape(a + b) == Escape(a) + Escape(b)
    decreases |b|
  {
    if b == [] {
      assert a + b == a;
    } else {
      var n := |b| - 1;
      assert (a + b)[..|a + b| - 1] == a + b[..n];
      EscapeAppend(a, b[..n]);
      Regroup(Escape(a), Escape(b[..n]), EscapeByte(b[n]), []);
    }
  }

  lemma FullOverflows(u: Unmasker, capacity: nat, b: Byte, check: bool, le: bool)
    requires !u.lastWasDLE && |u.data| == capacity
    ensures UnmaskAll(u, capacity, EscapeByte(b), check, le) == Overflow
  {
    ControlsDistinct();
    if IsCtrlChar(b) {
      UnmaskOne(u, capacity, DLE, check, le);
      assert [DLE, b][..1] == [DLE];
    } else {
      UnmaskOne(u, capacity, b, check, le);
    }
  }

  /** While bytes come in, each adds at most one byte to the buffer. */
  lemma {:induction false} UnmaskBounded(u: Unmasker, capacity: nat, s: seq<Byte>, check: bool, le: bool)
    ensures var r := UnmaskAll(u, capacity, s, check, le);
            && (r.More? ==> |r.state.data| <= |u.data| + |s|)
            && (|u.data| + |s| <= capacity ==> !r.Overflow?)
    decreases |s|
  {
    if s != [] { UnmaskBounded(u, capacity, s[..|s| - 1], check, le); }
  }

  /** The client notices every change of one byte or of two adjacent bytes in the firmware's byte order. In the
      bootloader's order exactly one change slips through, and a wrong payload is returned. */
  lemma UnmaskerRefuses(u: Unmasker, capacity: nat, before: seq<Byte>, x: seq<Byte>, y: seq<Byte>, after: seq<Byte>,
                        le: bool)
    requires !u.lastWasDLE && 2 <= |before + x + after| <= capacity
    requires |x| == |y| <= 2 && x != y
    requires CrcMatches(before + x + after, le)
    ensures var body := before + y + after;
            UnmaskAll(u, capacity, [STX] + Escape(body) + [ETX], true, le)
            == Complete(if le && Hidden(x, y, after) then body[..|body| - 2] else [])
  {
    UnmaskWhole(u, capacity, before + y + after, true, le);
    if !le {
      AdjacentBytesDetected(before, x, y, after);
    } else if |x| == 2 {
      TwoBytesDetected(before, x, y, after);
    } else {
      assert x == [x[0]] && y == [y[0]];
      OneByteDetected(before, x[0], y[0], after);
    }
  }

  /** An instance of it: two frames of the bootloader that differ in two adjacent bytes. */
  lemma HiddenChange()
    ensures CrcMatches([ZERO, ZERO, ZERO], true) && CrcMatches([Byte(X89), Byte(XA1), ZERO], true)
  {
    var z, t := [] + [ZERO, ZERO] + [ZERO], [] + [Byte(X89), Byte(XA1)] + [ZERO];
    assert z == [ZERO, ZERO, ZERO] && t == [Byte(X89), Byte(XA1), ZERO];
    ZeroBits(Zeros(16), ZERO.bits);
    OneByteCrc(ZERO);
    assert z[..|z| - 2] == [ZERO];
    assert CrcMatches(z, true);
    PlusZeros(X89);
    PlusZeros(XA1);
    TwoBytesDetected([], [ZERO, ZERO], [Byte(X89), Byte(XA1)], [ZERO]);
  }
}

/** From the client to the script controller: encoder, receive ring and parser put together. */
module Link {
  import opened Bits
  import opened Crc
  import opened CrcTheorems
  import opened Framing
  import opened FramingTheorems
  import opened CommandIO
  import opened MaskBuffer
  import RingBuf
  import RingBufInterrupts

  /** The receive interrupt for each byte while the main program is busy: what does not fit is lost, and the
      error flag says so. */
  method Transmit(bytes: seq<Byte>, ring: RingBuf.Buffer<Byte>)
    requires ring.Valid() && ring.contents == [] && !ring.errorFull
    modifies ring, ring.data
    ensures ring.Valid()
    ensures if |bytes| < RingBuf.SIZE then ring.contents == bytes && !ring.errorFull else ring.errorFull
  {
    for i := 0 to |bytes|
      invariant ring.Valid()
      invariant if i < RingBuf.SIZE then ring.contents == bytes[..i] && !ring.errorFull else ring.errorFull
    {
      ring.Put(bytes[i]);
    }
  }

  lemma ErroredDelivers(p: Parser)
    ensures Deliveries(Errored(p).outputs) == Deliveries(p.outputs)
  {
    DeliveriesAppend(p.outputs, [BadPacket(p.memory[1])]);
    DeliveriesOne(BadPacket(p.memory[1]));
  }

  /** The main program gets round to it. */
  method Process(ghost payload: seq<Byte>, ring: RingBuf.Buffer<Byte>, target: CommandBuffer)
    requires ring.Valid() && (ring.errorFull || ring.contents == Frame(payload, false))
    requires target.Valid() && target.state != UnMaskChar && |payload| + 2 <= target.buffer.Length
    requires ring.data != target.buffer
    modifies ring, target, target.buffer
    ensures ring.Valid() && ring.contents == [] && !ring.errorFull
    ensures target.Valid() && target.state != UnMaskChar
    ensures Deliveries(target.outputs)
            == Deliveries(old(target.outputs)) + if old(ring.errorFull) then [] else [payload + Trailer(payload, false)]
  {
    ghost var before := target.Contents();
    target.GetCommands(ring);
    ErroredDelivers(before);
    ParserReceives(before, target.controller, payload);
  }

  /** A command is encoded by the client, received while the main program is busy, and parsed. The client raises
      its exception exactly if the frame does not fit its buffer; otherwise the script controller is given exactly
      the payload and its CRC if the frame fits the ring, and nothing at all if it does not. */
  method SendCommand(payload: seq<Byte>, capacity: nat, ring: RingBuf.Buffer<Byte>, target: CommandBuffer)
    returns (sent: bool)
    requires ring.Valid() && ring.contents == [] && !ring.errorFull
    requires target.Valid() && target.state != UnMaskChar && |payload| + 2 <= target.buffer.Length
    requires ring.data != target.buffer
    modifies ring, ring.data, target, target.buffer
    ensures ring.Valid() && ring.contents == [] && !ring.errorFull
    ensures target.Valid() && target.state != UnMaskChar
    ensures sent <==> |Frame(payload, false)| <= capacity
    ensures !sent ==> target.outputs == old(target.outputs)
    ensures sent ==>
              Deliveries(target.outputs)
              == Deliveries(old(target.outputs))
                 + if |Frame(payload, false)| < RingBuf.SIZE then [payload + Trailer(payload, false)] else []
  {
    var masker := new Masker(capacity);
    if masker.failed {
      return false;
    }
    masker.Mask(payload, false);
    sent := !masker.failed;
    if sent {
      Transmit(masker.mData[..masker.mLength], ring);
      Process(payload, ring, target);
    }
  }

  // ---------- with the interrupt at any place ----------

  /** While every byte finds room, the flag stays down and RingBuf_Init does not run. */
  ghost predicate AllAccepted(s: RingBufInterrupts.State<Byte>, arrived: seq<Byte>) {
    && RingBufInterrupts.Inv(s)
    && (s.errorFull ==> s.refused > 0)
    && (s.refused == 0 ==> s.accepted + s.pending == arrived)
  }

  lemma AcceptedNext(s: RingBufInterrupts.State<Byte>, arrived: seq<Byte>, step: RingBufInterrupts.Step<Byte>)
    requires AllAccepted(s, arrived)
    ensures RingBufInterrupts.Inv(RingBufInterrupts.Next(s, step))
    ensures AllAccepted(RingBufInterrupts.Next(s, step), arrived + if step.Arrive? then [step.byte] else [])
  {
    RingBufInterrupts.NextKeepsInv(s, step);
    if step.Arrive? {
      assert s.accepted + s.pending + [step.byte] == s.accepted + (s.pending + [step.byte]);
    } else {
      assert arrived + [] == arrived;
      if step.Interrupt? && s.pending != [] {
        assert s.accepted + [s.pending[0]] + s.pending[1..] == s.accepted + s.pending;
      }
    }
  }

  lemma {:induction false} NothingMissing(s: RingBufInterrupts.State<Byte>, arrived: seq<Byte>,
                                          steps: seq<RingBufInterrupts.Step<Byte>>)
    requires AllAccepted(s, arrived)
    ensures AllAccepted(RingBufInterrupts.Run(s, steps), arrived + RingBufInterrupts.Arrivals(steps))
    decreases |steps|
  {
    if steps == [] {
      assert arrived + [] == arrived;
    } else {
      AcceptedNext(s, arrived, steps[0]);
      var now := arrived + if steps[0].Arrive? then [steps[0].byte] else [];
      NothingMissing(RingBufInterrupts.Next(s, steps[0]), now, steps[1..]);
      assert now + RingBufInterrupts.Arrivals(steps[1..]) == arrived + RingBufInterrupts.Arrivals(steps);
    }
  }

  lemma {:induction false} DeliveriesGrow(p: Parser, c: Controller, a: seq<Byte>, b: seq<Byte>)
    requires Held(p)
    ensures Deliveries(ParseAll(p, c, a).outputs) <= Deliveries(ParseAll(p, c, a + b).outputs)
  {
    ParserSound(p, c, a);
    ParseAppend(p, c, a, b);
    var q, r := ParseAll(p, c, a), ParseAll(p, c, a + b);
    ParserSound(q, c, b);
    assert r.outputs == q.outputs + r.outputs[|q.outputs|..];
    DeliveriesAppend(q.outputs, r.outputs[|q.outputs|..]);
  }

  /** Then what has arrived was taken, is in the ring, or waits in the receive register. */
  lemma ArrivedOrWaiting(s: RingBufInterrupts.State<Byte>, steps: seq<RingBufInterrupts.Step<Byte>>)
    requires RingBufInterrupts.Starts(s)
    ensures var r := RingBufInterrupts.Run(s, steps);
            r.refused == 0 && r.main.Idle? ==>
              RingBufInterrupts.Arrivals(steps)
              == r.taken + (RingBuf.Between(r.data, r.read, r.write) + r.pending)
  {
    assert RingBuf.Between(s.data, 0, 0) == [];
    NothingMissing(s, [], steps);
    RingBufInterrupts.NothingReordered(s, steps);
    assert [] + RingBufInterrupts.Arrivals(steps) == RingBufInterrupts.Arrivals(steps);
    var r := RingBufInterrupts.Run(s, steps);
    Joined(r.taken, RingBuf.Between(r.data, r.read, r.write), r.pending);
  }

  lemma Joined(a: seq<Byte>, b: seq<Byte>, c: seq<Byte>)
    ensures a + b + c == a + (b + c)
  {
  }

  lemma FramesTaken(p: Parser, c: Controller, payloads: seq<seq<Byte>>, taken: seq<Byte>, waiting: seq<Byte>)
    requires Held(p) && p.mode != UnMaskChar && Frames(payloads) == taken + waiting
    requires forall i | 0 <= i < |payloads| :: |payloads[i]| + 2 <= |p.memory|
    ensures Deliveries(ParseAll(p, c, taken).outputs) <= Deliveries(p.outputs) + WithTrailers(payloads)
    ensures waiting == [] ==>
              Deliveries(ParseAll(p, c, taken).outputs) == Deliveries(p.outputs) + WithTrailers(payloads)
  {
    ParserReceivesAll(p, c, payloads);
    DeliveriesGrow(p, c, taken, waiting);
    if waiting == [] { assert taken + waiting == taken; }
  }

  /** Whatever the interrupt interrupts: as long as every byte finds room, the script controller is given the sent
      payloads with their CRCs, in order and nothing else, and all of them once nothing is waiting. */
  lemma FramesArrive(s: RingBufInterrupts.State<Byte>, steps: seq<RingBufInterrupts.Step<Byte>>,
                     p: Parser, c: Controller, payloads: seq<seq<Byte>>)
    requires RingBufInterrupts.Starts(s) && RingBufInterrupts.Arrivals(steps) == Frames(payloads)
    requires Held(p) && p.mode != UnMaskChar
    requires forall i | 0 <= i < |payloads| :: |payloads[i]| + 2 <= |p.memory|
    ensures var r := RingBufInterrupts.Run(s, steps);
            r.refused == 0 && r.main.Idle? ==>
              && Deliveries(ParseAll(p, c, r.taken).outputs) <= Deliveries(p.outputs) + WithTrailers(payloads)
              && (r.read == r.write && r.pending == [] ==>
                    Deliveries(ParseAll(p, c, r.taken).outputs) == Deliveries(p.outputs) + WithTrailers(payloads))
  {
    ArrivedOrWaiting(s, steps);
    var r := RingBufInterrupts.Run(s, steps);
    if r.refused == 0 && r.main.Idle? {
      FramesTaken(p, c, payloads, r.taken, RingBuf.Between(r.data, r.read, r.write) + r.pending);
    }
  }
}

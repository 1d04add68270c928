/** library/ComProxy.cpp: receiving one framed response through a socket that delivers fragments. */
module ComProxy {
  import opened Bits
  import opened Crc
  import opened CrcTheorems
  import opened Framing
  import opened FramingTheorems
  import opened MaskBuffer

  datatype Response = Received(data: seq<Byte>) | TimedOut | Fault(kind: Outcome)

  function Min(a: nat, b: nat): nat {
    if a < b then a else b
  }

  /** One pass of the loop of ComProxy::Recv: the socket is asked for no more than there is room for. */
  method RecvFragment(recvBuffer: Unmasking, incoming: seq<Byte>, taken: nat, size: nat, checkCrc: bool, le: bool,
                      ghost start: Unmasker) returns (end: Outcome, now: nat)
    requires recvBuffer.Valid() && taken <= |incoming|
    requires UnmaskAll(start, recvBuffer.mData.Length, incoming[..taken], checkCrc, le) == More(recvBuffer.State())
    modifies recvBuffer, recvBuffer.mData
    ensures recvBuffer.Sized() && taken <= now <= |incoming| && end != OverflowFault
    ensures recvBuffer.Agrees(end, UnmaskAll(start, recvBuffer.mData.Length, incoming[..now], checkCrc, le))
    ensures now - taken <= recvBuffer.mData.Length - old(recvBuffer.mLength)
    ensures now == taken ==> recvBuffer.mLength == old(recvBuffer.mLength)
    ensures size > 0 && taken < |incoming| && old(recvBuffer.mLength) < recvBuffer.mData.Length ==> now > taken
  {
    var bytesMasked := Min(size, Min(|incoming| - taken, recvBuffer.mData.Length - recvBuffer.mLength));
    now := taken + bytesMasked;
    ghost var s := FragmentFits(start, recvBuffer.State(), recvBuffer.mData.Length, incoming, taken, now, checkCrc, le);
    end := recvBuffer.UnmaskBytes(incoming[taken..now], checkCrc, le);
  }

  /** The decoding function says what ComProxy::Recv returns. */
  ghost predicate Describes(r: Response, s: Status) {
    match r
    case Received(data) => s == Complete(data)
    case TimedOut => s.More?
    case Fault(kind) => (s.Underrun? && kind == UnderrunFault) || (s.OutOfBounds? && kind == OutOfBoundsFault)
  }

  /** A socket that always has something to hand over delivers a byte in each pass, unless the buffer is full. */
  ghost predicate Progress(sizes: seq<nat>, passes: nat, incoming: seq<Byte>, taken: nat, used: nat, length: nat) {
    (forall i | 0 <= i < |sizes| :: sizes[i] > 0) ==> taken >= Min(passes, |incoming|) || used == length
  }

  ghost function Decoded(incoming: seq<Byte>, taken: nat, length: nat, checkCrc: bool, le: bool): Status
    requires taken <= |incoming|
  {
    UnmaskAll(Unmasker([], false), length, incoming[..taken], checkCrc, le)
  }

  /** What comes in is a body between STX and ETX that is shorter than the buffer, from a socket that is never
      silent. */
  ghost predicate Arriving(incoming: seq<Byte>, body: seq<Byte>, sizes: seq<nat>, length: nat) {
    && incoming == [STX] + Escape(body) + [ETX] && |body| < length && |incoming| <= |sizes|
    && forall i | 0 <= i < |sizes| :: sizes[i] > 0
  }

  /** What is between STX and ETX for a payload: with the CRC test there is a CRC behind it. */
  function BodyOf(payload: seq<Byte>, checkCrc: bool, le: bool): seq<Byte> {
    if checkCrc then payload + Trailer(payload, le) else payload
  }

  /** ComProxy::Recv. `incoming` is what the target sends. In pass i of the loop the socket hands over at
      most sizes[i] bytes, not more than are there and not more than it is asked for; after the last
      pass the timeout has passed. `taken` counts the bytes received. The result is never the exception
      for a full buffer, for any input cut in any way. A whole frame yields its payload if what is between STX and
      ETX is shorter than the buffer; if that fills it the frame is never received completely, because its ETX is
      not asked for any more. */
  method Recv(incoming: seq<Byte>, sizes: seq<nat>, length: nat, checkCrc: bool, le: bool, ghost payload: seq<Byte>)
    returns (r: Response, taken: nat)
    ensures taken <= |incoming|
    ensures Describes(r, Decoded(incoming, taken, length, checkCrc, le))
    ensures r.TimedOut? ==>
              var u := Decoded(incoming, taken, length, checkCrc, le).state;
              Progress(sizes, |sizes|, incoming, taken, |u.data|, length)
    ensures checkCrc && incoming == Frame(payload, le) && |payload| + 2 >= length ==> taken < |incoming|
    ensures !checkCrc && incoming == [STX] + Escape(payload) + [ETX] && |payload| >= length ==> taken < |incoming|
    ensures checkCrc && Arriving(incoming, payload + Trailer(payload, le), sizes, length) ==>
              r == Received(payload) && taken == |incoming|
    ensures !checkCrc && Arriving(incoming, payload, sizes, length) ==>
              r == Received(payload) && taken == |incoming|
  {
    var recvBuffer := new Unmasking(length);
    taken := 0;
    ghost var body := BodyOf(payload, checkCrc, le);
    var pass := 0;
    while pass < |sizes|
      invariant pass <= |sizes| && taken <= |incoming|
      invariant recvBuffer.Valid() && recvBuffer.mData.Length == length
      invariant fresh(recvBuffer) && fresh(recvBuffer.mData)
      invariant Decoded(incoming, taken, length, checkCrc, le) == More(recvBuffer.State())
      invariant Progress(sizes, pass, incoming, taken, recvBuffer.mLength, length)
      invariant Unfilled(incoming, body, length, taken)
    {
      ghost var before, state := taken, recvBuffer.State();
      var end;
      end, taken := RecvFragment(recvBuffer, incoming, taken, sizes[pass], checkCrc, le, Unmasker([], false));
      EndNotAsked(incoming, body, length, state, before, taken, checkCrc, le);
      if end != NeedMore {
        r := if end == EndOfFrame then Received(recvBuffer.mData[..recvBuffer.mLength]) else Fault(end);
        Arrived(incoming, payload, length, sizes, checkCrc, le, r, taken);
        NeverFinished(incoming, payload, length, checkCrc, le, taken);
        return;
      }
      pass := pass + 1;
    }
    r := TimedOut;
    Arrived(incoming, payload, length, sizes, checkCrc, le, r, taken);
    NeverFinished(incoming, payload, length, checkCrc, le, taken);
  }

  lemma NeverFinished(incoming: seq<Byte>, payload: seq<Byte>, length: nat, checkCrc: bool, le: bool, taken: nat)
    requires taken <= |incoming|
    requires Unfilled(incoming, BodyOf(payload, checkCrc, le), length, taken)
    ensures checkCrc && incoming == Frame(payload, le) && |payload| + 2 >= length ==> taken < |incoming|
    ensures !checkCrc && incoming == [STX] + Escape(payload) + [ETX] && |payload| >= length ==> taken < |incoming|
  {
    FrameEncloses(payload, le);
  }

  lemma FrameEncloses(payload: seq<Byte>, le: bool)
    ensures Frame(payload, le) == Enclosed(BodyOf(payload, true, le)) && |BodyOf(payload, true, le)| == |payload| + 2
    ensures [STX] + Escape(payload) + [ETX] == Enclosed(BodyOf(payload, false, le))
  {
  }

  lemma Arrived(incoming: seq<Byte>, payload: seq<Byte>, length: nat, sizes: seq<nat>, checkCrc: bool, le: bool,
                r: Response, taken: nat)
    requires taken <= |incoming|
    requires var s := Decoded(incoming, taken, length, checkCrc, le);
             && Describes(r, s)
             && (r.TimedOut? ==> Progress(sizes, |sizes|, incoming, taken, |s.state.data|, length))
    ensures Arriving(incoming, BodyOf(payload, checkCrc, le), sizes, length) ==>
              r == Received(payload) && taken == |incoming|
  {
    var body := BodyOf(payload, checkCrc, le);
    if Arriving(incoming, body, sizes, length) {
      BodyArrives(body, length, sizes, checkCrc, le, r, taken);
      if checkCrc { FrameFinishes(payload, le); }
    }
  }

  lemma FragmentFits(start: Unmasker, u: Unmasker, length: nat, incoming: seq<Byte>, taken: nat, now: nat,
                     checkCrc: bool, le: bool) returns (s: Status)
    requires taken <= now <= |incoming| && |u.data| + (now - taken) <= length
    requires UnmaskAll(start, length, incoming[..taken], checkCrc, le) == More(u)
    ensures s == UnmaskAll(start, length, incoming[..now], checkCrc, le)
    ensures s == UnmaskAll(u, length, incoming[taken..now], checkCrc, le)
    ensures !s.Overflow? && (now == taken ==> s == More(u))
  {
    assert incoming[..now] == incoming[..taken] + incoming[taken..now];
    UnmaskAppend(start, length, incoming[..taken], incoming[taken..now], checkCrc, le);
    UnmaskBounded(u, length, incoming[taken..now], checkCrc, le);
    s := UnmaskAll(u, length, incoming[taken..now], checkCrc, le);
  }

  // ---------- what a received frame is ----------

  /** A larger buffer decodes the same. */
  lemma {:induction false} UnmaskLarger(u: Unmasker, small: nat, large: nat, s: seq<Byte>, checkCrc: bool, le: bool)
    requires small <= large
    ensures var r := UnmaskAll(u, small, s, checkCrc, le);
            r.Overflow? || UnmaskAll(u, large, s, checkCrc, le) == r
    decreases |s|
  {
    if s != [] { UnmaskLarger(u, small, large, s[..|s| - 1], checkCrc, le); }
  }

  /** A part of an escaped text puts no more than the text into the buffer, and what is missing of the
      text is at most as long as what is missing of its escaped form. */
  lemma {:induction false} EscapePrefix(u: Unmasker, capacity: nat, s: seq<Byte>, k: nat, check: bool, le: bool)
    requires !u.lastWasDLE && |u.data| + |s| <= capacity && k <= |Escape(s)|
    ensures var r := UnmaskAll(u, capacity, Escape(s)[..k], check, le);
            && r.More? && |r.state.data| <= |u.data| + |s|
            && |u.data| + |s| + k <= |r.state.data| + |Escape(s)|
    decreases |s|
  {
    if k == |Escape(s)| {
      assert Escape(s)[..k] == Escape(s);
      UnmaskEscape(u, capacity, s, check, le);
    } else {
      var init, b := s[..|s| - 1], s[|s| - 1];
      EscapeLast(s);
      if k <= |Escape(init)| {
        EscapePrefix(u, capacity, init, k, check, le);
        assert Escape(s)[..k] == Escape(init)[..k];
      } else {
        assert Escape(s)[..k] == Escape(init) + [DLE];
        HalfEscaped(u, capacity, init, check, le);
      }
    }
  }

  /** The first half of an escaped byte. */
  lemma HalfEscaped(u: Unmasker, capacity: nat, s: seq<Byte>, check: bool, le: bool)
    requires !u.lastWasDLE && |u.data| + |s| <= capacity
    ensures UnmaskAll(u, capacity, Escape(s) + [DLE], check, le) == More(Unmasker(u.data + s, true))
  {
    ControlsDistinct();
    UnmaskEscape(u, capacity, s, check, le);
    UnmaskAppend(u, capacity, Escape(s), [DLE], check, le);
    UnmaskOne(Unmasker(u.data + s, false), capacity, DLE, check, le);
  }

  /** A body between STX and ETX. */
  function Enclosed(body: seq<Byte>): seq<Byte> {
    [STX] + Escape(body) + [ETX]
  }

  /** While a body that fills the buffer is received, its ETX has not been taken. */
  ghost predicate Unfilled(incoming: seq<Byte>, body: seq<Byte>, length: nat, taken: nat) {
    incoming == Enclosed(body) && |body| >= length ==> taken < |incoming|
  }

  /** A read that asks for no more than there is room for does not take it either. */
  lemma EndNotAsked(incoming: seq<Byte>, body: seq<Byte>, length: nat, u: Unmasker, taken: nat, now: nat,
                    check: bool, le: bool)
    requires taken <= now <= |incoming| && now - taken <= length - |u.data|
    requires Decoded(incoming, taken, length, check, le) == More(u) && Unfilled(incoming, body, length, taken)
    ensures Unfilled(incoming, body, length, now)
  {
    if incoming == Enclosed(body) && taken < |incoming| {
      FrameUnfinished(body, length, taken, check, le);
    }
  }

  /** The part before the last byte completes nothing. */
  lemma FrameUnfinished(body: seq<Byte>, length: nat, taken: nat, check: bool, le: bool)
    requires taken < |Enclosed(body)|
    requires !Decoded(Enclosed(body), taken, length, check, le).Overflow?
    ensures var r := Decoded(Enclosed(body), taken, length, check, le);
            && r.More? && |r.state.data| <= |body| && |body| + taken < |r.state.data| + |Enclosed(body)|
  {
    var start, f := Unmasker([], false), Enclosed(body);
    var large := length + |body|;
    UnmaskLarger(start, length, large, f[..taken], check, le);
    EscapePrefix(start, large, body, if taken == 0 then 0 else taken - 1, check, le);
    if taken > 0 {
      FrameBegins(body, large, taken, check, le);
    }
  }

  lemma FrameBegins(body: seq<Byte>, length: nat, taken: nat, check: bool, le: bool)
    requires 0 < taken < |Enclosed(body)|
    ensures var start := Unmasker([], false);
            UnmaskAll(start, length, Enclosed(body)[..taken], check, le)
            == UnmaskAll(start, length, Escape(body)[..taken - 1], check, le)
  {
    var start, escaped := Unmasker([], false), Escape(body);
    ControlsDistinct();
    assert Enclosed(body)[..taken] == [STX] + escaped[..taken - 1];
    UnmaskAppend(start, length, [STX], escaped[..taken - 1], check, le);
    UnmaskOne(start, length, STX, check, le);
  }

  /** A body is received exactly when all its bytes arrive. */
  lemma BodyReceived(body: seq<Byte>, length: nat, taken: nat, check: bool, le: bool, r: Status)
    requires taken <= |Enclosed(body)|
    requires r == UnmaskAll(Unmasker([], false), length, Enclosed(body)[..taken], check, le)
    requires !r.Overflow?
    ensures taken == |Enclosed(body)| ==> r == Finish(body, check, le)
    ensures r.More? <==> taken < |Enclosed(body)|
  {
    if taken == |Enclosed(body)| {
      var start, f := Unmasker([], false), Enclosed(body);
      assert f[..taken] == f;
      UnmaskLarger(start, length, length + |body|, f, check, le);
      UnmaskWhole(start, length + |body|, body, check, le);
    } else {
      FrameUnfinished(body, length, taken, check, le);
    }
  }

  lemma FrameFinishes(payload: seq<Byte>, le: bool)
    ensures Finish(payload + Trailer(payload, le), true, le) == Complete(payload)
  {
    var body := payload + Trailer(payload, le);
    CrcMatchesTrailer(payload, Trailer(payload, le), le);
    assert body[..|body| - 2] == payload;
  }

  /** A frame is received exactly when all its bytes have been taken. */
  lemma FrameReceived(payload: seq<Byte>, le: bool, length: nat, taken: nat, r: Status)
    requires taken <= |Frame(payload, le)|
    requires r == UnmaskAll(Unmasker([], false), length, Frame(payload, le)[..taken], true, le)
    requires !r.Overflow?
    ensures r == Complete(payload) <==> taken == |Frame(payload, le)|
    ensures r.More? <==> taken < |Frame(payload, le)|
  {
    BodyReceived(payload + Trailer(payload, le), length, taken, true, le, r);
    FrameFinishes(payload, le);
  }

  /** If the body is shorter than the buffer and the socket is never silent, it arrives. */
  lemma BodyArrives(body: seq<Byte>, length: nat, sizes: seq<nat>, check: bool, le: bool, r: Response, taken: nat)
    requires taken <= |Enclosed(body)| && Arriving(Enclosed(body), body, sizes, length)
    requires var s := Decoded(Enclosed(body), taken, length, check, le);
             && Describes(r, s)
             && (r.TimedOut? ==> Progress(sizes, |sizes|, Enclosed(body), taken, |s.state.data|, length))
    ensures taken == |Enclosed(body)| && Describes(r, Finish(body, check, le))
  {
    var s := Decoded(Enclosed(body), taken, length, check, le);
    BodyReceived(body, length, taken, check, le, s);
    if taken < |Enclosed(body)| {
      FrameUnfinished(body, length, taken, check, le);
    }
  }

  /** A frame arrives if payload and CRC are shorter than the buffer. */
  lemma FrameArrives(payload: seq<Byte>, le: bool, length: nat, sizes: seq<nat>, r: Response, taken: nat)
    requires taken <= |Frame(payload, le)|
    requires Arriving(Frame(payload, le), payload + Trailer(payload, le), sizes, length)
    requires var s := Decoded(Frame(payload, le), taken, length, true, le);
             && Describes(r, s)
             && (r.TimedOut? ==> Progress(sizes, |sizes|, Frame(payload, le), taken, |s.state.data|, length))
    ensures r == Received(payload) && taken == |Frame(payload, le)|
  {
    BodyArrives(payload + Trailer(payload, le), length, sizes, true, le, r, taken);
    FrameFinishes(payload, le);
  }
}

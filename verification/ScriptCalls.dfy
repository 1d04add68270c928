/** Whole histories of the command ring: commands of a client, turns of the main cycle and timer interrupts in any
    order. */
module ScriptCalls {
  import opened ScriptMachine
  import opened ScriptRing
  import opened ScriptSemantics
  import opened ScriptTheorems

  // ---------- the loop stack, whatever is sent ----------

  /** LOOP_ONs minus LOOP_OFFs that are sent while no clear is pending, whether they are accepted or not. */
  function Balance(clearing: bool, calls: seq<Call>): int
    decreases |calls|
  {
    if calls == [] then 0
    else
      match calls[0]
      case Send(cmd) =>
        (if clearing then 0 else if cmd.LoopStart? then 1 else if cmd.LoopEnd? then -1 else 0)
        + Balance(clearing || cmd.ClearScript?, calls[1..])
      case Cycle => Balance(false, calls[1..])
      case _ => Balance(clearing, calls[1..])
  }

  /** The depth of the stack is what the client has sent; neither a clear nor a refused command changes that. */
  lemma {:induction false} DepthCounts(r: Ring, calls: seq<Call>)
    requires Shaped(r) && Fits(r, calls)
    ensures After(r, calls).loopDepth == r.loopDepth + Balance(r.isClearing, calls)
    decreases |calls|
  {
    if calls != [] {
      DepthCounts(Called(r, calls[0]), calls[1..]);
    }
  }

  // ---------- waiting ----------

  function Timer5s(calls: seq<Call>): nat {
    if calls == [] then 0 else (if calls[0].Timer5? then 1 else 0) + Timer5s(calls[1..])
  }

  /** The main cycle comes round only while some of `left` is left, and timer 1 interrupts only while at least 8 are;
      nothing is cleared. */
  predicate NoTurnDue(left: nat, calls: seq<Call>)
    decreases |calls|
  {
    calls == []
    || match calls[0]
       case Send(cmd) => !cmd.ClearScript? && NoTurnDue(left, calls[1..])
       case Cycle => left > 0 && NoTurnDue(left, calls[1..])
       case Timer5 => NoTurnDue(if left > 0 then left - 1 else 0, calls[1..])
       case Timer1 => left >= 8 && NoTurnDue(left, calls[1..])
  }

  /** While the time of an action is not over, whatever is sent, no turn of the main cycle does anything, and the time
      that is left is counted by timer 5 alone. */
  lemma {:induction false} StillWaiting(r: Ring, calls: seq<Call>)
    requires Shaped(r) && Fits(r, calls) && !r.isClearing && NoTurnDue(r.waitValue, calls)
    ensures var a := After(r, calls);
            && a.performed == r.performed && a.execute == r.execute && a.read == r.read && a.inLoop == r.inLoop
            && a.waitValue == (if Timer5s(calls) < r.waitValue then r.waitValue - Timer5s(calls) else 0)
            && !a.isClearing && (r.isRunning ==> a.isRunning)
    decreases |calls|
  {
    if calls != [] {
      CallWaits(r, calls[0]);
      StillWaiting(Called(r, calls[0]), calls[1..]);
    }
  }

  lemma CallWaits(r: Ring, call: Call)
    requires Shaped(r) && !r.isClearing && (call.Send? ==> InBounds(r, call.cmd) && !call.cmd.ClearScript?)
    requires (call.Cycle? ==> r.waitValue > 0) && (call.Timer1? ==> r.waitValue >= 8)
    ensures var a := Called(r, call);
            && a.performed == r.performed && a.execute == r.execute && a.read == r.read && a.inLoop == r.inLoop
            && a.waitValue == (if call.Timer5? && r.waitValue > 0 then r.waitValue - 1 else r.waitValue)
            && !a.isClearing && (r.isRunning ==> a.isRunning)
  {
  }

  /** A command that waits for time t: for t ticks of timer 5 nothing else is performed. */
  lemma WaitLasts(r: Ring, action: Action, t: nat, calls: seq<Call>)
    requires Shaped(r) && r.isRunning && !r.isClearing && r.waitValue == 0 && r.execute != r.write
    requires r.slots[r.execute] == LedCmd.Perform(action) && action.time == t
    requires match action
             case Wait(_) => true
             case SetFade(parallel, _, _) => parallel == 0
             case SetGradient(flags, _, _) => flags < 128
    requires Fits(Ran(r), calls) && NoTurnDue(t, calls)
    ensures var a := After(Ran(r), calls);
            && a.performed == r.performed + [action] && a.execute == (r.execute + 1) % 64
            && a.waitValue == (if Timer5s(calls) < t then t - Timer5s(calls) else 0)
  {
    ActionsLast(r, action);
    StillWaiting(Ran(r), calls);
  }

  // ---------- a client that stays in step ----------

  /** The machine after a call that is no clear. */
  function MachineCalled(r: Ring, m: Machine, call: Call): Machine
    requires |m.log| == |m.counters| && (call.Send? && call.cmd.LoopEnd? ==> Opens(m.log) != [])
  {
    match call
    case Send(cmd) => MachineAdded(r, m, cmd)
    case Cycle => if r.isRunning && r.waitValue == 0 && m.execute < |m.log| then Step(m) else m
    case _ => m
  }

  /** The client does not clear the script, closes only loops that it has opened, and sends loop commands only while
      none has been refused. */
  ghost predicate ProperCall(r: Ring, m: Machine, base: nat, call: Call) {
    call.Send? ==>
      && !call.cmd.ClearScript? && InBounds(r, call.cmd)
      && (IsLoop(call.cmd) ==> Synced(r, m, base)) && (call.cmd.LoopEnd? ==> Opens(m.log) != [])
  }

  lemma CallTracks(r: Ring, m: Engine, base: nat, held: nat, call: Call) returns (now: nat)
    requires Tracks(r, m, base, held) && !r.isClearing && ProperCall(r, m, base, call)
    ensures Inv(MachineCalled(r, m, call)) && Tracks(Called(r, call), MachineCalled(r, m, call), base, now)
    ensures !Called(r, call).isClearing
    ensures base > 0 && held < m.read ==> now == held && held < MachineCalled(r, m, call).read
  {
    now := held;
    match call
    case Send(cmd) => AddTracks(r, m, base, held, cmd);
    case Cycle => now := CycleTracks(r, m, base, held);
    case _ =>
  }

  lemma CycleTracks(r: Ring, m: Engine, base: nat, held: nat) returns (now: nat)
    requires Tracks(r, m, base, held) && !r.isClearing
    ensures Inv(MachineCalled(r, m, Cycle)) && Tracks(Ran(r), MachineCalled(r, m, Cycle), base, now)
    ensures !Ran(r).isClearing
    ensures base > 0 && held < m.read ==> now == held && held < MachineCalled(r, m, Cycle).read
  {
    now := held;
    RunTracks(r, m, base, held);
    if r.isRunning && r.waitValue == 0 && m.execute < |m.log| {
      now := HeldAfter(m, base, held);
      StepStaysInside(m);
    }
  }

  ghost predicate Proper(r: Ring, m: Engine, base: nat, calls: seq<Call>)
    requires Shaped(r)
    decreases |calls|
  {
    calls == []
    || (&& ProperCall(r, m, base, calls[0])
        && Inv(MachineCalled(r, m, calls[0]))
        && Proper(Called(r, calls[0]), MachineCalled(r, m, calls[0]), base, calls[1..]))
  }

  ghost function MachineAfter(r: Ring, m: Engine, base: nat, calls: seq<Call>): Engine
    requires Shaped(r) && Proper(r, m, base, calls)
    decreases |calls|
  {
    if calls == [] then m
    else MachineAfter(Called(r, calls[0]), MachineCalled(r, m, calls[0]), base, calls[1..])
  }

  function AcceptedFirst(r: Ring, call: Call): seq<Command> {
    if call.Send? && !r.isClearing && HasRoom(r) && (call.cmd.Script? || IsLoop(call.cmd)) then [AsCommand(call.cmd)]
    else []
  }

  /** The commands that the ring accepts. */
  ghost function Accepted(r: Ring, m: Engine, base: nat, calls: seq<Call>): seq<Command>
    requires Shaped(r) && Proper(r, m, base, calls)
    decreases |calls|
  {
    if calls == [] then []
    else
      AcceptedFirst(r, calls[0])
      + Accepted(Called(r, calls[0]), MachineCalled(r, m, calls[0]), base, calls[1..])
  }

  /** Once a loop has run on top of left-over entries, no slot is ever freed again, whatever is sent and run, until
      the next clear. */
  lemma {:induction false} NeverFreed(r: Ring, m: Engine, base: nat, held: nat, calls: seq<Call>)
    requires Tracks(r, m, base, held) && base > 0 && held < m.read && !r.isClearing && Proper(r, m, base, calls)
    ensures Fits(r, calls) && After(r, calls).read == r.read && After(r, calls).inLoop
    decreases |calls|
  {
    if calls != [] {
      var now := CallTracks(r, m, base, held, calls[0]);
      NeverFreed(Called(r, calls[0]), MachineCalled(r, m, calls[0]), base, held, calls[1..]);
    }
  }

  // ---------- what is performed ----------

  /** What an event hands to the led strip. */
  function Handed(e: Event): seq<Action> {
    match e case Did(a) => [a] case Moved => []
  }

  lemma PerformedFirst(e: Event, rest: seq<Event>)
    ensures Performed([e] + rest) == Handed(e) + Performed(rest)
  {
    PerformedAppend([e], rest);
    assert [e][..0] == [];
  }

  lemma NextPerformed(m: Machine, performed: seq<Action>)
    requires Inv(m) && Finite(m.log) && m.execute < |m.log|
    ensures Inv(Step(m)) && |Future(Step(m))| < |Future(m)|
    ensures performed + Handed(EventOf(m.log[m.execute])) + Performed(Future(Step(m)))
            == performed + Performed(Future(m))
  {
    var e := EventOf(m.log[m.execute]);
    StepPerformsHead(m);
    PerformedFirst(e, Future(Step(m)));
    Associate(performed, Handed(e), Performed(Future(Step(m))));
  }

  lemma CycleConserves(r: Ring, m: Engine, base: nat, held: nat)
    requires Tracks(r, m, base, held) && !r.isClearing && Finite(m.log)
    ensures Inv(MachineCalled(r, m, Cycle)) && MachineCalled(r, m, Cycle).log == m.log
    ensures Ran(r).performed + Performed(Future(MachineCalled(r, m, Cycle))) == r.performed + Performed(Future(m))
  {
    RunCarries(r, m, base, held);
    if r.isRunning && r.waitValue == 0 && m.execute < |m.log| {
      CarryTracks(r, m, base, held);
      NextPerformed(m, r.performed);
    }
  }

  /** What is to come grows by one pass over what is stored. */
  lemma SendConserves(r: Ring, m: Machine, cmd: Received)
    requires |m.log| == |m.counters| && m.execute <= |m.log| && !r.isClearing && HasRoom(r)
    requires (cmd.Script? || IsLoop(cmd)) && (cmd.LoopEnd? ==> Opens(m.log) != [])
    ensures var n := MachineAdded(r, m, cmd);
            && |n.log| == |m.log| + 1 == |n.counters| && n.log[..|m.log|] == m.log
            && Performed(Future(n)) == Performed(Future(m)) + Performed(Segment(n.log, |m.log|, |n.log|))
  {
    var slot := Compile(m.log, AsCommand(cmd));
    AppendExtendsFuture(m, slot);
    PerformedAppend(Future(m), Segment(m.log + [slot], |m.log|, |m.log| + 1));
  }

  lemma SendPerformsNothing(r: Ring, cmd: Received)
    requires Shaped(r) && InBounds(r, cmd)
    ensures Added(r, cmd).performed == r.performed
  {
  }

  /** Done and to come grow by one pass over what the call stores. */
  lemma CallConserves(r: Ring, m: Engine, base: nat, held: nat, call: Call)
    requires Tracks(r, m, base, held) && !r.isClearing && ProperCall(r, m, base, call)
    requires Inv(MachineCalled(r, m, call)) && Finite(MachineCalled(r, m, call).log)
    ensures var n := MachineCalled(r, m, call);
            && |m.log| <= |n.log| && n.log[..|m.log|] == m.log
            && Called(r, call).performed + Performed(Future(n))
               == r.performed + (Performed(Future(m)) + Performed(Segment(n.log, |m.log|, |n.log|)))
  {
    var n := MachineCalled(r, m, call);
    if call.Send? && HasRoom(r) && (call.cmd.Script? || IsLoop(call.cmd)) {
      SendConserves(r, m, call.cmd);
      SendPerformsNothing(r, call.cmd);
    } else {
      if call.Cycle? { CycleConserves(r, m, base, held); }
      assert n.log == m.log;
      NothingStored(m, Performed(Future(m)));
    }
  }

  lemma NothingStored(m: Machine, p: seq<Action>)
    ensures Segment(m.log, |m.log|, |m.log|) == [] && p + Performed(Segment(m.log, |m.log|, |m.log|)) == p
  {
  }

  lemma SegmentsJoin(n: nat, b: seq<Slot>, c: seq<Slot>)
    requires n <= |b| <= |c| && c[..|b|] == b
    ensures Segment(c, n, |c|) == Segment(b, n, |b|) + Segment(c, |b|, |c|)
  {
    SegmentSplit(c, n, |b|, |c|);
    var rest := c[|b|..];
    assert c == b + rest;
    SegmentPrefix(b, rest, n, |b|);
  }

  lemma SumsJoin(done: seq<Action>, future: seq<Action>, stored: seq<Action>, more: seq<Action>, a: seq<Action>,
                 q: seq<Action>, b: seq<Action>)
    requires a == q + (b + more) && q + b == done + (future + stored)
    ensures a == done + (future + (stored + more))
  {
    assert a == (q + b) + more;
  }

  lemma FirstAccepted(r: Ring, m: Engine, base: nat, calls: seq<Call>)
    requires Shaped(r) && Proper(r, m, base, calls) && calls != []
    ensures var q, b := Called(r, calls[0]), MachineCalled(r, m, calls[0]);
            CompileAll(m.log, Accepted(r, m, base, calls)) == CompileAll(b.log, Accepted(q, b, base, calls[1..]))
  {
    CompileOne(r, m, calls[0], Accepted(Called(r, calls[0]), MachineCalled(r, m, calls[0]), base, calls[1..]));
  }

  lemma CompileOne(r: Ring, m: Machine, call: Call, rest: seq<Command>)
    requires |m.log| == |m.counters| && (call.Send? && call.cmd.LoopEnd? ==> Opens(m.log) != [])
    ensures CompileAll(m.log, AcceptedFirst(r, call) + rest) == CompileAll(MachineCalled(r, m, call).log, rest)
  {
    if AcceptedFirst(r, call) == [] {
      assert [] + rest == rest;
    } else {
      CompileFirst(m.log, AsCommand(call.cmd), rest);
    }
  }

  /** Conservation on the ring, for every interleaving: what has been performed and what is to come are together what
      there was and one pass over what has been accepted. */
  lemma {:induction false} CallsConserve(r: Ring, m: Engine, base: nat, held: nat, calls: seq<Call>)
    requires Tracks(r, m, base, held) && !r.isClearing && Proper(r, m, base, calls)
    requires Finite(MachineAfter(r, m, base, calls).log)
    ensures Fits(r, calls)
    ensures var a, n := After(r, calls), MachineAfter(r, m, base, calls);
            && |m.log| <= |n.log| && n.log[..|m.log|] == m.log
            && a.performed + Performed(Future(n))
               == r.performed + (Performed(Future(m)) + Performed(Segment(n.log, |m.log|, |n.log|)))
    decreases |calls|
  {
    if calls == [] {
      NothingStored(m, Performed(Future(m)));
    } else {
      var q, b := Called(r, calls[0]), MachineCalled(r, m, calls[0]);
      var now := CallTracks(r, m, base, held, calls[0]);
      CallsConserve(q, b, base, now, calls[1..]);
      FirstConserved(r, m, base, held, calls);
    }
  }

  lemma FirstConserved(r: Ring, m: Engine, base: nat, held: nat, calls: seq<Call>)
    requires Tracks(r, m, base, held) && !r.isClearing && Proper(r, m, base, calls) && calls != []
    requires Fits(r, calls) && Finite(MachineAfter(r, m, base, calls).log)
    requires var q, b := Called(r, calls[0]), MachineCalled(r, m, calls[0]);
             var a, n := After(r, calls), MachineAfter(r, m, base, calls);
             && |b.log| <= |n.log| && n.log[..|b.log|] == b.log
             && a.performed + Performed(Future(n))
                == q.performed + (Performed(Future(b)) + Performed(Segment(n.log, |b.log|, |n.log|)))
    ensures var a, n := After(r, calls), MachineAfter(r, m, base, calls);
            && |m.log| <= |n.log| && n.log[..|m.log|] == m.log
            && a.performed + Performed(Future(n))
               == r.performed + (Performed(Future(m)) + Performed(Segment(n.log, |m.log|, |n.log|)))
  {
    var q, b := Called(r, calls[0]), MachineCalled(r, m, calls[0]);
    var a, n := After(r, calls), MachineAfter(r, m, base, calls);
    FinitePrefix(b.log, n.log);
    CallConserves(r, m, base, held, calls[0]);
    KeepsPrefix(m.log, b.log, n.log);
    SegmentsJoin(|m.log|, b.log, n.log);
    var stored, more := Segment(b.log, |m.log|, |b.log|), Segment(n.log, |b.log|, |n.log|);
    PerformedAppend(stored, more);
    SumsJoin(r.performed, Performed(Future(m)), Performed(stored), Performed(more),
             a.performed + Performed(Future(n)), q.performed, Performed(Future(b)));
  }

  /** The ring holds the machine with exactly the accepted commands. */
  lemma {:induction false} CallsTrack(r: Ring, m: Engine, base: nat, held: nat, calls: seq<Call>)
    returns (now: nat)
    requires Tracks(r, m, base, held) && !r.isClearing && Proper(r, m, base, calls)
    ensures Fits(r, calls)
    ensures var a, n := After(r, calls), MachineAfter(r, m, base, calls);
            && Tracks(a, n, base, now) && !a.isClearing
            && n.log == CompileAll(m.log, Accepted(r, m, base, calls))
    decreases |calls|
  {
    now := held;
    if calls != [] {
      now := CallTracks(r, m, base, held, calls[0]);
      now := CallsTrack(Called(r, calls[0]), MachineCalled(r, m, calls[0]), base, now, calls[1..]);
      FirstAccepted(r, m, base, calls);
    }
  }

  /** Sent commands only append to the machine. */
  lemma {:induction false} OnlyAppended(r: Ring, m: Engine, base: nat, held: nat, calls: seq<Call>)
    requires Tracks(r, m, base, held) && !r.isClearing && Proper(r, m, base, calls) && NoTurnDue(r.waitValue, calls)
    ensures var n := MachineAfter(r, m, base, calls);
            m.log <= n.log && n.execute == m.execute && n.read == m.read && n.inLoop == m.inLoop
    decreases |calls|
  {
    if calls != [] {
      var now := CallTracks(r, m, base, held, calls[0]);
      OneAppended(r, m, calls[0]);
      OnlyAppended(Called(r, calls[0]), MachineCalled(r, m, calls[0]), base, now, calls[1..]);
    }
  }

  lemma OneAppended(r: Ring, m: Machine, call: Call)
    requires |m.log| == |m.counters| && (call.Send? && call.cmd.LoopEnd? ==> Opens(m.log) != [])
    requires call.Cycle? ==> r.waitValue > 0
    ensures var n := MachineCalled(r, m, call);
            m.log <= n.log && n.execute == m.execute && n.read == m.read && n.inLoop == m.inLoop
  {
  }

  /** And when the time is over, the next turn of the main cycle performs the command that was next. */
  lemma NextTurn(r: Ring, m: Engine, base: nat, held: nat, calls: seq<Call>)
    requires Tracks(r, m, base, held) && !r.isClearing && r.isRunning && m.execute < |m.log|
    requires Proper(r, m, base, calls) && NoTurnDue(r.waitValue, calls) && Timer5s(calls) >= r.waitValue
    ensures Fits(r, calls)
    ensures var next, slot := Ran(After(r, calls)), m.log[m.execute];
            next.performed == r.performed + if slot.Act? then [slot.action] else []
  {
    var now := CallsTrack(r, m, base, held, calls);
    StillWaiting(r, calls);
    OnlyAppended(r, m, base, held, calls);
    var a, n := After(r, calls), MachineAfter(r, m, base, calls);
    RunCarries(a, n, base, now);
    CarryTracks(a, n, base, now);
  }

  /** However a finite script is sent to an empty buffer and run in between: what has been performed and what is to
      come are together the actions of its loops written out, and when execution has caught up all are performed. */
  lemma ScriptConserves(r: Ring, done: seq<Event>, base: nat, calls: seq<Call>, s: Script)
    requires Tracks(r, Start(done), base, 0) && !r.isClearing && Proper(r, Start(done), base, calls)
    requires NoInfiniteLoop(s) && Accepted(r, Start(done), base, calls) == Flatten(s)
    ensures Fits(r, calls)
    ensures var a, n := After(r, calls), MachineAfter(r, Start(done), base, calls);
            && a.performed + Performed(Future(n)) == r.performed + Actions(s)
            && (a.execute == a.write ==> a.performed == r.performed + Actions(s))
  {
    var now := CallsTrack(r, Start(done), base, 0, calls);
    var a, n := After(r, calls), MachineAfter(r, Start(done), base, calls);
    CompiledFromScratch(s);
    CallsConserve(r, Start(done), base, 0, calls);
    UnrollPerforms(s);
    assert Future(Start(done)) == [];
    assert Performed(Future(Start(done))) + Actions(s) == Actions(s);
    RingPointers(now, n.execute, |n.log|);
    FutureEmpty(n);
  }

  // ---------- restarts ----------

  /** After a restart exactly the constructs that the ring has not freed run again, and then what was to come from
      the start of the pending one. */
  lemma ReplayPerforms(m: Engine, held: nat)
    requires held <= m.read
    ensures Future(Replayed(m, held)) == Segment(m.log, held, m.read) + Future(Restarted(m))
  {
    var s := Replayed(m, held);
    RemainingSplit(m.log, s.counters, held, m.read, |m.log|);
    RemainingArmed(m.log, s.counters, held, m.read);
    RemainingSame(m.log, s.counters, m.counters, m.read, |m.log|);
  }

  // ---------- what a stack that was not empty at a clear does ----------

  /** What a refused LOOP_ON outside all loops leads to: when the buffer has drained, the ring holds the machine on
      top of one more entry, with the stack in order. Scripts sent from then on are performed exactly, and their
      loops are not freed. */
  lemma RefusedLoopOn(r: Ring, m: Engine, base: nat, held: nat)
    requires Tracks(r, m, base, held) && !r.isClearing && InBounds(r, LoopStart)
    requires Synced(r, m, base) && Opens(m.log) == [] && !HasRoom(r)
    ensures Tracks(Added(r, LoopStart), m, base, held) && Added(r, LoopStart).loopDepth == base + 1
    ensures Answered(r, LoopStart) == SCRIPTBUFFER_FULL
  {
    AddTracks(r, m, base, held, LoopStart);
  }

  lemma DrainedRebased(r: Ring, m: Engine, base: nat, held: nat)
    requires Tracks(r, m, base, held) && m.execute == |m.log| && Opens(m.log) == [] && r.loopDepth > base
    ensures Tracks(r, m, r.loopDepth, held) && Synced(r, m, r.loopDepth)
  {
    DrainedIsEmpty(m);
    forall i | held <= i < |m.log| ensures SlotStored(r.slots, m, i, r.loopDepth) {
      assert SlotStored(r.slots, m, i, base);
    }
  }

  /** An empty buffer gets LOOP_ON and CLEAR_SCRIPT, and is cleared; then a loop with one fade is sent and run. The
      fade is performed, and yet nothing is freed: read is still 0 when execute has reached write. */
  lemma ClearedLoopLeaks(r: Ring, fade: Action)
    requires Shaped(r) && r.read == r.write == r.execute == 0 && !r.inLoop && r.loopDepth == 0
    requires r.isRunning && !r.isClearing && r.waitValue == 0 && fade.SetFade? && fade.parallelFade == 1
    ensures var c := Ran(Added(Added(r, LoopStart), ClearScript));
            c.loopDepth == 1 && c.read == c.write == c.execute == 0 && !c.inLoop && !c.isClearing
    ensures var c := Ran(Added(Added(r, LoopStart), ClearScript));
            var s := Added(Added(Added(c, LoopStart), Received.Script(fade)), Received.LoopEnd(1));
            var e := Ran(Ran(Ran(s)));
            e.performed == r.performed + [fade] && e.execute == e.write == 3 && e.read == 0 && e.inLoop
  {
    var c := Ran(Added(Added(r, LoopStart), ClearScript));
    var s1 := Added(c, LoopStart);
    var s2 := Added(s1, Received.Script(fade));
    var s3 := Added(s2, Received.LoopEnd(1));
    assert s3.slots[0] == LedCmd.LoopOn && s3.slots[1] == LedCmd.Perform(fade);
    assert s3.slots[2] == LedCmd.LoopOff(1, 1, 1, 1);
    assert Ran(s3) == s3.(execute := 1, inLoop := true);
    var e2 := Ran(Ran(s3));
    assert e2.execute == 2 && e2.slots == s3.slots && e2.read == 0 && e2.inLoop && e2.waitValue == 0;
  }
}

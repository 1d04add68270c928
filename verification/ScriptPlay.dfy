/** A client that sends a whole script and a main cycle that runs it, on the ring of firmware/ScriptCtrl.c. */
module ScriptPlay {
  import opened ScriptMachine
  import opened ScriptSemantics
  import opened ScriptTheorems
  import opened ScriptCalls
  import opened ScriptRing
  import C = ScriptCtrl

  /** Every repeat count fits the byte it is sent in. */
  predicate InBytes(s: Script) {
    match s
    case End => true
    case Do(_, rest) => InBytes(rest)
    case Repeat(n, body, rest) => n < 256 && InBytes(body) && InBytes(rest)
  }

  lemma {:induction false} HistoryAppend(m: Machine, a: seq<Operation>, b: seq<Operation>)
    ensures History(m, a + b) == History(History(m, a), b)
    decreases |b|
  {
    if b == [] {
      assert a + b == a;
    } else {
      var n := |b| - 1;
      assert (a + b)[..|a + b| - 1] == a + b[..n];
      HistoryAppend(m, a, b[..n]);
    }
  }

  lemma AddsAppend(m: Machine, a: seq<Command>, b: seq<Command>)
    ensures History(m, AddAll(a + b)) == History(History(m, AddAll(a)), AddAll(b))
  {
    assert AddAll(a + b) == AddAll(a) + AddAll(b);
    HistoryAppend(m, AddAll(a), AddAll(b));
  }

  lemma AddsOne(m: Machine, c: Command)
    ensures History(m, AddAll([c])) == Apply(m, Add(c))
  {
    assert AddAll([c]) == [Add(c)];
    assert AddAll([c])[..0] == [];
  }

  lemma AddsDo(m: Machine, a: Action, rest: Script)
    ensures History(m, AddAll(Flatten(Do(a, rest))))
            == History(Apply(m, Add(Command.Perform(a))), AddAll(Flatten(rest)))
  {
    AddsAppend(m, [Command.Perform(a)], Flatten(rest));
    AddsOne(m, Command.Perform(a));
  }

  lemma AddsRepeat(m: Machine, n: nat, body: Script, rest: Script)
    ensures var loop := History(m, AddAll(Flatten(Repeat(n, body, End))));
            && loop == Apply(History(Apply(m, Add(LoopBegin)), AddAll(Flatten(body))), Add(Command.LoopEnd(n)))
            && History(m, AddAll(Flatten(Repeat(n, body, rest)))) == History(loop, AddAll(Flatten(rest)))
  {
    AddsOne(m, LoopBegin);
    AddsAppend(m, [LoopBegin], Flatten(body));
    AddsOne(History(m, AddAll([LoopBegin] + Flatten(body))), Command.LoopEnd(n));
    AddsAppend(m, [LoopBegin] + Flatten(body), [Command.LoopEnd(n)]);
    assert Flatten(Repeat(n, body, End)) == [LoopBegin] + Flatten(body) + [Command.LoopEnd(n)];
    AddsAppend(m, Flatten(Repeat(n, body, End)), Flatten(rest));
    assert Flatten(Repeat(n, body, rest)) == Flatten(Repeat(n, body, End)) + Flatten(rest);
  }

  /** Nothing keeps the buffer from accepting commands. */
  ghost predicate Open(b: C.ScriptBuf)
    reads b, b.eeprom, b.loopStart
  {
    b.Valid() && b.InStep() && !b.isClearing
  }

  ghost function Room(b: C.ScriptBuf): int
    reads b
  {
    RING_SIZE - 1 - (|b.m.log| - b.held)
  }

  lemma DepthIsOpens(b: C.ScriptBuf)
    requires Open(b)
    ensures b.loopDepth == b.base + |Opens(b.m.log)|
  {
  }

  /** One command of a client, for which there is room. */
  method AddOne(b: C.ScriptBuf, cmd: Received, ghost c: Command)
    requires Open(b) && Room(b) > 0
    requires cmd.Script? || cmd.LoopStart? || cmd.LoopEnd?
    requires c == AsCommand(cmd)
    requires cmd.LoopStart? ==> b.loopDepth < LOOP_DEPTH_MAX
    requires cmd.LoopEnd? ==> b.loopDepth > b.base
    modifies b`isRunning, b`eepromWrite, b`write, b`tracked, b`m, b`loopDepth, b`isClearing, b.eeprom, b.loopStart
    ensures Open(b) && b.isRunning && b.m == Apply(old(b.m), Add(c))
    ensures Room(b) == old(Room(b)) - 1 && b.m.read == old(b.m.read) && b.performed == old(b.performed)
    ensures b.loopDepth == old(b.loopDepth) + if cmd.LoopStart? then 1 else if cmd.LoopEnd? then -1 else 0
  {
    DepthIsOpens(b);
    var code := b.Add(cmd);
    DepthIsOpens(b);
  }

  /** Every command of a script that fits is accepted and compiled. */
  method AddScript(b: C.ScriptBuf, s: Script)
    requires Open(b) && b.loopDepth + Nesting(s) <= LOOP_DEPTH_MAX && InBytes(s) && Room(b) >= |Flatten(s)|
    modifies b`isRunning, b`eepromWrite, b`write, b`tracked, b`m, b`loopDepth, b`isClearing, b.eeprom, b.loopStart
    ensures Open(b) && b.loopDepth == old(b.loopDepth)
    ensures b.m == History(old(b.m), AddAll(Flatten(s)))
    ensures b.m.read == old(b.m.read) && Room(b) == old(Room(b)) - |Flatten(s)|
    ensures s != End || old(b.isRunning) ==> b.isRunning
    decreases s, 0
  {
    ghost var start := b.m;
    match s {
      case End =>
        assert AddAll([]) == [];
      case Do(a, rest) =>
        AddsDo(start, a, rest);
        AddOne(b, Received.Script(a), Command.Perform(a));
        AddScript(b, rest);
      case Repeat(n, body, rest) =>
        AddsRepeat(start, n, body, rest);
        AddLoop(b, n, body);
        AddScript(b, rest);
    }
  }

  method AddLoop(b: C.ScriptBuf, n: nat, body: Script)
    requires Open(b) && b.loopDepth + 1 + Nesting(body) <= LOOP_DEPTH_MAX && n < 256 && InBytes(body)
    requires Room(b) >= |Flatten(body)| + 2
    modifies b`isRunning, b`eepromWrite, b`write, b`tracked, b`m, b`loopDepth, b`isClearing, b.eeprom, b.loopStart
    ensures Open(b) && b.loopDepth == old(b.loopDepth) && b.isRunning
    ensures b.m == History(old(b.m), AddAll(Flatten(Repeat(n, body, End))))
    ensures b.m.read == old(b.m.read) && Room(b) == old(Room(b)) - |Flatten(body)| - 2
    decreases body, 1
  {
    AddsRepeat(b.m, n, body, End);
    AddOne(b, Received.LoopStart, LoopBegin);
    AddScript(b, body);
    AddOne(b, Received.LoopEnd(n), Command.LoopEnd(n));
  }

  // ---------- the main cycle ----------

  /** One effective run hands the next action of the future to the led strip. */
  method RunOnce(b: C.ScriptBuf)
    requires b.Valid() && b.tracked && !b.isClearing && b.isRunning && b.waitValue == 0
    requires Finite(b.m.log) && b.m.execute < |b.m.log| && FreesUntil(b.m, b.base, b.held)
    modifies b, b.eeprom
    ensures b.Valid() && b.tracked && !b.isClearing && b.isRunning && b.m == Step(old(b.m)) && b.base == old(b.base)
    ensures FreesUntil(b.m, b.base, b.held)
    ensures b.performed + Performed(Future(b.m)) == old(b.performed + Performed(Future(b.m)))
    ensures |Future(b.m)| < old(|Future(b.m)|)
  {
    NextPerformed(b.m, b.performed);
    StepFrees(b.m, b.base, b.held);
    ghost var handed := Handed(EventOf(b.m.log[b.m.execute]));
    b.Run();
    assert b.performed == old(b.performed) + handed;
  }

  /** The buffer can be drained. */
  ghost predicate Draining(b: C.ScriptBuf, log: seq<Slot>, base: nat, total: seq<Action>)
    reads b, b.eeprom, b.loopStart
  {
    && b.Valid() && b.tracked && !b.isClearing && (b.isRunning || b.m.execute == |b.m.log|) && Finite(b.m.log)
    && b.m.log == log && b.base == base && FreesUntil(b.m, base, b.held)
    && b.performed + Performed(Future(b.m)) == total
  }

  /** One turn of the main cycle, or one tick of the wait interrupt. */
  method Turn(b: C.ScriptBuf, ghost log: seq<Slot>, ghost base: nat, ghost total: seq<Action>)
    requires Draining(b, log, base, total) && b.m.execute < |b.m.log|
    modifies b, b.eeprom
    ensures Draining(b, log, base, total)
    ensures |Future(b.m)| < |Future(old(b.m))| || (b.m == old(b.m) && b.waitValue < old(b.waitValue))
  {
    if b.waitValue > 0 {
      b.DecrementWaitValue();
    } else {
      RunOnce(b);
    }
  }

  /** The main cycle and the wait interrupt, until the buffer is empty: all that was to come is performed. */
  method Drain(b: C.ScriptBuf)
    requires b.Valid() && b.tracked && !b.isClearing && (b.isRunning || b.m.execute == |b.m.log|)
    requires Finite(b.m.log) && FreesUntil(b.m, b.base, b.held)
    modifies b, b.eeprom
    ensures b.Valid() && b.tracked && b.m.execute == |b.m.log| && b.m.log == old(b.m.log)
    ensures b.base == old(b.base) && FreesUntil(b.m, b.base, b.held)
    ensures b.performed == old(b.performed) + Performed(Future(old(b.m)))
  {
    ghost var log, base, total := b.m.log, b.base, b.performed + Performed(Future(b.m));
    RingPointers(b.held, b.m.execute, |b.m.log|);
    while b.execute != b.write
      invariant Draining(b, log, base, total) && (b.execute != b.write <==> b.m.execute < |b.m.log|)
      decreases |Future(b.m)|, b.waitValue
    {
      Turn(b, log, base, total);
      RingPointers(b.held, b.m.execute, |b.m.log|);
    }
    FutureEmpty(b.m);
  }

  // ---------- which slots are free afterwards ----------

  lemma FirstLoopLonger(log: seq<Slot>, slot: Slot)
    ensures FirstLoop(log + [slot])
            == if FirstLoop(log) < |log| || slot.LoopOn? then FirstLoop(log) else |log| + 1
  {
    assert (log + [slot])[..|log|] == log;
  }

  lemma {:induction false} CompiledLoops(log: seq<Slot>, cs: seq<Command>)
    ensures var l := CompileAll(log, cs); FirstLoop(l) < |l| <==> FirstLoop(log) < |log| || LoopBegin in cs
    decreases |cs|
  {
    if cs != [] {
      assert cs == [cs[0]] + cs[1..];
      if cs[0].LoopEnd? && Opens(log) == [] {
        CompiledLoops(log, cs[1..]);
      } else {
        CompiledLoops(log + [Compile(log, cs[0])], cs[1..]);
        FirstLoopLonger(log, Compile(log, cs[0]));
      }
    }
  }

  lemma {:induction false} FlattenLoops(s: Script)
    ensures LoopBegin in Flatten(s) <==> Nesting(s) > 0
  {
    match s
    case End =>
    case Do(_, rest) => FlattenLoops(rest);
    case Repeat(_, _, _) => assert Flatten(s)[0] == LoopBegin;
  }

  /** A stored script has its unrolling before it. */
  lemma ScriptStored(done: seq<Event>, s: Script)
    requires NoInfiniteLoop(s)
    ensures var r := History(Start(done), AddAll(Flatten(s)));
            && Inv(r) && Finite(r.log) && Opens(r.log) == [] && Performed(Future(r)) == Actions(s)
  {
    var r := History(Start(done), AddAll(Flatten(s)));
    AddsOnly(Start(done), Flatten(s));
    StoredScript(done, AddAll(Flatten(s)), s);
    SameTail(done, Future(r), Unroll(s));
    UnrollPerforms(s);
  }

  lemma StoredLoops(done: seq<Event>, s: Script)
    ensures var r := History(Start(done), AddAll(Flatten(s))); FirstLoop(r.log) == |r.log| <==> Nesting(s) == 0
  {
    AddsOnly(Start(done), Flatten(s));
    HistoryStores(Start(done), AddAll(Flatten(s)));
    CompiledLoops([], Flatten(s));
    FlattenLoops(s);
  }

  lemma SameTail<T>(a: seq<T>, b: seq<T>, c: seq<T>)
    requires a + b == a + c
    ensures b == c
  {
    assert (a + b)[|a|..] == b && (a + c)[|a|..] == c;
  }

  /** A finite script that fits the ring and nests at most 4 deep, counting what is on the loop stack, sent to an
      empty buffer and run: the led strip gets exactly the actions of its loops written out, in order. All slots are
      free again exactly if the loop stack is empty or there is no loop in the script; otherwise those from its first
      loop on stay occupied. */
  method Play(b: C.ScriptBuf, s: Script)
    requires Open(b) && b.m == Start(b.m.done)
    requires NoInfiniteLoop(s) && InBytes(s)
    requires b.loopDepth + Nesting(s) <= LOOP_DEPTH_MAX && |Flatten(s)| < RING_SIZE
    modifies b, b.eeprom, b.loopStart
    ensures b.Valid() && b.tracked && b.performed == old(b.performed) + Actions(s)
    ensures b.execute == b.write && b.m.execute == |b.m.log|
    ensures b.read == b.write <==> old(b.loopDepth) == 0 || Nesting(s) == 0
  {
    ghost var start := b.m;
    ScriptStored(start.done, s);
    StoredLoops(start.done, s);
    DepthIsOpens(b);
    AddScript(b, s);
    if s == End { assert AddAll([]) == []; }
    Drain(b);
    DrainedIsEmpty(b.m);
    RingPointers(b.held, b.m.execute, |b.m.log|);
    if b.held != |b.m.log| { RingDistinct(b.held, |b.m.log|); }
  }

  // ---------- a whole history before ----------

  method CarryOne(b: C.ScriptBuf, call: Call)
    requires b.Valid() && (call.Send? ==> InBounds(b.Image(), call.cmd))
    modifies b, b.eeprom, b.loopStart
    ensures b.Valid() && b.Image() == Called(old(b.Image()), call)
  {
    match call
    case Send(cmd) =>
      var code := b.Add(cmd);
    case Cycle =>
      b.Run();
    case Timer5 =>
      b.DecrementWaitValue();
    case Timer1 =>
      b.CheckAndDecrementWaitValue();
  }

  /** Anything that can happen to the buffer without indexing the loop stack out of bounds. */
  method Carry(b: C.ScriptBuf, calls: seq<Call>)
    requires b.Valid() && Fits(b.Image(), calls)
    modifies b, b.eeprom, b.loopStart
    ensures b.Valid() && b.Image() == After(old(b.Image()), calls)
    decreases |calls|
  {
    if calls != [] {
      CarryOne(b, calls[0]);
      Carry(b, calls[1..]);
    }
  }

  /** After any history since power-up the script is cleared, and then a script is played. What a client can know
      decides what becomes of the slots: they are all free again exactly if it has sent as many LOOP_OFFs as
      LOOP_ONs, accepted or not, or there is no loop in the script. */
  method PlayAfter(b: C.ScriptBuf, calls: seq<Call>, s: Script)
    requires b.Valid() && b.loopDepth == 0 && !b.isClearing && Fits(b.Image(), calls)
    requires NoInfiniteLoop(s) && InBytes(s) && |Flatten(s)| < RING_SIZE
    requires Balance(false, calls) + Nesting(s) <= LOOP_DEPTH_MAX
    modifies b, b.eeprom, b.loopStart
    ensures b.Valid() && b.execute == b.write
    ensures b.performed == After(old(b.Image()), calls).performed + Actions(s)
    ensures b.read == b.write <==> Balance(false, calls) == 0 || Nesting(s) == 0
  {
    DepthCounts(b.Image(), calls);
    Carry(b, calls);
    var code := b.Add(ClearScript);
    b.Run();
    Play(b, s);
  }
}

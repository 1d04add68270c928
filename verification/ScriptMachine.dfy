/** The script engine of firmware/ScriptCtrl.c, seen through unbounded positions.

    A log holds every command accepted since the last clear, in the form ScriptCtrl_Add
    stores it: a LOOP_OFF carries the position just past its LOOP_ON, its nesting depth and
    its repeat count. A Machine adds the run-time counters and the pointers of the engine.
    ScriptRing.dfy says how a 64-slot ring holds it. */
module ScriptMachine {

  /** The commands that ScriptCtrl_Run carries out. Times are host-order ten-millisecond ticks;
      `payload` is the rest of the command, which the engine only passes on. */
  datatype Action =
    | SetFade(parallelFade: nat, time: nat, payload: seq<nat>)
    | SetGradient(parallelAndOffset: nat, time: nat, payload: seq<nat>)
    | Wait(time: nat)

  /** A command as a client sends it. */
  datatype Command = Perform(action: Action) | LoopBegin | LoopEnd(times: nat)

  /** A command as it is stored; `times == 0` is an infinite loop. */
  datatype Slot = Act(action: Action) | LoopOn | LoopOff(start: nat, depth: nat, times: nat)

  /** What one effective run does: perform an action, or move through a loop command. */
  datatype Event = Did(action: Action) | Moved

  datatype Machine = Machine(
    log: seq<Slot>, counters: seq<nat>, read: nat, execute: nat, inLoop: bool, done: seq<Event>)

  // ---------- nesting ----------

  /** The positions of the LOOP_ONs of `log` that no LOOP_OFF has closed yet, outermost first. */
  function Opens(log: seq<Slot>): seq<nat> {
    if log == [] then []
    else
      var o := Opens(log[..|log| - 1]);
      match log[|log| - 1]
      case Act(_) => o
      case LoopOn => o + [|log| - 1]
      case LoopOff(_, _, _) => if o == [] then [] else o[..|o| - 1]
  }

  /** Position `i` holds no LOOP_OFF, or one that closes the innermost open loop. */
  ghost predicate ClosesInnermost(log: seq<Slot>, i: nat)
    requires i < |log|
  {
    var o := Opens(log[..i]);
    log[i].LoopOff? ==> o != [] && log[i].start == o[|o| - 1] + 1 && log[i].depth == |o| - 1
  }

  ghost predicate WellNested(log: seq<Slot>) {
    forall i | 0 <= i < |log| :: ClosesInnermost(log, i)
  }

  /** The slot that ScriptCtrl_Add stores for `cmd`. */
  function Compile(log: seq<Slot>, cmd: Command): Slot
    requires cmd.LoopEnd? ==> Opens(log) != []
  {
    match cmd
    case Perform(a) => Act(a)
    case LoopBegin => LoopOn
    case LoopEnd(n) =>
      var o := Opens(log);
      LoopOff(o[|o| - 1] + 1, |o| - 1, n)
  }

  // ---------- one step ----------

  function InitialCounter(slot: Slot): nat {
    if slot.LoopOff? then slot.times else 0
  }

  function Append(m: Machine, slot: Slot): Machine {
    m.(log := m.log + [slot], counters := m.counters + [InitialCounter(slot)])
  }

  function Restarted(m: Machine): Machine {
    m.(execute := m.read)
  }

  function EventOf(slot: Slot): Event {
    if slot.Act? then Did(slot.action) else Moved
  }

  /** One effective call of ScriptCtrl_Run. */
  function Step(m: Machine): Machine
    requires m.execute < |m.log| == |m.counters|
  {
    var e := m.execute;
    var after := m.(execute := e + 1, done := m.done + [EventOf(m.log[e])]);
    match m.log[e]
    case Act(_) => if m.inLoop then after else after.(read := e + 1)
    case LoopOn => after.(inLoop := true)
    case LoopOff(start, depth, times) =>
      if m.counters[e] == 0 then after.(execute := start)
      else if m.counters[e] > 1 then
        after.(execute := start, counters := m.counters[e := m.counters[e] - 1])
      else if depth == 0 then after.(read := e + 1, inLoop := false)
      else after.(counters := m.counters[e := times])
  }

  // ---------- the invariant ----------

  ghost predicate CounterInRange(m: Machine, i: nat)
    requires i < |m.log| == |m.counters|
  {
    m.log[i].LoopOff? ==>
      if m.log[i].times == 0 then m.counters[i] == 0 else 1 <= m.counters[i] <= m.log[i].times
  }

  ghost predicate Armed(m: Machine, i: nat)
    requires i < |m.log| == |m.counters|
  {
    m.log[i].LoopOff? ==> m.counters[i] == m.log[i].times
  }

  /** What every Add, Run, Clear and restart keeps. */
  ghost predicate Inv(m: Machine) {
    && |m.counters| == |m.log|
    && WellNested(m.log)
    && m.read <= m.execute <= |m.log|
    // `read` is outside every loop, and `execute` is still inside the construct that starts there
    && Opens(m.log[..m.read]) == []
    && (forall p | m.read < p <= m.execute :: Opens(m.log[..p]) != [])
    && (m.inLoop ==> m.read < |m.log| && m.log[m.read].LoopOn?)
    && (!m.inLoop ==> m.read == m.execute)
    && (forall i | m.read <= i < |m.log| :: CounterInRange(m, i))
    && (forall i | m.read <= i < m.execute :: Armed(m, i))
  }

  /** Every loop that execution has not entered has its full count. */
  ghost predicate FreshAhead(m: Machine)
    requires |m.counters| == |m.log|
  {
    forall i | m.execute <= i < |m.log| && m.log[i].LoopOff? && m.execute < m.log[i].start :: Armed(m, i)
  }

  /** The engine after a clear. */
  function Start(done: seq<Event>): (m: Machine)
    ensures Inv(m) && FreshAhead(m)
  {
    Machine([], [], 0, 0, false, done)
  }

  /** The states that the engine can be in. */
  type Engine = m: Machine | Inv(m) ghost witness Start([])

  // ---------- lemmas on nesting ----------

  lemma {:induction false} OpensBounded(log: seq<Slot>)
    ensures forall k | 0 <= k < |Opens(log)| :: Opens(log)[k] < |log|
    ensures forall k, l | 0 <= k < l < |Opens(log)| :: Opens(log)[k] < Opens(log)[l]
    ensures forall k | 0 <= k < |Opens(log)| :: log[Opens(log)[k]] == LoopOn
  {
    if log != [] { OpensBounded(log[..|log| - 1]); }
  }

  /** The loops still open at `j` were open at `i`, or opened since. */
  lemma {:induction false} OpensSince(log: seq<Slot>, i: nat, j: nat)
    requires i <= j <= |log|
    ensures forall x | x in Opens(log[..j]) :: x in Opens(log[..i]) || i <= x < j
    decreases j - i
  {
    if i < j {
      OpensSince(log, i, j - 1);
      assert log[..j][..j - 1] == log[..j - 1];
    }
  }

  lemma OpensNext(log: seq<Slot>, i: nat)
    requires i < |log|
    ensures Opens(log[..i + 1]) ==
            match log[i]
            case Act(_) => Opens(log[..i])
            case LoopOn => Opens(log[..i]) + [i]
            case LoopOff(_, _, _) =>
              if Opens(log[..i]) == [] then [] else Opens(log[..i])[..|Opens(log[..i])| - 1]
  {
    assert log[..i + 1][..i] == log[..i];
  }

  /** A LOOP_OFF inside the current construct jumps back to a position inside it. */
  lemma LoopStartInside(log: seq<Slot>, read: nat, i: nat)
    requires WellNested(log) && read <= i < |log| && log[i].LoopOff?
    requires Opens(log[..read]) == []
    ensures read < log[i].start <= i
    ensures log[log[i].start - 1] == LoopOn
  {
    assert ClosesInnermost(log, i);
    OpensBounded(log[..i]);
    OpensSince(log, read, i);
    assert log[i].start - 1 in Opens(log[..i]);
  }

  lemma AppendWellNested(log: seq<Slot>, slot: Slot)
    requires WellNested(log)
    requires ClosesInnermost(log + [slot], |log|)
    ensures WellNested(log + [slot])
  {
    var l := log + [slot];
    forall i | 0 <= i < |l| ensures ClosesInnermost(l, i) {
      if i < |log| {
        assert l[..i] == log[..i];
        assert ClosesInnermost(log, i);
      }
    }
  }

  lemma CompiledCloses(log: seq<Slot>, cmd: Command)
    requires cmd.LoopEnd? ==> Opens(log) != []
    ensures ClosesInnermost(log + [Compile(log, cmd)], |log|)
  {
    assert (log + [Compile(log, cmd)])[..|log|] == log;
  }

  // ---------- every operation keeps the invariant ----------

  lemma StepKeepsInv(m: Machine)
    requires Inv(m) && m.execute < |m.log|
    ensures Inv(Step(m))
  {
    var e, s := m.execute, Step(m);
    StepStaysInside(m);
    assert CounterInRange(m, e);
    forall i | s.read <= i < |s.log| ensures CounterInRange(s, i) {
      assert CounterInRange(m, i);
    }
    forall i | s.read <= i < s.execute ensures Armed(s, i) {
      if i < e { assert Armed(m, i); }
    }
  }

  /** The pointers stay in the live window, and `execute` in the construct that starts at `read`. */
  lemma StepStaysInside(m: Machine)
    requires Inv(m) && m.execute < |m.log|
    ensures var s := Step(m);
            && m.read <= s.read <= s.execute <= m.execute + 1
            && Opens(m.log[..s.read]) == []
            && (forall p | s.read < p <= s.execute :: Opens(m.log[..p]) != [])
            && (s.inLoop ==> s.read < |m.log| && m.log[s.read].LoopOn?)
            && (!s.inLoop ==> s.read == s.execute)
            && (m.log[m.execute].LoopOff? ==> m.log[m.execute].start <= m.execute)
            && (m.log[m.execute].LoopOff? && m.counters[m.execute] == 1 && m.log[m.execute].depth == 0
                ==> s.read == m.execute + 1)
  {
    var e := m.execute;
    OpensNext(m.log, e);
    assert CounterInRange(m, e);
    assert ClosesInnermost(m.log, e);
    if m.log[e].LoopOff? {
      LoopStartInside(m.log, m.read, e);
    }
    if m.log[e].Act? && m.inLoop {
      assert m.read < e;
    }
  }

  lemma AppendKeepsInv(m: Machine, cmd: Command)
    requires Inv(m)
    requires cmd.LoopEnd? ==> Opens(m.log) != []
    ensures Inv(Append(m, Compile(m.log, cmd)))
  {
    var slot := Compile(m.log, cmd);
    var s := Append(m, slot);
    CompiledCloses(m.log, cmd);
    AppendWellNested(m.log, slot);
    assert s.log[..m.read] == m.log[..m.read];
    forall p | s.read < p <= s.execute ensures Opens(s.log[..p]) != [] {
      assert s.log[..p] == m.log[..p];
    }
    forall i | s.read <= i < |s.log| ensures CounterInRange(s, i) {
      if i < |m.log| { assert CounterInRange(m, i); }
    }
    forall i | s.read <= i < s.execute ensures Armed(s, i) {
      assert Armed(m, i);
    }
  }

  lemma RestartKeepsInv(m: Machine)
    requires Inv(m)
    ensures Inv(Restarted(m))
  {
    var s := Restarted(m);
    forall i | s.read <= i < |s.log| ensures CounterInRange(s, i) {
      assert CounterInRange(m, i);
    }
  }

  /** Nesting is proper: a loop that ends after position `p` of a LOOP_OFF encloses that loop or starts after it. */
  lemma ProperNesting(log: seq<Slot>, p: nat, q: nat)
    requires WellNested(log) && p < q < |log|
    requires log[p].LoopOff? && log[q].LoopOff?
    ensures log[q].start < log[p].start || p + 1 < log[q].start
  {
    assert ClosesInnermost(log, p) && ClosesInnermost(log, q);
    OpensNext(log, p);
    OpensBounded(log[..p]);
    OpensSince(log, p + 1, q);
    var o := Opens(log[..q]);
    assert o[|o| - 1] in o;
  }

  lemma StepKeepsFresh(m: Machine)
    requires Inv(m) && FreshAhead(m) && m.execute < |m.log|
    ensures FreshAhead(Step(m))
  {
    var e, s := m.execute, Step(m);
    forall i | s.execute <= i < |s.log| && s.log[i].LoopOff? && s.execute < s.log[i].start
      ensures Armed(s, i)
    {
      if i < e {
        LoopStartInside(m.log, m.read, e);
        assert Armed(m, i);
      } else if i > e {
        if m.log[e].LoopOff? { ProperNesting(m.log, e, i); }
        assert Armed(m, i);
      }
    }
  }

  lemma AppendKeepsFresh(m: Machine, slot: Slot)
    requires |m.counters| == |m.log| && FreshAhead(m)
    ensures FreshAhead(Append(m, slot))
  {
    var s := Append(m, slot);
    forall i | s.execute <= i < |s.log| && s.log[i].LoopOff? && s.execute < s.log[i].start
      ensures Armed(s, i)
    {
      if i < |m.log| { assert Armed(m, i); }
    }
  }

  /** When all stored commands have run and no loop is open, nothing is left in the buffer. */
  lemma DrainedIsEmpty(m: Machine)
    requires Inv(m) && m.execute == |m.log| && Opens(m.log) == []
    ensures m.read == |m.log| && !m.inLoop
  {
    assert m.log[..m.execute] == m.log;
  }
}

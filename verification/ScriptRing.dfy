/** The 64-slot command ring of firmware/ScriptCtrl.c as a value, every operation on it, and what it has to do with
    the machine of ScriptMachine.dfy.

    ScriptCtrl_Clear does not reset the stack of open loops. `base` is the number of entries that it has left
    behind: all loops stored since then carry a depth that is too large by `base`, and with base > 0 no loop end
    is taken for a top-level one any more. `held` is where the ring's read pointer has stopped. */
module ScriptRing {
  import opened ScriptMachine

  const RING_SIZE: nat := 64
  const LOOP_DEPTH_MAX: nat := 4

  type Uns8 = x: int | 0 <= x < 256
  type Index = x: int | 0 <= x < RING_SIZE

  /** A command in the form it has in EEPROM, byte for byte. */
  datatype LedCmd =
    | Perform(action: Action)
    | LoopOn
    | LoopOff(startIndex: Index, counter: Uns8, numLoops: Uns8, depth: Uns8)

  /** A received command. The other command codes do not touch the script buffer; `code` is what
      ScriptCtrl_Add answers to them. */
  datatype Received =
    | ClearScript
    | Script(action: Action)
    | LoopStart
    | LoopEnd(numLoops: Uns8)
    | Other(code: ErrorCode)

  datatype ErrorCode = OK | SCRIPTBUFFER_FULL | BAD_COMMAND_CODE | NO_RESPONSE

  /** ScriptBufInc: on a byte, masking with 63 is the remainder by 64. */
  function ScriptBufInc(x: Index): Index {
    (x + 1) % RING_SIZE
  }

  /** How long the engine waits after an action; parallel fades and gradients do not wait. */
  function WaitAfter(a: Action, before: nat): nat {
    match a
    case SetFade(parallel, time, _) => if parallel == 0 then time else before
    case SetGradient(parallelAndOffset, time, _) => if parallelAndOffset / 128 % 2 == 0 then time else before
    case Wait(time) => time
  }

  // ---------- the ring and its operations ----------

  /** gScriptBuf with the EEPROM slots; `performed` are the calls into the led strip and the waits, in order. */
  datatype Ring = Ring(
    slots: seq<LedCmd>, read: Index, write: Index, execute: Index, inLoop: bool,
    loopStart: seq<Index>, loopDepth: nat, waitValue: nat, isRunning: bool, isClearing: bool,
    performed: seq<Action>)

  predicate Shaped(r: Ring) {
    |r.slots| == RING_SIZE && |r.loopStart| == LOOP_DEPTH_MAX && r.loopDepth <= LOOP_DEPTH_MAX
  }

  predicate HasRoom(r: Ring) {
    ScriptBufInc(r.write) != r.read
  }

  /** ScriptCtrl_Write */
  function Written(r: Ring, cmd: LedCmd): (w: Ring)
    requires Shaped(r)
    ensures Shaped(w)
  {
    if HasRoom(r) then r.(isRunning := true, slots := r.slots[r.write := cmd], write := ScriptBufInc(r.write))
    else r.(isRunning := true)
  }

  /** The source indexes its 4-entry stack without a test, so its callers must nest at most 4 loops and
      close only open ones. */
  predicate InBounds(r: Ring, cmd: Received) {
    r.isClearing || ((cmd.LoopStart? ==> r.loopDepth < LOOP_DEPTH_MAX) && (cmd.LoopEnd? ==> r.loopDepth > 0))
  }

  /** ScriptCtrl_Add. A refused loop command has moved `loopDepth` all the same. */
  function Added(r: Ring, cmd: Received): (a: Ring)
    requires Shaped(r) && InBounds(r, cmd)
    ensures Shaped(a)
  {
    if r.isClearing then r
    else
      match cmd
      case ClearScript => r.(isClearing := true)
      case Script(a) => Written(r, LedCmd.Perform(a))
      case LoopStart => Written(Pushed(r), LedCmd.LoopOn)
      case LoopEnd(n) =>
        var p := r.(loopDepth := r.loopDepth - 1);
        Written(p, LedCmd.LoopOff(ScriptBufInc(r.loopStart[p.loopDepth]), n, n, p.loopDepth))
      case Other(_) => r
  }

  function Pushed(r: Ring): (p: Ring)
    requires Shaped(r) && r.loopDepth < LOOP_DEPTH_MAX
    ensures Shaped(p)
  {
    r.(loopStart := r.loopStart[r.loopDepth := r.write], loopDepth := r.loopDepth + 1)
  }

  function Answered(r: Ring, cmd: Received): ErrorCode {
    if r.isClearing then SCRIPTBUFFER_FULL
    else if cmd.Other? then cmd.code
    else if cmd.ClearScript? || HasRoom(r) then OK
    else SCRIPTBUFFER_FULL
  }

  /** ScriptCtrl_Clear */
  function Cleared(r: Ring): Ring {
    r.(inLoop := false, read := 0, write := 0, execute := 0, waitValue := 0, isClearing := false)
  }

  /** ScriptCtrl_Run */
  function Ran(r: Ring): (a: Ring)
    requires Shaped(r)
    ensures Shaped(a)
  {
    var c := if r.isClearing then Cleared(r) else r;
    if !c.isRunning || c.waitValue > 0 || c.execute == c.write then c else Carried(c)
  }

  /** The switch on the command that ScriptCtrl_Run has fetched. */
  function Carried(r: Ring): (a: Ring)
    requires Shaped(r)
    ensures Shaped(a)
  {
    var next := ScriptBufInc(r.execute);
    match r.slots[r.execute]
    case LoopOn => r.(execute := next, inLoop := true)
    case LoopOff(startIndex, counter, numLoops, depth) =>
      if counter == 0 then r.(execute := startIndex)
      else if counter > 1 then r.(execute := startIndex, slots := Recounted(r, counter - 1))
      else if depth == 0 then r.(execute := next, read := next, inLoop := false)
      else r.(execute := next, slots := Recounted(r, numLoops))
    case Perform(a) =>
      var p := r.(performed := r.performed + [a], waitValue := WaitAfter(a, r.waitValue), execute := next);
      if r.inLoop then p else p.(read := next)
  }

  function Recounted(r: Ring, counter: Uns8): (s: seq<LedCmd>)
    requires Shaped(r) && r.slots[r.execute].LoopOff?
    ensures |s| == RING_SIZE
  {
    r.slots[r.execute := r.slots[r.execute].(counter := counter)]
  }

  /** ScriptCtrl_Init */
  function Restored(r: Ring): Ring {
    r.(execute := r.read, isRunning := true)
  }

  /** ScriptCtrl_DecrementWaitValue */
  function Ticked(r: Ring): Ring {
    if r.waitValue > 0 then r.(waitValue := r.waitValue - 1) else r
  }

  /** ScriptCtrl_CheckAndDecrementWaitValue */
  function WaitCut(r: Ring): Ring {
    if r.waitValue < 8 then r.(waitValue := 0) else r
  }

  /** What the firmware can do with the buffer: a command is received, the main cycle comes round, or one of the two
      timers interrupts. */
  datatype Call = Send(cmd: Received) | Cycle | Timer5 | Timer1

  function Called(r: Ring, call: Call): (a: Ring)
    requires Shaped(r) && (call.Send? ==> InBounds(r, call.cmd))
    ensures Shaped(a)
  {
    match call
    case Send(cmd) => Added(r, cmd)
    case Cycle => Ran(r)
    case Timer5 => Ticked(r)
    case Timer1 => WaitCut(r)
  }

  /** The 4-entry stack is never indexed out of bounds. */
  predicate Fits(r: Ring, calls: seq<Call>)
    requires Shaped(r)
    decreases |calls|
  {
    calls == [] || ((calls[0].Send? ==> InBounds(r, calls[0].cmd)) && Fits(Called(r, calls[0]), calls[1..]))
  }

  function After(r: Ring, calls: seq<Call>): (a: Ring)
    requires Shaped(r) && Fits(r, calls)
    ensures Shaped(a)
    decreases |calls|
  {
    if calls == [] then r else After(Called(r, calls[0]), calls[1..])
  }

  // ---------- what a client is told, and how long an action lasts ----------

  /** What command `cmd` makes of r, and the answer. A script or loop command is answered OK exactly if it is stored,
      in the next slot and as it is to be carried out. While a clear is pending nothing is stored. */
  predicate Told(r: Ring, cmd: Received, a: Ring, code: ErrorCode)
    requires Shaped(r) && Shaped(a)
  {
    var next := (r.write + 1) % 64;
    if r.isClearing then a == r && code == SCRIPTBUFFER_FULL
    else if cmd.ClearScript? then a == r.(isClearing := true) && code == OK
    else if cmd.Other? then a == r && code == cmd.code
    else
      && code == (if next == r.read then SCRIPTBUFFER_FULL else OK)
      && a.isRunning && !a.isClearing && a.read == r.read && a.execute == r.execute && a.performed == r.performed
      && a.waitValue == r.waitValue && a.write == (if code == OK then next else r.write)
      && (forall i | 0 <= i < 64 && (code != OK || i != r.write) :: a.slots[i] == r.slots[i])
      && (code == OK ==>
            match cmd
            case Script(action) => a.slots[r.write] == LedCmd.Perform(action)
            case LoopStart => a.slots[r.write] == LedCmd.LoopOn
            case LoopEnd(n) =>
              && 0 < r.loopDepth
              && a.slots[r.write]
                 == LedCmd.LoopOff((r.loopStart[r.loopDepth - 1] as int + 1) % 64, n, n, r.loopDepth - 1)
            case _ => true)
  }

  lemma AnswerTells(r: Ring, cmd: Received)
    requires Shaped(r) && InBounds(r, cmd)
    ensures Told(r, cmd, Added(r, cmd), Answered(r, cmd))
  {
  }

  /** With `before` left of the time of the last action, `left` is left behind this one: WAIT, and fades and gradients
      without their parallel bit, make the engine wait for their time, and the parallel forms change nothing. */
  predicate Lasts(action: Action, before: nat, left: nat) {
    match action
    case Wait(time) => left == time
    case SetFade(parallel, time, _) => left == if parallel == 0 then time else before
    case SetGradient(flags, time, _) => flags < 256 ==> left == if flags < 128 then time else before
  }

  lemma ActionsLast(r: Ring, action: Action)
    requires Shaped(r) && r.slots[r.execute] == LedCmd.Perform(action)
    ensures Lasts(action, r.waitValue, Carried(r).waitValue)
    ensures Carried(r).performed == r.performed + [action] && Carried(r).execute == (r.execute + 1) % 64
  {
  }

  // ---------- what the ring holds ----------

  /** The contents of the EEPROM cell that holds `slot` with its current counter. */
  function Stored(slot: Slot, counter: nat, base: nat): LedCmd
    requires slot.LoopOff? ==> counter < 256 && slot.times < 256 && slot.depth + base < 256
  {
    match slot
    case Act(a) => LedCmd.Perform(a)
    case LoopOn => LedCmd.LoopOn
    case LoopOff(start, depth, times) => LedCmd.LoopOff(start % RING_SIZE, counter, times, depth + base)
  }

  function AsCommand(cmd: Received): Command
    requires cmd.Script? || cmd.LoopStart? || cmd.LoopEnd?
  {
    match cmd
    case Script(a) => Command.Perform(a)
    case LoopStart => LoopBegin
    case LoopEnd(n) => Command.LoopEnd(n)
  }

  /** A cell does what the slot says. Of its depth only matters whether it is 0. */
  predicate Matches(cell: LedCmd, slot: Slot, counter: nat, base: nat) {
    match slot
    case Act(a) => cell == LedCmd.Perform(a)
    case LoopOn => cell == LedCmd.LoopOn
    case LoopOff(start, depth, times) =>
      && cell.LoopOff? && cell.startIndex == start % RING_SIZE && cell.counter == counter && cell.numLoops == times
      && (cell.depth == 0 <==> depth + base == 0)
  }

  /** The counter that the ring has for a slot: what lies behind `read` has its full count again. */
  function CounterSeen(m: Machine, i: nat): nat
    requires i < |m.log| == |m.counters|
  {
    if i < m.read then InitialCounter(m.log[i]) else m.counters[i]
  }

  ghost predicate SlotStored(slots: seq<LedCmd>, m: Machine, i: nat, base: nat)
    requires i < |m.log| == |m.counters| && |slots| == RING_SIZE
  {
    Matches(slots[i % RING_SIZE], m.log[i], CounterSeen(m, i), base)
  }

  ghost predicate SlotsHold(slots: seq<LedCmd>, m: Engine, base: nat, held: nat) {
    |slots| == RING_SIZE && forall i | held <= i < |m.log| :: SlotStored(slots, m, i, base)
  }

  /** The ring holds `m` from `held` on. With base > 0 its read pointer stays behind there, at the first loop. */
  ghost predicate Tracks(r: Ring, m: Engine, base: nat, held: nat) {
    && Shaped(r) && SlotsHold(r.slots, m, base, held)
    && held <= m.read && |m.log| - held < RING_SIZE && (base == 0 ==> held == m.read)
    && Opens(m.log[..held]) == [] && (held < m.read ==> m.log[held].LoopOn?)
    && r.read == held % RING_SIZE && r.execute == m.execute % RING_SIZE && r.write == |m.log| % RING_SIZE
    && (r.inLoop <==> m.inLoop || held < m.read)
  }

  /** The upper entries of `loopStart` name the loops that are still open, so that loop commands can be added. */
  ghost predicate Synced(r: Ring, m: Machine, base: nat) {
    StackNames(r.loopStart, r.loopDepth, Opens(m.log), base)
  }

  ghost predicate StackNames(stack: seq<Index>, depth: nat, open: seq<nat>, base: nat) {
    && |stack| == LOOP_DEPTH_MAX
    && depth == base + |open| <= LOOP_DEPTH_MAX
    && forall k | 0 <= k < |open| :: stack[base + k] == open[k] % RING_SIZE
  }

  /** Only the slots, the pointers and the loop flag matter. */
  lemma TracksAlike(r: Ring, s: Ring, m: Engine, base: nat, held: nat)
    requires Tracks(r, m, base, held) && Shaped(s)
    requires s.slots == r.slots && s.read == r.read && s.write == r.write && s.execute == r.execute
    requires s.inLoop == r.inLoop
    ensures Tracks(s, m, base, held)
  {
  }

  lemma RingDistinct(i: nat, j: nat)
    requires i < j < i + RING_SIZE
    ensures i % RING_SIZE != j % RING_SIZE
  {
  }

  lemma RingIncrement(x: nat)
    ensures ScriptBufInc(x % RING_SIZE) == (x + 1) % RING_SIZE
  {
  }

  /** Within the live window the ring pointers tell apart what the positions tell apart. */
  lemma RingPointers(read: nat, execute: nat, write: nat)
    requires read <= execute <= write < read + RING_SIZE
    ensures ScriptBufInc(write % RING_SIZE) == (write + 1) % RING_SIZE
    ensures ScriptBufInc(execute % RING_SIZE) == (execute + 1) % RING_SIZE
    ensures ScriptBufInc(write % RING_SIZE) == read % RING_SIZE <==> write - read == RING_SIZE - 1
    ensures execute % RING_SIZE == write % RING_SIZE <==> execute == write
  {
    RingIncrement(write);
    RingIncrement(execute);
    if execute != write { RingDistinct(execute, write); }
    if write - read < RING_SIZE - 1 { RingDistinct(read, write + 1); }
  }

  lemma OpensAppended(before: seq<Slot>, slot: Slot)
    ensures Opens(before + [slot]) ==
            match slot
            case Act(_) => Opens(before)
            case LoopOn => Opens(before) + [|before|]
            case LoopOff(_, _, _) => if Opens(before) == [] then [] else Opens(before)[..|Opens(before)| - 1]
  {
    assert (before + [slot])[..|before|] == before;
  }

  // ---------- adding ----------

  lemma AppendHeld(slots: seq<LedCmd>, m: Engine, slot: Slot, base: nat, held: nat)
    requires SlotsHold(slots, m, base, held) && Inv(Append(m, slot))
    requires held <= m.read && |m.log| - held < RING_SIZE - 1
    requires slot.LoopOff? ==> slot.times < 256 && slot.depth + base < LOOP_DEPTH_MAX
    ensures SlotsHold(slots[|m.log| % RING_SIZE := Stored(slot, InitialCounter(slot), base)], Append(m, slot), base,
                      held)
  {
    var w := |m.log|;
    var s, a := slots[w % RING_SIZE := Stored(slot, InitialCounter(slot), base)], Append(m, slot);
    forall i | held <= i < |a.log| ensures SlotStored(s, a, i, base) {
      if i < w {
        RingDistinct(i, w);
        assert SlotStored(slots, m, i, base);
      }
    }
  }

  /** A write never overwrites a live slot, and refuses exactly in a full ring. */
  lemma WriteTracks(r: Ring, m: Engine, slot: Slot, base: nat, held: nat)
    requires Tracks(r, m, base, held) && Inv(Append(m, slot))
    requires slot.LoopOff? ==> slot.times < 256 && slot.depth + base < LOOP_DEPTH_MAX
    ensures HasRoom(r) <==> |m.log| - held < RING_SIZE - 1
    ensures Tracks(Written(r, Stored(slot, InitialCounter(slot), base)), if HasRoom(r) then Append(m, slot) else m,
                   base, held)
  {
    RingPointers(held, m.execute, |m.log|);
    if HasRoom(r) {
      AppendHeld(r.slots, m, slot, base, held);
      assert Append(m, slot).log[..held] == m.log[..held];
    }
  }

  lemma PushNamed(stack: seq<Index>, depth: nat, open: seq<nat>, base: nat, write: nat)
    requires StackNames(stack, depth, open, base) && depth < LOOP_DEPTH_MAX
    ensures StackNames(stack[depth := write % RING_SIZE], depth + 1, open + [write], base)
    ensures !StackNames(stack[depth := write % RING_SIZE], depth + 1, open, base)
  {
  }

  lemma PopNamed(stack: seq<Index>, depth: nat, open: seq<nat>, base: nat)
    requires StackNames(stack, depth, open, base) && open != []
    ensures StackNames(stack, depth - 1, open[..|open| - 1], base)
    ensures !StackNames(stack, depth - 1, open, base)
    ensures ScriptBufInc(stack[depth - 1]) == (open[|open| - 1] + 1) % RING_SIZE
  {
    RingIncrement(open[|open| - 1]);
  }

  predicate IsLoop(cmd: Received) {
    cmd.LoopStart? || cmd.LoopEnd?
  }

  /** The machine after ScriptCtrl_Add. */
  function MachineAdded(r: Ring, m: Machine, cmd: Received): Machine
    requires cmd.LoopEnd? && !r.isClearing ==> Opens(m.log) != []
  {
    if !r.isClearing && HasRoom(r) && (cmd.Script? || IsLoop(cmd))
    then Append(m, Compile(m.log, AsCommand(cmd)))
    else m
  }

  lemma AddActionTracks(r: Ring, m: Engine, base: nat, held: nat, cmd: Received)
    requires Tracks(r, m, base, held) && !r.isClearing && cmd.Script?
    ensures Inv(MachineAdded(r, m, cmd)) && Tracks(Added(r, cmd), MachineAdded(r, m, cmd), base, held)
    ensures Synced(r, m, base) ==> Synced(Added(r, cmd), MachineAdded(r, m, cmd), base)
  {
    AppendKeepsInv(m, AsCommand(cmd));
    OpensAppended(m.log, Act(cmd.action));
    WriteTracks(r, m, Act(cmd.action), base, held);
  }

  lemma AddLoopOnTracks(r: Ring, m: Engine, base: nat, held: nat, cmd: Received)
    requires Tracks(r, m, base, held) && !r.isClearing && cmd.LoopStart? && InBounds(r, cmd) && Synced(r, m, base)
    ensures Inv(MachineAdded(r, m, cmd)) && Tracks(Added(r, cmd), MachineAdded(r, m, cmd), base, held)
    ensures Synced(Added(r, cmd), MachineAdded(r, m, cmd), base) <==> HasRoom(r)
  {
    var p := Pushed(r);
    AppendKeepsInv(m, AsCommand(cmd));
    TracksAlike(r, p, m, base, held);
    WriteTracks(p, m, Slot.LoopOn, base, held);
    LoopOnSynced(r, p, m, base);
    assert Added(r, cmd).loopStart == p.loopStart && Added(r, cmd).loopDepth == p.loopDepth;
  }

  /** The entry that is pushed names the loop that is appended. */
  lemma LoopOnSynced(r: Ring, p: Ring, m: Machine, base: nat)
    requires Shaped(r) && r.loopDepth < LOOP_DEPTH_MAX && r.write == |m.log| % RING_SIZE && p == Pushed(r)
    requires Synced(r, m, base)
    ensures Synced(p, Append(m, Slot.LoopOn), base) && !Synced(p, m, base)
  {
    OpensAppended(m.log, Slot.LoopOn);
    PushNamed(r.loopStart, r.loopDepth, Opens(m.log), base, |m.log|);
  }

  lemma AddLoopOffTracks(r: Ring, m: Engine, base: nat, held: nat, cmd: Received)
    requires Tracks(r, m, base, held) && !r.isClearing && cmd.LoopEnd? && InBounds(r, cmd) && Synced(r, m, base)
    requires Opens(m.log) != []
    ensures Inv(MachineAdded(r, m, cmd)) && Tracks(Added(r, cmd), MachineAdded(r, m, cmd), base, held)
    ensures Synced(Added(r, cmd), MachineAdded(r, m, cmd), base) <==> HasRoom(r)
  {
    var slot := Compile(m.log, AsCommand(cmd));
    var p, n := r.(loopDepth := r.loopDepth - 1), cmd.numLoops;
    AppendKeepsInv(m, AsCommand(cmd));
    TracksAlike(r, p, m, base, held);
    LoopOffSynced(r, p, m, base, slot, n);
    WriteTracks(p, m, slot, base, held);
    assert Added(r, cmd).loopStart == p.loopStart && Added(r, cmd).loopDepth == p.loopDepth;
  }

  /** The entry that is popped names the loop that is closed, and the jump goes there. */
  lemma LoopOffSynced(r: Ring, p: Ring, m: Machine, base: nat, slot: Slot, n: Uns8)
    requires Shaped(r) && r.loopDepth > 0 && p == r.(loopDepth := r.loopDepth - 1)
    requires Synced(r, m, base) && Opens(m.log) != [] && slot == Compile(m.log, Command.LoopEnd(n))
    ensures Synced(p, Append(m, slot), base) && !Synced(p, m, base)
    ensures Stored(slot, n, base) == LedCmd.LoopOff(ScriptBufInc(p.loopStart[p.loopDepth]), n, n, p.loopDepth)
  {
    OpensAppended(m.log, slot);
    PopNamed(r.loopStart, r.loopDepth, Opens(m.log), base);
  }

  /** A stored command is appended to the machine in compiled form, exactly if there is room. A refused loop
      command leaves the stack wrong, and nothing else does. */
  lemma AddTracks(r: Ring, m: Engine, base: nat, held: nat, cmd: Received)
    requires Tracks(r, m, base, held) && InBounds(r, cmd)
    requires IsLoop(cmd) && !r.isClearing ==> Synced(r, m, base)
    requires cmd.LoopEnd? && !r.isClearing ==> Opens(m.log) != []
    ensures HasRoom(r) <==> |m.log| - held < RING_SIZE - 1
    ensures Inv(MachineAdded(r, m, cmd)) && Tracks(Added(r, cmd), MachineAdded(r, m, cmd), base, held)
    ensures Synced(r, m, base) ==>
              (Synced(Added(r, cmd), MachineAdded(r, m, cmd), base)
               <==> r.isClearing || HasRoom(r) || !IsLoop(cmd))
  {
    RingPointers(held, m.execute, |m.log|);
    if !r.isClearing {
      match cmd
      case Script(_) => AddActionTracks(r, m, base, held, cmd);
      case LoopStart => AddLoopOnTracks(r, m, base, held, cmd);
      case LoopEnd(_) => AddLoopOffTracks(r, m, base, held, cmd);
      case _ =>
    }
  }

  // ---------- running ----------

  /** The slots after a run: only the LOOP_OFF under `execute` can change, in its counter. */
  lemma StepHeld(slots: seq<LedCmd>, m: Engine, after: seq<LedCmd>, base: nat, held: nat, now: nat)
    requires SlotsHold(slots, m, base, held) && held <= m.read && |m.log| - held < RING_SIZE
    requires m.execute < |m.log| && |after| == RING_SIZE && held <= now
    requires forall k | 0 <= k < RING_SIZE && k != m.execute % RING_SIZE :: after[k] == slots[k]
    requires SlotStored(slots, m, m.execute, base)
    requires m.execute < now
             || Matches(after[m.execute % RING_SIZE], m.log[m.execute], CounterSeen(Step(m), m.execute), base)
    ensures Inv(Step(m)) && SlotsHold(after, Step(m), base, now)
  {
    StepKeepsInv(m);
    StepStaysInside(m);
    var e, s := m.execute, Step(m);
    forall i | now <= i < |s.log| ensures SlotStored(after, s, i, base) {
      assert SlotStored(slots, m, i, base);
      if i < e { RingDistinct(i, e); }
      if e < i { RingDistinct(e, i); }
      if m.read <= i < e { assert Armed(m, i); }
    }
  }

  /** Where the read pointer is after a run. */
  function HeldAfter(m: Machine, base: nat, held: nat): nat
    requires m.execute < |m.log| == |m.counters|
  {
    if base == 0 || (!m.inLoop && held == m.read) then Step(m).read else held
  }

  /** Outside every loop no LOOP_OFF comes up, and inside one the flag is up. */
  lemma LoopOffInLoop(m: Engine)
    requires m.execute < |m.log| && m.log[m.execute].LoopOff?
    ensures m.inLoop
  {
    assert ClosesInnermost(m.log, m.execute);
  }

  /** The read pointer only ever stops in front of a loop. */
  lemma HeldStops(m: Engine, base: nat, held: nat)
    requires m.execute < |m.log| && held <= m.read && Opens(m.log[..held]) == []
    requires base == 0 ==> held == m.read
    requires held < m.read ==> m.log[held].LoopOn?
    ensures var s, now := Step(m), HeldAfter(m, base, held);
            && held <= now <= s.read && (base == 0 ==> now == s.read)
            && Opens(s.log[..now]) == [] && (now < s.read ==> s.log[now].LoopOn?)
            && (s.inLoop || now < s.read <==>
                  if m.log[m.execute].LoopOn? then true
                  else if m.log[m.execute].LoopOff? && base == 0 && s.read > m.read then false
                  else m.inLoop || held < m.read)
  {
    StepStaysInside(m);
    if m.log[m.execute].LoopOff? { LoopOffInLoop(m); }
  }

  lemma CarryLoopOff(r: Ring, m: Engine, base: nat, held: nat)
    requires Tracks(r, m, base, held) && m.execute < |m.log| && m.log[m.execute].LoopOff?
    ensures Inv(Step(m)) && Tracks(Carried(r), Step(m), base, HeldAfter(m, base, held))
    ensures Carried(r).performed == r.performed && Carried(r).waitValue == r.waitValue
  {
    LoopOffInLoop(m);
    HeldStops(m, base, held);
    CarryLoopOffSlots(r, m, base, held);
    RingPointers(held, m.execute, |m.log|);
    StepStaysInside(m);
  }

  lemma CarryLoopOffSlots(r: Ring, m: Engine, base: nat, held: nat)
    requires Tracks(r, m, base, held) && m.execute < |m.log| && m.log[m.execute].LoopOff? && m.inLoop
    ensures Matches(r.slots[r.execute], m.log[m.execute], m.counters[m.execute], base)
    ensures Inv(Step(m)) && SlotsHold(Carried(r).slots, Step(m), base, HeldAfter(m, base, held))
  {
    StepStaysInside(m);
    assert SlotStored(r.slots, m, m.execute, base);
    StepHeld(r.slots, m, Carried(r).slots, base, held, HeldAfter(m, base, held));
  }

  lemma CarryOther(r: Ring, m: Engine, base: nat, held: nat)
    requires Tracks(r, m, base, held) && m.execute < |m.log| && !m.log[m.execute].LoopOff?
    ensures Matches(r.slots[r.execute], m.log[m.execute], 0, base) && Carried(r).slots == r.slots
    ensures Inv(Step(m)) && SlotsHold(r.slots, Step(m), base, HeldAfter(m, base, held))
  {
    assert SlotStored(r.slots, m, m.execute, base);
    HeldStops(m, base, held);
    StepHeld(r.slots, m, r.slots, base, held, HeldAfter(m, base, held));
  }

  lemma CarryLoopOn(r: Ring, m: Engine, base: nat, held: nat)
    requires Tracks(r, m, base, held) && m.execute < |m.log| && m.log[m.execute].LoopOn?
    ensures Inv(Step(m)) && Tracks(Carried(r), Step(m), base, HeldAfter(m, base, held))
    ensures Carried(r).performed == r.performed && Carried(r).waitValue == r.waitValue
  {
    CarryOther(r, m, base, held);
    RingPointers(held, m.execute, |m.log|);
    HeldStops(m, base, held);
    assert HeldAfter(m, base, held) == held;
  }

  lemma CarryAction(r: Ring, m: Engine, base: nat, held: nat)
    requires Tracks(r, m, base, held) && m.execute < |m.log| && m.log[m.execute].Act?
    ensures Inv(Step(m)) && Tracks(Carried(r), Step(m), base, HeldAfter(m, base, held))
    ensures Carried(r).performed == r.performed + [m.log[m.execute].action]
    ensures Lasts(m.log[m.execute].action, r.waitValue, Carried(r).waitValue)
  {
    CarryOther(r, m, base, held);
    RingPointers(held, m.execute, |m.log|);
    HeldStops(m, base, held);
    assert HeldAfter(m, base, held) == if m.inLoop || held < m.read then held else m.execute + 1;
  }

  /** Carrying out the fetched command is one step of the machine, whatever `base` is. */
  lemma CarryTracks(r: Ring, m: Engine, base: nat, held: nat)
    requires Tracks(r, m, base, held) && m.execute < |m.log|
    ensures Inv(Step(m)) && Tracks(Carried(r), Step(m), base, HeldAfter(m, base, held))
    ensures var slot := m.log[m.execute];
            && Carried(r).performed == r.performed + (if slot.Act? then [slot.action] else [])
            && if slot.Act? then Lasts(slot.action, r.waitValue, Carried(r).waitValue)
               else Carried(r).waitValue == r.waitValue
  {
    match m.log[m.execute]
    case Act(_) => CarryAction(r, m, base, held);
    case LoopOn => CarryLoopOn(r, m, base, held);
    case LoopOff(_, _, _) => CarryLoopOff(r, m, base, held);
  }

  /** ScriptCtrl_Run does something exactly if it is not stopped, not waiting, and a command is stored. */
  lemma RunCarries(r: Ring, m: Engine, base: nat, held: nat)
    requires Tracks(r, m, base, held) && !r.isClearing
    ensures Ran(r) == if r.isRunning && r.waitValue == 0 && m.execute < |m.log| then Carried(r) else r
  {
    RingPointers(held, m.execute, |m.log|);
  }

  lemma CarryKeepsStack(r: Ring, m: Engine, base: nat)
    requires Shaped(r) && Synced(r, m, base) && m.execute < |m.log|
    ensures Synced(Carried(r), Step(m), base)
  {
    assert Step(m).log == m.log;
    assert Carried(r).loopStart == r.loopStart && Carried(r).loopDepth == r.loopDepth;
  }

  /** Otherwise a run is one step of the machine. */
  lemma RunTracks(r: Ring, m: Engine, base: nat, held: nat)
    requires Tracks(r, m, base, held) && !r.isClearing
    ensures if r.isRunning && r.waitValue == 0 && m.execute < |m.log|
            then && Inv(Step(m)) && Tracks(Ran(r), Step(m), base, HeldAfter(m, base, held))
                 && Ran(r) == Carried(r)
                 && (Synced(r, m, base) ==> Synced(Ran(r), Step(m), base))
            else Ran(r) == r
  {
    RunCarries(r, m, base, held);
    if m.execute < |m.log| {
      CarryTracks(r, m, base, held);
      if Synced(r, m, base) { CarryKeepsStack(r, m, base); }
    }
  }

  lemma ClearTracks(r: Ring, done: seq<Event>)
    requires Shaped(r)
    ensures Tracks(Cleared(r), Start(done), r.loopDepth, 0) && Synced(Cleared(r), Start(done), r.loopDepth)
    ensures r.isClearing ==> Ran(r) == Cleared(r)
  {
  }

  // ---------- restarting ----------

  /** The machine after a restart. What the ring has not freed runs again, with its loops at their full counts. */
  function Replayed(m: Machine, held: nat): (r: Machine)
    requires |m.counters| == |m.log| && held <= m.read
    ensures |r.counters| == |r.log|
  {
    Machine(m.log, seq(|m.log|, i requires 0 <= i < |m.log| => if i < held then m.counters[i] else CounterSeen(m, i)),
            held, held, m.inLoop || held < m.read, m.done)
  }

  /** Where everything has been freed, that is the start of the pending construct. */
  lemma ReplayedIsRestarted(m: Machine, held: nat)
    requires |m.counters| == |m.log| && held == m.read
    ensures Replayed(m, held) == Restarted(m)
  {
  }

  lemma ReplayKeepsInv(m: Engine, held: nat)
    requires held <= m.read && Opens(m.log[..held]) == [] && (held < m.read ==> m.log[held].LoopOn?)
    ensures Inv(Replayed(m, held))
  {
    var s := Replayed(m, held);
    forall i | held <= i < |s.log| ensures CounterInRange(s, i) {
      if i >= m.read { assert CounterInRange(m, i); }
    }
  }

  /** ScriptCtrl_Init after a power loss. */
  lemma RestartTracks(r: Ring, m: Engine, base: nat, held: nat)
    requires Tracks(r, m, base, held)
    ensures Inv(Replayed(m, held)) && Tracks(Restored(r), Replayed(m, held), base, held)
  {
    ReplayKeepsInv(m, held);
    var s := Replayed(m, held);
    forall i | held <= i < |s.log| ensures SlotStored(r.slots, s, i, base) {
      assert SlotStored(r.slots, m, i, base);
    }
  }

  // ---------- which slots are freed ----------

  /** The position of the first LOOP_ON, or the end. */
  function FirstLoop(log: seq<Slot>): (p: nat)
    ensures p <= |log|
    ensures p < |log| ==> log[p].LoopOn?
  {
    if log == [] then 0
    else
      var n := |log| - 1;
      if FirstLoop(log[..n]) < n then FirstLoop(log[..n]) else if log[n].LoopOn? then n else n + 1
  }

  lemma {:induction false} NoLoopBefore(log: seq<Slot>, i: nat)
    requires i < FirstLoop(log)
    ensures !log[i].LoopOn?
  {
    var n := |log| - 1;
    if i < n { NoLoopBefore(log[..n], i); }
  }

  /** Slots are freed as in the machine, or with left-over entries on the stack only up to the first loop. */
  predicate FreesUntil(m: Machine, base: nat, held: nat) {
    held == if base == 0 || m.read < FirstLoop(m.log) then m.read else FirstLoop(m.log)
  }

  lemma StepFrees(m: Engine, base: nat, held: nat)
    requires FreesUntil(m, base, held) && m.execute < |m.log|
    ensures FreesUntil(Step(m), base, HeldAfter(m, base, held))
  {
    StepStaysInside(m);
    if base > 0 && m.read < FirstLoop(m.log) {
      NoLoopBefore(m.log, m.read);
      if m.log[m.execute].LoopOff? { LoopOffInLoop(m); }
    }
  }
}

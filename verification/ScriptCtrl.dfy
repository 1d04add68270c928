/** firmware/ScriptCtrl.c: the command ring in EEPROM, its pointers in RAM and their EEPROM copies, and the methods
    that change them. Every method is proved to be the operation of ScriptRing.dfy; as long as the client sends
    loop commands only where the stack of open loops is in order, the ghost fields say which machine of
    ScriptMachine.dfy the ring holds. */
module ScriptCtrl {
  import opened ScriptMachine
  import opened ScriptRing

  class ScriptBuf {
    // EEPROM
    const eeprom: array<LedCmd>
    var eepromRead: Index
    var eepromWrite: Index
    var eepromInLoop: bool

    // RAM
    const loopStart: array<Index>
    var loopDepth: Uns8
    var waitValue: nat
    var execute: Index
    var read: Index
    var write: Index
    var inLoop: bool
    var isRunning: bool
    var isClearing: bool

    // the calls into the led strip and the waits, in order
    var performed: seq<Action>

    // the machine that the ring holds, if `tracked`
    ghost var tracked: bool
    ghost var m: Engine
    ghost var base: nat
    ghost var held: nat

    /** What survives a power loss. */
    ghost function Eeprom(): Ring
      reads this, eeprom, loopStart
    {
      Ring(eeprom[..], eepromRead, eepromWrite, execute, eepromInLoop, loopStart[..], loopDepth, waitValue,
           isRunning, isClearing, performed)
    }

    ghost function Image(): Ring
      reads this, eeprom, loopStart
    {
      Ring(eeprom[..], read, write, execute, inLoop, loopStart[..], loopDepth, waitValue, isRunning, isClearing,
           performed)
    }

    ghost predicate Whole()
      reads this, eeprom, loopStart
    {
      Shaped(Image()) && read == eepromRead && write == eepromWrite && inLoop == eepromInLoop
    }

    ghost predicate Valid()
      reads this, eeprom, loopStart
    {
      Whole() && (tracked ==> Tracks(Image(), m, base, held))
    }

    /** `loopStart` names the loops that are still open, so that loop commands can be added. */
    ghost predicate InStep()
      reads this, eeprom, loopStart
    {
      tracked && Synced(Image(), m, base)
    }

    /** ScriptCtrl_Write */
    method Write(cmd: LedCmd) returns (code: ErrorCode)
      requires Whole()
      modifies this`isRunning, this`eepromWrite, this`write, eeprom
      ensures Whole() && Image() == Written(old(Image()), cmd)
      ensures code == if HasRoom(old(Image())) then OK else SCRIPTBUFFER_FULL
    {
      isRunning := true;
      var writeNext := ScriptBufInc(write);
      if writeNext != read {
        eeprom[write] := cmd;
        assert eeprom[..] == old(eeprom[..])[write := cmd];
        eepromWrite := writeNext;
        write := writeNext;
        code := OK;
      } else {
        code := SCRIPTBUFFER_FULL;
      }
    }

    /** The LOOP_ON case of ScriptCtrl_Add. */
    method AddLoopOn() returns (code: ErrorCode)
      requires Whole() && !isClearing && loopDepth < LOOP_DEPTH_MAX
      modifies this`isRunning, this`eepromWrite, this`write, this`loopDepth, eeprom, loopStart
      ensures Whole() && Image() == Added(old(Image()), LoopStart) && code == Answered(old(Image()), LoopStart)
    {
      loopStart[loopDepth] := write;
      assert loopStart[..] == old(loopStart[..])[old(loopDepth) := write];
      loopDepth := loopDepth + 1;
      code := Write(LedCmd.LoopOn);
    }

    /** The LOOP_OFF case of ScriptCtrl_Add. */
    method AddLoopOff(numLoops: Uns8) returns (code: ErrorCode)
      requires Whole() && !isClearing && loopDepth > 0
      modifies this`isRunning, this`eepromWrite, this`write, this`loopDepth, eeprom
      ensures Whole() && Image() == Added(old(Image()), Received.LoopEnd(numLoops))
      ensures code == Answered(old(Image()), Received.LoopEnd(numLoops))
    {
      loopDepth := loopDepth - 1;
      var start := loopStart[loopDepth];
      code := Write(LedCmd.LoopOff(ScriptBufInc(start), numLoops, numLoops, loopDepth));
    }

    /** The switch of ScriptCtrl_Add. */
    method Dispatch(cmd: Received) returns (code: ErrorCode)
      requires Whole() && InBounds(Image(), cmd)
      modifies this`isRunning, this`eepromWrite, this`write, this`loopDepth, this`isClearing, eeprom, loopStart
      ensures Whole() && Image() == Added(old(Image()), cmd) && code == Answered(old(Image()), cmd)
      ensures Told(old(Image()), cmd, Image(), code)
      ensures old(isClearing) ==> code == SCRIPTBUFFER_FULL
      ensures cmd.Script? || cmd.LoopStart? || cmd.LoopEnd? ==> (code == OK <==> write != old(write))
    {
      AnswerTells(Image(), cmd);
      if isClearing {
        return SCRIPTBUFFER_FULL;
      }
      match cmd
      case ClearScript =>
        isClearing := true;
        code := OK;
      case LoopStart =>
        code := AddLoopOn();
      case LoopEnd(numLoops) =>
        code := AddLoopOff(numLoops);
      case Script(action) =>
        code := Write(LedCmd.Perform(action));
      case Other(answer) =>
        code := answer;
    }

    /** The ring is in step with its machine, and so is a client that opens and closes loops properly. */
    ghost predicate Follows(cmd: Received)
      reads this, eeprom, loopStart
    {
      tracked && (IsLoop(cmd) && !isClearing ==> InStep() && (cmd.LoopEnd? ==> Opens(m.log) != []))
    }

    /** ScriptCtrl_Add. What a proper client sends is appended to the machine in compiled form if there is room,
        and a refused loop command alone makes the stack disagree with the stored loops. */
    method Add(cmd: Received) returns (code: ErrorCode)
      requires Valid() && InBounds(Image(), cmd)
      modifies this`isRunning, this`eepromWrite, this`write, this`loopDepth, this`isClearing, this`tracked, this`m,
               eeprom, loopStart
      ensures Valid() && Image() == Added(old(Image()), cmd) && code == Answered(old(Image()), cmd)
      ensures tracked == old(Follows(cmd))
      ensures tracked ==>
                && (old(HasRoom(Image())) <==> |old(m).log| - held < RING_SIZE - 1)
                && m == MachineAdded(old(Image()), old(m), cmd)
      ensures tracked && old(InStep()) ==>
                (InStep() <==> old(isClearing) || old(HasRoom(Image())) || !IsLoop(cmd))
      ensures Told(old(Image()), cmd, Image(), code)
      ensures old(isClearing) ==> code == SCRIPTBUFFER_FULL && Image() == old(Image())
      ensures cmd.Script? || cmd.LoopStart? || cmd.LoopEnd? ==> (code == OK <==> write != old(write))
    {
      ghost var before, follows := Image(), Follows(cmd);
      if follows {
        AddTracks(before, m, base, held, cmd);
        m := MachineAdded(before, m, cmd);
      }
      tracked := follows;
      code := Dispatch(cmd);
    }

    /** The assignments of ScriptCtrl_Clear. */
    method Reset()
      requires Whole()
      modifies this`eepromRead, this`eepromWrite, this`eepromInLoop, this`execute, this`read, this`write,
               this`inLoop, this`waitValue, this`isClearing
      ensures Whole() && Image() == Cleared(old(Image()))
    {
      eepromInLoop := false;
      inLoop := false;
      eepromRead := 0;
      read := 0;
      eepromWrite := 0;
      write := 0;
      execute := read;
      waitValue := 0;
      isClearing := false;
    }

    /** ScriptCtrl_Clear. `loopDepth` is not reset: it becomes the base of what is stored from now on. */
    method Clear()
      requires Whole()
      modifies this`eepromRead, this`eepromWrite, this`eepromInLoop, this`execute, this`read, this`write,
               this`inLoop, this`waitValue, this`isClearing, this`tracked, this`m, this`base, this`held
      ensures Valid() && InStep() && Image() == Cleared(old(Image()))
      ensures read == write == execute == waitValue == 0 && !inLoop && !isClearing
      ensures m == Start(old(m).done) && base == loopDepth && held == 0
    {
      ClearTracks(Image(), m.done);
      Reset();
      tracked, m, base, held := true, Start(m.done), loopDepth, 0;
    }

    /** What EEPROM alone keeps, with the machine's position in it. */
    ghost function Kept(): Ring
      reads this`eepromRead, this`eepromWrite, this`eepromInLoop, this`m, eeprom
    {
      Ring(eeprom[..], eepromRead, eepromWrite, m.execute % RING_SIZE, eepromInLoop, seq(LOOP_DEPTH_MAX, _ => 0), 0, 0,
           false, false, [])
    }

    /** EEPROM alone still holds the machine. */
    ghost predicate Survives()
      reads this`eepromRead, this`eepromWrite, this`eepromInLoop, this`tracked, this`m, this`base, this`held, eeprom
    {
      tracked && Tracks(Kept(), m, base, held)
    }

    /** ScriptCtrl_Init: nothing but EEPROM and the loop stack is relied on. Execution resumes at the first slot that
        is not free. */
    method Init()
      requires Shaped(Eeprom())
      modifies this`inLoop, this`read, this`write, this`execute, this`isRunning, this`tracked, this`m
      ensures Valid() && Image() == Restored(old(Eeprom()))
      ensures execute == read == eepromRead && write == eepromWrite && inLoop == eepromInLoop && isRunning
      ensures tracked == old(Survives()) && (tracked ==> held <= old(m).read && m == Replayed(old(m), held))
    {
      ghost var survives := Survives();
      if survives {
        RestartTracks(Kept(), m, base, held);
        TracksAlike(Restored(Kept()), Restored(Eeprom()), Replayed(m, held), base, held);
        m := Replayed(m, held);
      }
      tracked := survives;
      Load();
    }

    /** The assignments of ScriptCtrl_Init. */
    method Load()
      requires Shaped(Eeprom())
      modifies this`inLoop, this`read, this`write, this`execute, this`isRunning
      ensures Whole() && Image() == Restored(old(Eeprom()))
    {
      inLoop := eepromInLoop;
      read := eepromRead;
      write := eepromWrite;
      execute := read;
      isRunning := true;
    }

    /** InitAll of firmware/main.c clears the RAM first, whatever is in it. Loops that were open are then unknown to
        the stack: loop commands can be added exactly if there were none, and no entries below them. */
    method PowerUp()
      requires eeprom.Length == RING_SIZE && loopStart.Length == LOOP_DEPTH_MAX
      modifies this`loopDepth, this`waitValue, this`isClearing, this`inLoop, this`read, this`write, this`execute,
               this`isRunning, this`tracked, this`m, loopStart
      ensures Valid() && loopDepth == waitValue == 0 && !isClearing && isRunning
      ensures tracked == old(Survives())
      ensures tracked ==>
                && held <= old(m).read && m == Replayed(old(m), held)
                && (InStep() <==> base == 0 && Opens(m.log) == [])
    {
      loopDepth, waitValue, isClearing := 0, 0, false;
      for i := 0 to loopStart.Length
        invariant Survives() == old(Survives())
        modifies loopStart
      {
        loopStart[i] := 0;
      }
      Init();
    }

    /** A power loss leaves anything in the RAM. */
    method LosePower()
      requires Valid()
      modifies this`loopDepth, this`waitValue, this`isClearing, this`inLoop, this`read, this`write, this`execute,
               this`isRunning, loopStart
      ensures tracked ==> Survives()
    {
      if tracked { TracksAlike(Image(), Kept(), m, base, held); }
      loopDepth, waitValue, isClearing, inLoop, isRunning := *, *, *, *, *;
      read, write, execute := *, *, *;
      for i := 0 to loopStart.Length
        invariant tracked ==> Survives()
        modifies loopStart
      {
        loopStart[i] := *;
      }
    }

    /** A power loss, and the power-up after it. */
    method PowerCycle()
      requires Valid()
      modifies this`loopDepth, this`waitValue, this`isClearing, this`inLoop, this`read, this`write, this`execute,
               this`isRunning, this`tracked, this`m, loopStart
      ensures Valid() && loopDepth == waitValue == 0 && !isClearing && isRunning
      ensures tracked == old(tracked)
      ensures tracked ==>
                && held <= old(m).read && m == Replayed(old(m), held)
                && (InStep() <==> base == 0 && Opens(m.log) == [])
    {
      LosePower();
      PowerUp();
    }

    /** The switch of ScriptCtrl_Run. */
    method Carry()
      requires Whole()
      modifies this`execute, this`read, this`inLoop, this`eepromRead, this`eepromInLoop, this`performed,
               this`waitValue, eeprom
      ensures Whole() && Image() == Carried(old(Image()))
    {
      var nextCmd := eeprom[execute];
      match nextCmd {
        case LoopOn =>
          execute := ScriptBufInc(execute);
          eepromInLoop := true;
          inLoop := true;
        case LoopOff(_, _, _, _) =>
          CarryLoopEnd(nextCmd);
        case Perform(action) =>
          performed := performed + [action];
          StartWaiting(action);
          execute := ScriptBufInc(execute);
          if !inLoop {
            eepromRead := execute;
            read := execute;
          }
      }
    }

    /** What the SET_FADE, SET_GRADIENT and WAIT cases do to the time. */
    method StartWaiting(action: Action)
      modifies this`waitValue
      ensures waitValue == WaitAfter(action, old(waitValue)) && Lasts(action, old(waitValue), waitValue)
    {
      match action
      case SetFade(parallelFade, fadeTmms, _) =>
        if parallelFade == 0 {
          waitValue := fadeTmms;
        }
      case SetGradient(parallelAndOffset, fadeTmms, _) =>
        if parallelAndOffset / 128 % 2 == 0 {
          waitValue := fadeTmms;
        }
      case Wait(waitTmms) =>
        waitValue := waitTmms;
    }

    /** The LOOP_OFF case of ScriptCtrl_Run. */
    method CarryLoopEnd(nextCmd: LedCmd)
      requires Whole() && eeprom[execute] == nextCmd && nextCmd.LoopOff?
      modifies this`execute, this`read, this`inLoop, this`eepromRead, this`eepromInLoop, eeprom
      ensures Whole() && Image() == Carried(old(Image()))
    {
      if nextCmd.counter == 0 {
        execute := nextCmd.startIndex;
      } else if nextCmd.counter > 1 {
        Recount(nextCmd.(counter := nextCmd.counter - 1));
        execute := nextCmd.startIndex;
      } else if nextCmd.depth == 0 {
        execute := ScriptBufInc(execute);
        eepromRead := execute;
        read := execute;
        eepromInLoop := false;
        inLoop := false;
      } else {
        Recount(nextCmd.(counter := nextCmd.numLoops));
        execute := ScriptBufInc(execute);
      }
    }

    method Recount(cell: LedCmd)
      requires Whole()
      modifies eeprom
      ensures eeprom[..] == old(eeprom[..])[execute := cell]
    {
      eeprom[execute] := cell;
    }

    ghost predicate Ready()
      reads this
    {
      isRunning && waitValue == 0 && m.execute < |m.log|
    }

    /** The code of ScriptCtrl_Run. */
    method Go()
      requires Whole()
      modifies this`eepromRead, this`eepromWrite, this`eepromInLoop, this`execute, this`read, this`write,
               this`inLoop, this`waitValue, this`isClearing, this`performed, eeprom
      ensures Whole() && Image() == Ran(old(Image()))
    {
      if isClearing {
        Reset();
      }
      if !isRunning || waitValue > 0 || execute == write {
        return;
      }
      Carry();
    }

    /** ScriptCtrl_Run: a pending clear empties the buffer; otherwise a run that is not waiting performs
        one step of the machine and passes its action on. */
    method Run()
      requires Valid()
      modifies this, eeprom
      ensures Valid() && Image() == Ran(old(Image()))
      ensures loopDepth == old(loopDepth) && isRunning == old(isRunning) && !isClearing
      ensures old(isClearing) ==>
                && InStep() && m == Start(old(m).done) && base == loopDepth && held == 0
                && performed == old(performed) && waitValue == 0
      ensures !old(isClearing) ==> tracked == old(tracked) && base == old(base)
      ensures !old(isClearing) && old(tracked) && !old(Ready()) ==>
                m == old(m) && held == old(held) && performed == old(performed) && waitValue == old(waitValue)
      ensures !old(isClearing) && old(tracked) && old(Ready()) ==>
                var slot := old(m.log[m.execute]);
                && m == Step(old(m)) && held == HeldAfter(old(m), base, old(held))
                && performed == old(performed) + (if slot.Act? then [slot.action] else [])
                && (if slot.Act? then Lasts(slot.action, 0, waitValue) else waitValue == 0)
                && (slot.Act? && slot.action.Wait? ==> waitValue == slot.action.time)
      ensures old(InStep()) && !old(isClearing) ==> InStep()
    {
      ghost var before, ready := Image(), Ready();
      if isClearing {
        ClearTracks(before, m.done);
        tracked, m, base, held := true, Start(m.done), loopDepth, 0;
      } else if tracked {
        RunTracks(before, m, base, held);
        if ready {
          CarryTracks(before, m, base, held);
          held := HeldAfter(m, base, held);
          m := Step(m);
        }
      }
      Go();
      RanKeeps(before);
    }

    /** ScriptCtrl_DecrementWaitValue, from the low-priority interrupt. */
    method DecrementWaitValue()
      requires Valid()
      modifies this`waitValue
      ensures Valid() && (old(InStep()) ==> InStep()) && Image() == Ticked(old(Image()))
      ensures waitValue == if old(waitValue) > 0 then old(waitValue) - 1 else 0
    {
      if waitValue > 0 {
        waitValue := waitValue - 1;
      }
    }

    /** ScriptCtrl_CheckAndDecrementWaitValue, from the low-priority interrupt. */
    method CheckAndDecrementWaitValue()
      requires Valid()
      modifies this`waitValue
      ensures Valid() && (old(InStep()) ==> InStep()) && Image() == WaitCut(old(Image()))
      ensures waitValue == if old(waitValue) < 8 then 0 else old(waitValue)
    {
      if waitValue < 8 {
        waitValue := 0;
      }
    }
  }

  lemma RanKeeps(r: Ring)
    requires Shaped(r)
    ensures Ran(r).loopDepth == r.loopDepth && Ran(r).isRunning == r.isRunning && !Ran(r).isClearing
    ensures r.isClearing ==> Ran(r) == Cleared(r)
  {
  }
}

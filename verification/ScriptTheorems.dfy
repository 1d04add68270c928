/** The main results about the script engine: statements over every history of Adds, Runs and
    restarts, for finite and infinite scripts. */
module ScriptTheorems {
  import opened ScriptMachine
  import opened ScriptSemantics

  /** `Run` is one call of ScriptCtrl_Run that is neither waiting nor stopped. */
  datatype Operation = Add(command: Command) | Run | Restart

  function Apply(m: Machine, op: Operation): Machine {
    match op
    case Add(cmd) => if cmd.LoopEnd? && Opens(m.log) == [] then m else Append(m, Compile(m.log, cmd))
    case Run => if m.execute < |m.log| == |m.counters| then Step(m) else m
    case Restart => Restarted(m)
  }

  /** The machine after `ops`. */
  function History(m: Machine, ops: seq<Operation>): Machine {
    if ops == [] then m
    else Apply(History(m, ops[..|ops| - 1]), ops[|ops| - 1])
  }

  /** Every history of Adds, Runs and restarts keeps the invariant and the commands stored before. */
  lemma {:induction false} HistoryKeepsInv(m: Machine, ops: seq<Operation>)
    requires Inv(m)
    ensures Inv(History(m, ops))
    ensures |m.log| <= |History(m, ops).log| && History(m, ops).log[..|m.log|] == m.log
  {
    if ops != [] {
      var before := History(m, ops[..|ops| - 1]);
      HistoryKeepsInv(m, ops[..|ops| - 1]);
      ApplyKeepsInv(before, ops[|ops| - 1]);
      KeepsPrefix(m.log, before.log, History(m, ops).log);
    }
  }

  lemma KeepsPrefix<T>(a: seq<T>, b: seq<T>, c: seq<T>)
    requires |a| <= |b| <= |c| && b[..|a|] == a && c[..|b|] == b
    ensures c[..|a|] == a
  {
    assert c[..|a|] == c[..|b|][..|a|];
  }

  lemma ApplyKeepsInv(m: Machine, op: Operation)
    requires Inv(m)
    ensures var r := Apply(m, op); Inv(r) && |m.log| <= |r.log| && r.log[..|m.log|] == m.log
  {
    match op
    case Add(cmd) => if !(cmd.LoopEnd? && Opens(m.log) == []) { AppendKeepsInv(m, cmd); }
    case Run => if m.execute < |m.log| { StepKeepsInv(m); }
    case Restart => RestartKeepsInv(m);
  }

  /** The commands a history stores. */
  function Commands(ops: seq<Operation>): seq<Command> {
    if ops == [] then []
    else Commands(ops[..|ops| - 1])
         + match ops[|ops| - 1] case Add(c) => [c] case Run => [] case Restart => []
  }

  lemma {:induction false} HistoryStores(m: Machine, ops: seq<Operation>)
    ensures History(m, ops).log == CompileAll(m.log, Commands(ops))
  {
    if ops != [] {
      var init, op := ops[..|ops| - 1], ops[|ops| - 1];
      HistoryStores(m, init);
      if op.Add? {
        CompileLast(m.log, Commands(init), op.command);
        assert Commands(ops) == Commands(init) + [op.command];
      } else {
        assert Commands(ops) == Commands(init) + [] == Commands(init);
        assert Apply(History(m, init), op).log == History(m, init).log;
      }
    }
  }

  lemma CompileLast(log: seq<Slot>, cmds: seq<Command>, cmd: Command)
    ensures var l := CompileAll(log, cmds);
            CompileAll(log, cmds + [cmd])
            == if cmd.LoopEnd? && Opens(l) == [] then l else l + [Compile(l, cmd)]
  {
    var l := CompileAll(log, cmds);
    CompileAllAppend(log, cmds, [cmd]);
    assert CompileAll(l, [cmd][1..]) == l;
    if !(cmd.LoopEnd? && Opens(l) == []) {
      assert CompileAll(l + [Compile(l, cmd)], [cmd][1..]) == l + [Compile(l, cmd)];
    }
  }

  /** Without a restart every loop that is not entered keeps its full count, in every history. */
  lemma {:induction false} HistoryKeepsFresh(m: Machine, ops: seq<Operation>)
    requires Inv(m) && FreshAhead(m) && Restart !in ops
    ensures Inv(History(m, ops)) && FreshAhead(History(m, ops))
  {
    if ops != [] {
      var init, op := ops[..|ops| - 1], ops[|ops| - 1];
      HistoryKeepsFresh(m, init);
      var b := History(m, init);
      ApplyKeepsInv(b, op);
      match op
      case Add(cmd) =>
        if !(cmd.LoopEnd? && Opens(b.log) == []) { AppendKeepsFresh(b, Compile(b.log, cmd)); }
      case Run => if b.execute < |b.log| { StepKeepsFresh(b); }
    }
  }

  /** One Add or Run moves an event from what is to come to what is done, or adds to what is to come. */
  lemma ApplyConserves(b: Machine, op: Operation)
    requires Inv(b) && op != Restart && Finite(b.log)
    ensures var r := Apply(b, op);
            && Inv(r) && |b.log| <= |r.log| && r.log[..|b.log|] == b.log
            && r.done + Future(r) == b.done + Future(b) + Segment(r.log, |b.log|, |r.log|)
  {
    ApplyKeepsInv(b, op);
    var r := Apply(b, op);
    match op
    case Add(cmd) =>
      if cmd.LoopEnd? && Opens(b.log) == [] {
        assert Segment(r.log, |b.log|, |r.log|) == [];
      } else {
        AppendExtendsFuture(b, Compile(b.log, cmd));
        Associate(b.done, Future(b), Segment(r.log, |b.log|, |r.log|));
      }
    case Run =>
      assert Segment(r.log, |b.log|, |r.log|) == [];
      if b.execute < |b.log| {
        StepPerformsHead(b);
        Associate(b.done, [EventOf(b.log[b.execute])], Future(r));
      }
  }

  lemma Associate<T>(a: seq<T>, b: seq<T>, c: seq<T>)
    ensures (a + b) + c == a + (b + c)
  {
  }

  lemma FinitePrefix(a: seq<Slot>, b: seq<Slot>)
    requires |a| <= |b| && b[..|a|] == a && Finite(b)
    ensures Finite(a)
  {
    forall i | 0 <= i < |a| && a[i].LoopOff? ensures a[i].times > 0 {
      assert a[i] == b[..|a|][i];
    }
  }

  /** Conservation: however Adds and Runs interleave, what has been done and what is still to be
      done together are what was there before and one pass over what was stored. */
  lemma {:induction false} HistoryConserves(m: Machine, ops: seq<Operation>)
    requires Inv(m) && Restart !in ops && Finite(History(m, ops).log)
    ensures var r := History(m, ops);
            && Inv(r) && |m.log| <= |r.log|
            && r.done + Future(r) == m.done + Future(m) + Segment(r.log, |m.log|, |r.log|)
  {
    if ops == [] {
      assert Segment(m.log, |m.log|, |m.log|) == [];
    } else {
      var n := |ops| - 1;
      var b, r := History(m, ops[..n]), History(m, ops);
      HistoryKeepsInv(m, ops[..n]);
      ApplyKeepsInv(b, ops[n]);
      FinitePrefix(b.log, r.log);
      HistoryConserves(m, ops[..n]);
      ApplyConserves(b, ops[n]);
      SegmentSplit(r.log, |m.log|, |b.log|, |r.log|);
      assert r.log == b.log + r.log[|b.log|..];
      SegmentPrefix(b.log, r.log[|b.log|..], |m.log|, |b.log|);
      Associate(m.done + Future(m), Segment(b.log, |m.log|, |b.log|), Segment(r.log, |b.log|, |r.log|));
    }
  }

  /** Nothing is left to do exactly when execution has reached the end of the buffer. */
  lemma FutureEmpty(m: Machine)
    requires m.execute <= |m.log| == |m.counters|
    ensures Future(m) == [] <==> m.execute == |m.log|
  {
    if m.execute < |m.log| {
      assert Weight(m.log, |m.log| - 1, m.counters[|m.log| - 1]) != [];
    }
  }

  // ---------- draining ----------

  function Runs(n: nat): seq<Operation> {
    seq(n, _ => Run)
  }

  lemma RunsLast(m: Machine, n: nat)
    requires n > 0
    ensures History(m, Runs(n)) == Apply(History(m, Runs(n - 1)), Run)
  {
    assert Runs(n)[..n - 1] == Runs(n - 1);
  }

  /** `b` has `n` of the events `all` behind it and the others before it. */
  ghost predicate Halfway(b: Machine, log: seq<Slot>, done: seq<Event>, all: seq<Event>, n: nat) {
    && Inv(b) && b.log == log && n <= |all|
    && b.done == done + all[..n] && Future(b) == all[n..]
  }

  lemma RunPerformsNext(b: Machine, log: seq<Slot>, done: seq<Event>, all: seq<Event>, n: nat)
    requires Finite(log) && n < |all| && Halfway(b, log, done, all, n)
    ensures Halfway(Apply(b, Run), log, done, all, n + 1)
  {
    FutureEmpty(b);
    StepPerformsHead(b);
    HeadMoves(done, all, n + 1, EventOf(b.log[b.execute]), Future(Step(b)));
  }

  lemma {:induction false} RunsHalfway(m: Machine, n: nat)
    requires Inv(m) && Finite(m.log) && n <= |Future(m)|
    ensures Halfway(History(m, Runs(n)), m.log, m.done, Future(m), n)
  {
    if n > 0 {
      RunsHalfway(m, n - 1);
      RunsLast(m, n);
      RunPerformsNext(History(m, Runs(n - 1)), m.log, m.done, Future(m), n - 1);
    }
  }

  /** From every state the engine can be in, also after a restart in the middle of a loop, `n` runs
      perform exactly the next `n` events; with no infinite loop stored it drains after
      exactly |Future| of them and not earlier, so a run is never stuck on a stored command. */
  lemma RunsPerformFuture(m: Machine, n: nat)
    requires Inv(m) && Finite(m.log) && n <= |Future(m)|
    ensures var r := History(m, Runs(n));
            && Inv(r) && r.log == m.log
            && r.done == m.done + Future(m)[..n]
            && Future(r) == Future(m)[n..]
            && (r.execute == |r.log| <==> n == |Future(m)|)
  {
    RunsHalfway(m, n);
    FutureEmpty(History(m, Runs(n)));
  }

  lemma HeadMoves<T>(done: seq<T>, all: seq<T>, n: nat, e: T, rest: seq<T>)
    requires 0 < n <= |all| && all[n - 1..] == [e] + rest
    ensures done + all[..n - 1] + [e] == done + all[..n] && rest == all[n..]
  {
    assert all[n - 1..][0] == e;
    assert all[n - 1..][1..] == rest;
  }

  /** A restart in any state leaves a buffer that runs to its end in |Future| runs. */
  lemma RestartDrains(m: Machine)
    requires Inv(m) && Finite(m.log)
    ensures var r := Restarted(m);
            && Inv(r) && r.read == r.execute == m.read && r.log == m.log && Opens(m.log[..r.execute]) == []
            && History(r, Runs(|Future(r)|)).execute == |m.log|
  {
    RestartKeepsInv(m);
    RunsPerformFuture(Restarted(m), |Future(Restarted(m))|);
  }

  // ---------- infinite loops, through every finite bound ----------

  function Bounded(s: Script, k: nat): Script {
    match s
    case End => End
    case Do(a, rest) => Do(a, Bounded(rest, k))
    case Repeat(n, body, rest) => Repeat(if n == 0 then k else n, Bounded(body, k), Bounded(rest, k))
  }

  function BoundCommand(c: Command, k: nat): Command {
    if c.LoopEnd? && c.times == 0 then LoopEnd(k) else c
  }

  function BoundSlot(slot: Slot, k: nat): Slot {
    if slot.LoopOff? && slot.times == 0 then slot.(times := k) else slot
  }

  function BoundOperation(op: Operation, k: nat): Operation {
    if op.Add? then Add(BoundCommand(op.command, k)) else op
  }

  function BoundOperations(ops: seq<Operation>, k: nat): seq<Operation> {
    seq(|ops|, i requires 0 <= i < |ops| => BoundOperation(ops[i], k))
  }

  /** `v` is `m` with its infinite loops counted; none of them can end within `left` runs. */
  ghost predicate Follows(m: Machine, v: Machine, k: nat, left: nat) {
    && |m.log| == |v.log| == |m.counters| == |v.counters|
    && m.read == v.read && m.execute == v.execute && m.inLoop == v.inLoop && m.done == v.done
    && (forall i | 0 <= i < |m.log| :: FollowsAt(m, v, k, left, i))
  }

  ghost predicate FollowsAt(m: Machine, v: Machine, k: nat, left: nat, i: nat)
    requires i < |m.log| == |v.log| == |m.counters| == |v.counters|
  {
    && v.log[i] == BoundSlot(m.log[i], k)
    && if m.log[i].LoopOff? && m.log[i].times == 0 then m.counters[i] == 0 && left < v.counters[i]
       else m.counters[i] == v.counters[i]
  }

  lemma {:induction false} BoundOpens(a: seq<Slot>, b: seq<Slot>, k: nat)
    requires |a| == |b| && forall i | 0 <= i < |a| :: b[i] == BoundSlot(a[i], k)
    ensures Opens(a) == Opens(b)
  {
    if a != [] { BoundOpens(a[..|a| - 1], b[..|b| - 1], k); }
  }

  lemma FollowsOpens(m: Machine, v: Machine, k: nat, left: nat)
    requires Follows(m, v, k, left)
    ensures Opens(m.log) == Opens(v.log)
  {
    forall i | 0 <= i < |m.log| ensures v.log[i] == BoundSlot(m.log[i], k) {
      assert FollowsAt(m, v, k, left, i);
    }
    BoundOpens(m.log, v.log, k);
  }

  lemma StepFollows(m: Machine, v: Machine, k: nat, left: nat)
    requires Inv(m) && m.execute < |m.log| && Follows(m, v, k, left + 1)
    ensures Follows(Step(m), Step(v), k, left)
  {
    assert FollowsAt(m, v, k, left + 1, m.execute);
    assert CounterInRange(m, m.execute);
    forall i | 0 <= i < |m.log| ensures FollowsAt(Step(m), Step(v), k, left, i) {
      assert FollowsAt(m, v, k, left + 1, i);
    }
  }

  lemma AppendFollows(m: Machine, v: Machine, slot: Slot, k: nat, left: nat)
    requires Follows(m, v, k, left + 1) && left < k
    ensures Follows(Append(m, slot), Append(v, BoundSlot(slot, k)), k, left)
  {
    var m', v' := Append(m, slot), Append(v, BoundSlot(slot, k));
    forall i | 0 <= i < |m'.log| ensures FollowsAt(m', v', k, left, i) {
      if i < |m.log| { assert FollowsAt(m, v, k, left + 1, i); }
    }
  }

  lemma ApplyFollows(m: Machine, v: Machine, op: Operation, k: nat, left: nat)
    requires Inv(m) && Inv(v) && op != Restart && left + 1 < k && Follows(m, v, k, left + 1)
    ensures Follows(Apply(m, op), Apply(v, BoundOperation(op, k)), k, left)
  {
    FollowsOpens(m, v, k, left + 1);
    match op
    case Add(cmd) =>
      if cmd.LoopEnd? && Opens(m.log) == [] {
        FollowsLess(m, v, k, left);
      } else {
        AppendFollows(m, v, Compile(m.log, cmd), k, left);
      }
    case Run =>
      if m.execute < |m.log| { StepFollows(m, v, k, left); } else { FollowsLess(m, v, k, left); }
  }

  lemma FollowsLess(m: Machine, v: Machine, k: nat, left: nat)
    requires Follows(m, v, k, left + 1)
    ensures Follows(m, v, k, left)
  {
    forall i | 0 <= i < |m.log| ensures FollowsAt(m, v, k, left, i) {
      assert FollowsAt(m, v, k, left + 1, i);
    }
  }

  lemma HistoryInv(done: seq<Event>, ops: seq<Operation>)
    ensures Inv(History(Start(done), ops))
  {
    HistoryKeepsInv(Start(done), ops);
  }

  /** A history and its counted copy go hand in hand for fewer than `k` operations. */
  lemma {:induction false} HistoryFollows(done: seq<Event>, ops: seq<Operation>, k: nat)
    requires Restart !in ops && |ops| < k
    ensures Follows(History(Start(done), ops), History(Start(done), BoundOperations(ops, k)), k, k - |ops| - 1)
  {
    if ops != [] {
      var init := ops[..|ops| - 1];
      HistoryFollows(done, init, k);
      HistoryInv(done, init);
      HistoryInv(done, BoundOperations(init, k));
      assert BoundOperations(ops, k)[..|ops| - 1] == BoundOperations(init, k);
      ApplyFollows(History(Start(done), init), History(Start(done), BoundOperations(init, k)),
                   ops[|ops| - 1], k, k - |ops| - 1);
    }
  }

  function BoundCommands(cs: seq<Command>, k: nat): seq<Command> {
    seq(|cs|, i requires 0 <= i < |cs| => BoundCommand(cs[i], k))
  }

  lemma {:induction false} CommandsOfBounded(ops: seq<Operation>, k: nat)
    ensures Commands(BoundOperations(ops, k)) == BoundCommands(Commands(ops), k)
  {
    if ops != [] {
      var init := ops[..|ops| - 1];
      CommandsOfBounded(init, k);
      assert BoundOperations(ops, k)[..|ops| - 1] == BoundOperations(init, k);
    }
  }

  lemma {:induction false} FlattenBounded(s: Script, k: nat)
    ensures Flatten(Bounded(s, k)) == BoundCommands(Flatten(s), k)
  {
    match s
    case End =>
    case Do(a, rest) => FlattenBounded(rest, k);
    case Repeat(n, body, rest) =>
      FlattenBounded(body, k);
      FlattenBounded(rest, k);
  }

  lemma {:induction false} BoundedFinite(s: Script, k: nat)
    requires k > 0
    ensures NoInfiniteLoop(Bounded(s, k))
    ensures NoInfiniteLoop(s) ==> Bounded(s, k) == s
    ensures !NoInfiniteLoop(s) ==> Cost(Bounded(s, k)) > k
  {
    match s
    case End =>
    case Do(a, rest) => BoundedFinite(rest, k);
    case Repeat(n, body, rest) =>
      BoundedFinite(body, k);
      BoundedFinite(rest, k);
      var times, c := if n == 0 then k else n, Cost(Bounded(body, k)) + 1;
      assert times * c >= times && times * c >= c by { Product(times, c); }
  }

  lemma Product(a: nat, b: nat)
    requires a > 0 && b > 0
    ensures a * b >= a && a * b >= b
  {
  }

  lemma {:induction false} CompileAllFinite(log: seq<Slot>, cs: seq<Command>)
    requires Finite(log) && forall i | 0 <= i < |cs| && cs[i].LoopEnd? :: cs[i].times > 0
    ensures Finite(CompileAll(log, cs))
    decreases |cs|
  {
    if cs != [] {
      if cs[0].LoopEnd? && Opens(log) == [] { CompileAllFinite(log, cs[1..]); }
      else { CompileAllFinite(log + [Compile(log, cs[0])], cs[1..]); }
    }
  }

  /** A finite script whose Adds interleave with Runs in any way: what is done and what is to come
      are together its unrolling. It is drained exactly when it has made `Cost` effective
      runs; then all slots are free, the engine is outside every loop, and the actions
      performed are those of the loops written out, in order. */
  lemma FiniteScript(done: seq<Event>, ops: seq<Operation>, s: Script)
    requires Restart !in ops && Commands(ops) == Flatten(s) && NoInfiniteLoop(s)
    ensures var r := History(Start(done), ops);
            && Inv(r) && r.done + Future(r) == done + Unroll(s)
            && (r.execute == |r.log| <==> |r.done| == |done| + Cost(s))
            && (r.execute == |r.log| ==>
                  && r.read == r.execute && !r.inLoop
                  && r.done == done + Unroll(s)
                  && Performed(r.done) == Performed(done) + Actions(s))
  {
    var r := History(Start(done), ops);
    StoredScript(done, ops, s);
    FutureEmpty(r);
    UnrollPerforms(s);
    PerformedAppend(done, Unroll(s));
    if r.execute == |r.log| { DrainedIsEmpty(r); }
  }

  lemma CompiledFromScratch(s: Script)
    requires NoInfiniteLoop(s)
    ensures var all := CompileAll([], Flatten(s));
            Finite(all) && Opens(all) == [] && Segment(all, 0, |all|) == Unroll(s)
  {
    FlattenFinite(s);
    CompileAllFinite([], Flatten(s));
    CompiledMeansUnrolled([], s);
  }

  lemma HistoryFromStart(done: seq<Event>, ops: seq<Operation>)
    requires Restart !in ops && Finite(History(Start(done), ops).log)
    ensures var r := History(Start(done), ops);
            Inv(r) && r.done + Future(r) == done + Segment(r.log, 0, |r.log|)
  {
    HistoryConserves(Start(done), ops);
    assert Future(Start(done)) == [];
    assert done + [] == done;
  }

  lemma StoredScript(done: seq<Event>, ops: seq<Operation>, s: Script)
    requires Restart !in ops && Commands(ops) == Flatten(s) && NoInfiniteLoop(s)
    ensures var r := History(Start(done), ops);
            Inv(r) && Finite(r.log) && Opens(r.log) == [] && r.done + Future(r) == done + Unroll(s)
  {
    HistoryStores(Start(done), ops);
    CompiledFromScratch(s);
    HistoryFromStart(done, ops);
  }

  lemma {:induction false} FlattenFinite(s: Script)
    requires NoInfiniteLoop(s)
    ensures forall i | 0 <= i < |Flatten(s)| && Flatten(s)[i].LoopEnd? :: Flatten(s)[i].times > 0
  {
    match s
    case End =>
    case Do(a, rest) => FlattenFinite(rest);
    case Repeat(n, body, rest) =>
      FlattenFinite(body);
      FlattenFinite(rest);
  }

  /** Any script, also with infinite loops: for every bound beyond the length of the history, what
      has been done is a beginning of the script with each infinite loop written out that often.
      A script with an infinite loop is never drained. */
  lemma AnyScript(done: seq<Event>, ops: seq<Operation>, s: Script, k: nat)
    requires Restart !in ops && Commands(ops) == Flatten(s) && |ops| < k
    ensures var r := History(Start(done), ops);
            && r.done <= done + Unroll(Bounded(s, k))
            && (r.execute == |r.log| <==> r.done == done + Unroll(Bounded(s, k)))
            && (r.execute == |r.log| ==> NoInfiniteLoop(s))
  {
    var counted := BoundOperations(ops, k);
    var r, v := History(Start(done), ops), History(Start(done), counted);
    HistoryFollows(done, ops, k);
    CommandsOfBounded(ops, k);
    FlattenBounded(s, k);
    BoundedFinite(s, k);
    FiniteScript(done, counted, Bounded(s, k));
    DoneGrows(Start(done), ops);
    UnrollPerforms(Bounded(s, k));
    FutureEmpty(v);
  }

  lemma {:induction false} DoneGrows(m: Machine, ops: seq<Operation>)
    requires Inv(m)
    ensures |m.done| <= |History(m, ops).done| <= |m.done| + |ops|
  {
    if ops != [] { DoneGrows(m, ops[..|ops| - 1]); }
  }

  function AddAll(cs: seq<Command>): seq<Operation> {
    seq(|cs|, i requires 0 <= i < |cs| => Add(cs[i]))
  }

  /** Stored completely and then run `n` times, a finite script performs the first `n` events of its
      unrolling, and exactly `Cost` runs drain it. */
  lemma RunScript(s: Script, n: nat)
    requires NoInfiniteLoop(s) && n <= Cost(s)
    ensures var r := History(History(Start([]), AddAll(Flatten(s))), Runs(n));
            && n <= |Unroll(s)| && r.done == Unroll(s)[..n]
            && (r.execute == |r.log| <==> n == Cost(s))
  {
    var stored := History(Start([]), AddAll(Flatten(s)));
    AddsOnly(Start([]), Flatten(s));
    StoredScript([], AddAll(Flatten(s)), s);
    NothingDone(stored.done, Future(stored), Unroll(s));
    UnrollPerforms(s);
    RunsFromStored(stored, Unroll(s), n);
  }

  lemma NothingDone<T>(done: seq<T>, future: seq<T>, all: seq<T>)
    requires done == [] && done + future == [] + all
    ensures future == all
  {
    assert done + future == future;
  }

  lemma RunsFromStored(m: Machine, all: seq<Event>, n: nat)
    requires Inv(m) && Finite(m.log) && m.done == [] && Future(m) == all && n <= |all|
    ensures var r := History(m, Runs(n));
            r.done == all[..n] && (r.execute == |r.log| <==> n == |all|)
  {
    RunsPerformFuture(m, n);
  }

  lemma {:induction false} AddsOnly(m: Machine, cs: seq<Command>)
    ensures Commands(AddAll(cs)) == cs
    ensures History(m, AddAll(cs)).done == m.done
    ensures Restart !in AddAll(cs)
  {
    if cs != [] {
      AddsOnly(m, cs[..|cs| - 1]);
      assert AddAll(cs)[..|cs| - 1] == AddAll(cs[..|cs| - 1]);
    }
  }
}

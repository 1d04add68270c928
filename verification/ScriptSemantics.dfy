/** What a script means, and the proof that the engine does it.

    Future(m) is the list of events that machine `m` still has to perform. Every effective run
    performs exactly its head, and accepting a command only appends to it; so no interleaving
    of Adds and Runs changes what a script does. For a structured script the total is Unroll,
    the loops written out. Infinite loops are reached through finite ones: for every bound. */
module ScriptSemantics {
  import opened ScriptMachine

  // ---------- the events of a stored command ----------

  function Power<T>(s: seq<T>, n: nat): seq<T> {
    if n == 0 then [] else s + Power(s, n - 1)
  }

  /** All events of slot `i` and of the jumps it still makes, when its counter is `c`. */
  function Weight(log: seq<Slot>, i: nat, c: nat): seq<Event>
    requires i < |log|
    decreases i, 1
  {
    if log[i].LoopOff? && c > 1 && log[i].start <= i
    then [Moved] + Power(Segment(log, log[i].start, i) + [Moved], c - 1)
    else [EventOf(log[i])]
  }

  /** One pass over the slots `i..j`, with all inner loops at their full count. */
  function Segment(log: seq<Slot>, i: nat, j: nat): seq<Event>
    requires i <= j <= |log|
    decreases j, 0
  {
    if i == j then []
    else Segment(log, i, j - 1) + Weight(log, j - 1, InitialCounter(log[j - 1]))
  }

  /** The events of the slots `i..j` with the given counters. */
  function Remaining(log: seq<Slot>, counters: seq<nat>, i: nat, j: nat): seq<Event>
    requires i <= j <= |log| == |counters|
    decreases j
  {
    if i == j then []
    else Remaining(log, counters, i, j - 1) + Weight(log, j - 1, counters[j - 1])
  }

  /** The events that `m` still has to perform. */
  function Future(m: Machine): seq<Event>
    requires m.execute <= |m.log| == |m.counters|
  {
    Remaining(m.log, m.counters, m.execute, |m.log|)
  }

  /** No infinite loop is stored. */
  ghost predicate Finite(log: seq<Slot>) {
    forall i | 0 <= i < |log| && log[i].LoopOff? :: log[i].times > 0
  }

  lemma {:induction false} RemainingSplit(log: seq<Slot>, counters: seq<nat>, i: nat, k: nat, j: nat)
    requires i <= k <= j <= |log| == |counters|
    ensures Remaining(log, counters, i, j) == Remaining(log, counters, i, k) + Remaining(log, counters, k, j)
    decreases j
  {
    if k < j { RemainingSplit(log, counters, i, k, j - 1); }
  }

  lemma {:induction false} RemainingSame(log: seq<Slot>, c1: seq<nat>, c2: seq<nat>, i: nat, j: nat)
    requires i <= j <= |log| == |c1| == |c2|
    requires forall k | i <= k < j && log[k].LoopOff? :: c1[k] == c2[k]
    ensures Remaining(log, c1, i, j) == Remaining(log, c2, i, j)
    decreases j
  {
    if i < j { RemainingSame(log, c1, c2, i, j - 1); }
  }

  lemma {:induction false} RemainingArmed(log: seq<Slot>, counters: seq<nat>, i: nat, j: nat)
    requires i <= j <= |log| == |counters|
    requires forall k | i <= k < j && log[k].LoopOff? :: counters[k] == log[k].times
    ensures Remaining(log, counters, i, j) == Segment(log, i, j)
    decreases j
  {
    if i < j { RemainingArmed(log, counters, i, j - 1); }
  }

  /** Later slots do not change what earlier ones do. */
  lemma {:induction false} SegmentPrefix(log: seq<Slot>, more: seq<Slot>, i: nat, j: nat)
    requires i <= j <= |log|
    ensures Segment(log + more, i, j) == Segment(log, i, j)
    decreases j, 0
  {
    if i < j {
      SegmentPrefix(log, more, i, j - 1);
      WeightPrefix(log, more, j - 1, InitialCounter(log[j - 1]));
    }
  }

  lemma {:induction false} WeightPrefix(log: seq<Slot>, more: seq<Slot>, i: nat, c: nat)
    requires i < |log|
    ensures Weight(log + more, i, c) == Weight(log, i, c)
    decreases i, 1
  {
    if log[i].LoopOff? && log[i].start <= i { SegmentPrefix(log, more, log[i].start, i); }
  }

  lemma {:induction false} RemainingPrefix(log: seq<Slot>, more: seq<Slot>, c: seq<nat>, d: seq<nat>, i: nat, j: nat)
    requires i <= j <= |log| == |c| && |d| == |more|
    ensures Remaining(log + more, c + d, i, j) == Remaining(log, c, i, j)
    decreases j
  {
    if i < j {
      RemainingPrefix(log, more, c, d, i, j - 1);
      WeightPrefix(log, more, j - 1, c[j - 1]);
      assert Remaining(log + more, c + d, i, j)
          == Remaining(log + more, c + d, i, j - 1) + Weight(log + more, j - 1, c[j - 1]);
    }
  }

  lemma {:induction false} SegmentSplit(log: seq<Slot>, i: nat, k: nat, j: nat)
    requires i <= k <= j <= |log|
    ensures Segment(log, i, j) == Segment(log, i, k) + Segment(log, k, j)
    decreases j
  {
    if k < j { SegmentSplit(log, i, k, j - 1); }
  }

  // ---------- a run performs the head of the future; an Add only appends to it ----------

  /** Every effective run performs exactly the first event of the future, whatever loop it is in. */
  lemma StepPerformsHead(m: Machine)
    requires Inv(m) && Finite(m.log) && m.execute < |m.log|
    ensures Inv(Step(m))
    ensures Future(m) == [EventOf(m.log[m.execute])] + Future(Step(m))
    ensures Step(m).done == m.done + [EventOf(m.log[m.execute])]
  {
    StepKeepsInv(m);
    var e, n, s := m.execute, |m.log|, Step(m);
    assert CounterInRange(m, e);
    FutureSplits(m);
    RemainingSame(m.log, m.counters, s.counters, e + 1, n);
    if m.log[e].LoopOff? && m.counters[e] > 1 {
      JumpPerformsBody(m);
    }
  }

  lemma FutureSplits(m: Machine)
    requires Inv(m) && m.execute < |m.log|
    ensures Future(m) == Weight(m.log, m.execute, m.counters[m.execute])
                         + Remaining(m.log, m.counters, m.execute + 1, |m.log|)
  {
    RemainingSplit(m.log, m.counters, m.execute, m.execute + 1, |m.log|);
    assert Remaining(m.log, m.counters, m.execute, m.execute) == [];
  }

  /** Jumping back leaves exactly one pass over the body and the remaining passes. */
  lemma JumpPerformsBody(m: Machine)
    requires Inv(m) && m.execute < |m.log|
    requires m.log[m.execute].LoopOff? && m.counters[m.execute] > 1
    ensures Inv(Step(m))
    ensures m.log[m.execute].start <= m.execute
    ensures Future(Step(m)) ==
            Power(Segment(m.log, m.log[m.execute].start, m.execute) + [Moved], m.counters[m.execute] - 1)
            + Remaining(m.log, m.counters, m.execute + 1, |m.log|)
  {
    StepKeepsInv(m);
    var e, n, s := m.execute, |m.log|, Step(m);
    var start, c := m.log[e].start, m.counters[e];
    LoopStartInside(m.log, m.read, e);
    RemainingSplit(m.log, s.counters, start, e, n);
    RemainingSplit(m.log, s.counters, e, e + 1, n);
    RemainingSame(m.log, m.counters, s.counters, e + 1, n);
    forall k | start <= k < e && m.log[k].LoopOff? ensures s.counters[k] == m.log[k].times {
      assert Armed(m, k);
    }
    RemainingArmed(m.log, s.counters, start, e);
    RemainingOne(m.log, s.counters, e);
    var body := Segment(m.log, start, e);
    JumpWeight(m.log, e, c);
    JoinJump(Future(s), body, Remaining(m.log, s.counters, e, n), [Moved],
             Power(body + [Moved], c - 2), Remaining(m.log, m.counters, e + 1, n));
  }

  lemma RemainingOne(log: seq<Slot>, counters: seq<nat>, i: nat)
    requires i < |log| == |counters|
    ensures Remaining(log, counters, i, i + 1) == Weight(log, i, counters[i])
  {
    assert Remaining(log, counters, i, i) == [];
  }

  lemma JumpWeight(log: seq<Slot>, e: nat, c: nat)
    requires e < |log| && log[e].LoopOff? && log[e].start <= e && c > 1
    ensures var pass := Segment(log, log[e].start, e) + [Moved];
            && Weight(log, e, c - 1) == [Moved] + Power(pass, c - 2)
            && Power(pass, c - 1) == pass + Power(pass, c - 2)
  {
  }

  lemma JoinJump<T>(future: seq<T>, body: seq<T>, last: seq<T>, m: seq<T>, passes: seq<T>, tail: seq<T>)
    requires future == body + last && last == (m + passes) + tail
    ensures future == ((body + m) + passes) + tail
  {
  }

  lemma AppendExtendsFuture(m: Machine, slot: Slot)
    requires m.execute <= |m.log| == |m.counters|
    ensures Future(Append(m, slot)) == Future(m) + Segment(m.log + [slot], |m.log|, |m.log| + 1)
  {
    var s, n := Append(m, slot), |m.log|;
    RemainingPrefix(m.log, [slot], m.counters, [InitialCounter(slot)], m.execute, n);
    assert Segment(s.log, n, n) == [];
  }

  // ---------- structured scripts ----------

  datatype Script = End | Do(action: Action, rest: Script) | Repeat(times: nat, body: Script, rest: Script)

  function Flatten(s: Script): seq<Command> {
    match s
    case End => []
    case Do(a, rest) => [Perform(a)] + Flatten(rest)
    case Repeat(n, body, rest) => [LoopBegin] + Flatten(body) + [LoopEnd(n)] + Flatten(rest)
  }

  /** The structured meaning: every loop written out `times` times. */
  function Unroll(s: Script): seq<Event> {
    match s
    case End => []
    case Do(a, rest) => [Did(a)] + Unroll(rest)
    case Repeat(n, body, rest) => [Moved] + Power(Unroll(body) + [Moved], n) + Unroll(rest)
  }

  /** The actions alone, with the loops written out. */
  function Actions(s: Script): seq<Action> {
    match s
    case End => []
    case Do(a, rest) => [a] + Actions(rest)
    case Repeat(n, body, rest) => Power(Actions(body), n) + Actions(rest)
  }

  /** The number of effective runs of a script. */
  function Cost(s: Script): nat {
    match s
    case End => 0
    case Do(_, rest) => 1 + Cost(rest)
    case Repeat(n, body, rest) => 1 + n * (Cost(body) + 1) + Cost(rest)
  }

  function Nesting(s: Script): nat {
    match s
    case End => 0
    case Do(_, rest) => Nesting(rest)
    case Repeat(_, body, rest) =>
      if Nesting(body) + 1 > Nesting(rest) then Nesting(body) + 1 else Nesting(rest)
  }

  predicate NoInfiniteLoop(s: Script) {
    match s
    case End => true
    case Do(_, rest) => NoInfiniteLoop(rest)
    case Repeat(n, body, rest) => n > 0 && NoInfiniteLoop(body) && NoInfiniteLoop(rest)
  }

  function Performed(events: seq<Event>): seq<Action> {
    if events == [] then []
    else Performed(events[..|events| - 1]) + match events[|events| - 1] case Did(a) => [a] case Moved => []
  }

  lemma {:induction false} PerformedAppend(a: seq<Event>, b: seq<Event>)
    ensures Performed(a + b) == Performed(a) + Performed(b)
    decreases |b|
  {
    if b == [] {
      assert a + b == a;
    } else {
      PerformedAppend(a, b[..|b| - 1]);
      assert (a + b)[..|a + b| - 1] == a + b[..|b| - 1];
    }
  }

  lemma {:induction false} PowerFacts(s: seq<Event>, n: nat)
    ensures Performed(Power(s, n)) == Power(Performed(s), n)
    ensures |Power(s, n)| == n * |s|
  {
    if n > 0 {
      PowerFacts(s, n - 1);
      PerformedAppend(s, Power(s, n - 1));
      assert n * |s| == |s| + (n - 1) * |s|;
    }
  }

  /** The unrolled events perform the unrolled actions, in `Cost` effective runs. */
  lemma {:induction false} UnrollPerforms(s: Script)
    ensures Performed(Unroll(s)) == Actions(s)
    ensures |Unroll(s)| == Cost(s)
  {
    match s
    case End =>
    case Do(a, rest) =>
      UnrollPerforms(rest);
      PerformedAppend([Did(a)], Unroll(rest));
      assert [Did(a)][..0] == [];
    case Repeat(n, body, rest) =>
      UnrollPerforms(body);
      UnrollPerforms(rest);
      var pass := Unroll(body) + [Moved];
      assert [Moved][..0] == [];
      PerformedAppend(Unroll(body), [Moved]);
      assert Performed(pass) == Actions(body);
      PowerFacts(pass, n);
      PerformedAppend([Moved], Power(pass, n));
      PerformedAppend([Moved] + Power(pass, n), Unroll(rest));
      assert Unroll(s) == [Moved] + Power(pass, n) + Unroll(rest);
  }

  /** Element by element: the actions of a loop are `n` passes over its body, and then what follows it. */
  lemma {:induction false} LoopPerforms(n: nat, body: Script, rest: Script, pass: nat, i: nat)
    ensures var a, all := Actions(body), Actions(Repeat(n, body, rest));
            && |all| == n * |a| + |Actions(rest)|
            && (pass < n && i < |a| ==> pass * |a| + i < n * |a| && all[pass * |a| + i] == a[i])
            && (i < |Actions(rest)| ==> all[n * |a| + i] == Actions(rest)[i])
  {
    PowerAt(Actions(body), n, pass, i);
  }

  lemma {:induction false} PowerAt(a: seq<Action>, n: nat, pass: nat, i: nat)
    ensures |Power(a, n)| == n * |a|
    ensures pass < n && i < |a| ==> pass * |a| + i < n * |a| && Power(a, n)[pass * |a| + i] == a[i]
  {
    if n > 0 {
      PowerAt(a, n - 1, if pass > 0 then pass - 1 else 0, i);
      assert n * |a| == |a| + (n - 1) * |a|;
      assert pass > 0 ==> pass * |a| == |a| + (pass - 1) * |a|;
    }
  }

  // ---------- compiling a structured script ----------

  function CompileAll(log: seq<Slot>, cmds: seq<Command>): seq<Slot>
    decreases |cmds|
  {
    if cmds == [] then log
    else if cmds[0].LoopEnd? && Opens(log) == [] then CompileAll(log, cmds[1..])
    else CompileAll(log + [Compile(log, cmds[0])], cmds[1..])
  }

  lemma {:induction false} CompileAllAppend(log: seq<Slot>, a: seq<Command>, b: seq<Command>)
    ensures CompileAll(log, a + b) == CompileAll(CompileAll(log, a), b)
    decreases |a|
  {
    if a == [] {
      assert a + b == b;
    } else {
      assert (a + b)[1..] == a[1..] + b;
      if a[0].LoopEnd? && Opens(log) == [] {
        CompileAllAppend(log, a[1..], b);
      } else {
        CompileAllAppend(log + [Compile(log, a[0])], a[1..], b);
      }
    }
  }

  /** `all` continues `log` with slots that close what they open and perform `events`. */
  ghost predicate Adds(log: seq<Slot>, all: seq<Slot>, events: seq<Event>) {
    && |log| <= |all| && all[..|log|] == log
    && Opens(all) == Opens(log)
    && Segment(all, |log|, |all|) == events
  }

  /** Stored after any log, a structured script closes the loops it opens and means its unrolling. */
  lemma {:induction false} CompiledMeansUnrolled(log: seq<Slot>, s: Script)
    requires NoInfiniteLoop(s)
    ensures Adds(log, CompileAll(log, Flatten(s)), Unroll(s))
    decreases s
  {
    match s
    case End =>
    case Do(a, rest) =>
      CompiledMeansUnrolled(log + [Act(a)], rest);
      CompileFirst(log, Perform(a), Flatten(rest));
      AddsAction(log, a, CompileAll(log + [Act(a)], Flatten(rest)), Unroll(rest));
    case Repeat(n, body, rest) =>
      CompiledMeansUnrolled(log + [LoopOn], body);
      var inner := CompileAll(log + [LoopOn], Flatten(body));
      LoopCompiles(log, n, body, rest, inner);
      var closed := inner + [LoopOff(|log| + 1, |Opens(log)|, n)];
      CompiledMeansUnrolled(closed, rest);
      AddsLoop(log, inner, closed, n, CompileAll(closed, Flatten(rest)), Unroll(body), Unroll(rest));
  }

  lemma AddsAction(log: seq<Slot>, a: Action, all: seq<Slot>, rest: seq<Event>)
    requires Adds(log + [Act(a)], all, rest)
    ensures Adds(log, all, [Did(a)] + rest)
  {
    var one := log + [Act(a)];
    assert one[..|log|] == log;
    assert all[..|log|] == all[..|one|][..|log|];
    assert all[|log|] == all[..|one|][|log|];
    SegmentSplit(all, |log|, |one|, |all|);
    SegmentOne(all, |log|);
  }

  lemma AddsLoop(log: seq<Slot>, inner: seq<Slot>, closed: seq<Slot>, n: nat, all: seq<Slot>,
                 body: seq<Event>, rest: seq<Event>)
    requires n > 0 && Adds(log + [LoopOn], inner, body)
    requires closed == inner + [LoopOff(|log| + 1, |Opens(log)|, n)]
    requires Adds(closed, all, rest)
    ensures Adds(log, all, [Moved] + Power(body + [Moved], n) + rest)
  {
    var l := |log|;
    LoopPositions(log, inner, closed, n, all);
    LoopMeans(inner, all, l);
  }

  lemma LoopMeans(inner: seq<Slot>, all: seq<Slot>, l: nat)
    requires l < |inner| < |all| && all[..|inner|] == inner && all[l] == LoopOn
    requires all[|inner|].LoopOff? && all[|inner|].start == l + 1 && all[|inner|].times > 0
    ensures Segment(all, l, |all|)
            == [Moved] + Power(Segment(inner, l + 1, |inner|) + [Moved], all[|inner|].times)
               + Segment(all, |inner| + 1, |all|)
  {
    var b := |inner|;
    assert all == inner + all[b..];
    SegmentPrefix(inner, all[b..], l + 1, b);
    LoopSegment(all, l, b);
    SegmentSplit(all, l, b + 1, |all|);
  }

  lemma LoopPositions(log: seq<Slot>, inner: seq<Slot>, closed: seq<Slot>, n: nat, all: seq<Slot>)
    requires |log| < |inner| && inner[..|log| + 1] == log + [LoopOn] && Opens(inner) == Opens(log + [LoopOn])
    requires closed == inner + [LoopOff(|log| + 1, |Opens(log)|, n)]
    requires |closed| <= |all| && all[..|closed|] == closed
    ensures all[..|log|] == log && all[..|inner|] == inner
    ensures all[|log|] == LoopOn && all[|inner|] == closed[|inner|]
    ensures Opens(closed) == Opens(log)
  {
    assert all[..|inner|] == all[..|closed|][..|inner|] == inner;
    assert all[..|log|] == inner[..|log| + 1][..|log|] == log;
    assert all[|log|] == inner[..|log| + 1][|log|];
    assert all[|inner|] == all[..|closed|][|inner|];
    assert closed[..|inner|] == inner;
    OpensPushed(log);
  }

  lemma CompileFirst(log: seq<Slot>, cmd: Command, rest: seq<Command>)
    requires cmd.LoopEnd? ==> Opens(log) != []
    ensures CompileAll(log, [cmd] + rest) == CompileAll(log + [Compile(log, cmd)], rest)
  {
    assert ([cmd] + rest)[1..] == rest;
  }

  lemma FlattenLoop(n: nat, body: Script, rest: Script)
    ensures Flatten(Repeat(n, body, rest)) == [LoopBegin] + (Flatten(body) + ([LoopEnd(n)] + Flatten(rest)))
  {
  }

  lemma OpensPushed(log: seq<Slot>)
    ensures Opens(log + [LoopOn]) == Opens(log) + [|log|]
  {
    assert (log + [LoopOn])[..|log|] == log;
  }

  /** The loop commands compile to the body and the rest between matching slots. */
  lemma LoopCompiles(log: seq<Slot>, n: nat, body: Script, rest: Script, inner: seq<Slot>)
    requires inner == CompileAll(log + [LoopOn], Flatten(body)) && Opens(inner) == Opens(log + [LoopOn])
    ensures CompileAll(log, Flatten(Repeat(n, body, rest)))
            == CompileAll(inner + [LoopOff(|log| + 1, |Opens(log)|, n)], Flatten(rest))
  {
    var tail := [LoopEnd(n)] + Flatten(rest);
    FlattenLoop(n, body, rest);
    OpensPushed(log);
    CompileFirst(log, LoopBegin, Flatten(body) + tail);
    CompileAllAppend(log + [LoopOn], Flatten(body), tail);
    CompileFirst(inner, LoopEnd(n), Flatten(rest));
  }

  /** One pass per count, each ending in its LOOP_OFF. */
  lemma LoopSegment(all: seq<Slot>, l: nat, b: nat)
    requires l < b < |all|
    requires all[l] == LoopOn && all[b].LoopOff? && all[b].start == l + 1 && all[b].times > 0
    ensures Segment(all, l, b + 1) == [Moved] + Power(Segment(all, l + 1, b) + [Moved], all[b].times)
  {
    var inner, n := Segment(all, l + 1, b), all[b].times;
    SegmentSplit(all, l, l + 1, b);
    SegmentOne(all, l);
    assert Segment(all, l, b + 1) == Segment(all, l, b) + Weight(all, b, n);
    LoopWeight(all, b);
    JoinLoop(Segment(all, l, b + 1), Segment(all, l, b), inner, [Moved], Power(inner + [Moved], n - 1));
  }

  lemma LoopWeight(all: seq<Slot>, b: nat)
    requires b < |all| && all[b].LoopOff? && all[b].start <= b && all[b].times > 0
    ensures Weight(all, b, all[b].times)
            == [Moved] + Power(Segment(all, all[b].start, b) + [Moved], all[b].times - 1)
  {
  }

  lemma JoinLoop<T>(whole: seq<T>, left: seq<T>, inner: seq<T>, m: seq<T>, passes: seq<T>)
    requires whole == left + (m + passes) && left == m + inner
    ensures whole == m + ((inner + m) + passes)
  {
  }

  lemma SegmentOne(log: seq<Slot>, i: nat)
    requires i < |log|
    ensures Segment(log, i, i + 1) == Weight(log, i, InitialCounter(log[i]))
  {
    assert Segment(log, i, i) == [];
  }
}

/** The receive ring shared by the receive interrupt of firmware/main.c and the main program.

    The interrupt is atomic. The main program can be interrupted between any two of its loads and
    stores; `Place` says which of them it has done. */
module RingBufInterrupts {
  import opened RingBuf

  datatype Place<T> =
    | Idle
    | EmptyLoadedWrite(loaded: nat)            // in RingBuf_IsEmpty, `write` is loaded
    | GetCalled                                // RingBuf_IsEmpty said no
    | GetLoadedRead(index: nat)                // in RingBuf_Get
    | GetLoadedData(index: nat, result: T)
    | GetStoredRead(result: T)
    | InitCalled                               // RingBuf_HasError said yes
    | InitStoredRead                           // in RingBuf_Init
    | InitStoredWrite

  /** `pending` are the bytes in the receive register that no interrupt has read yet. `accepted` are those that an
      interrupt has stored and no RingBuf_Init has thrown away, `taken` those that RingBuf_Get has returned. `lost`
      counts the others, and `refused` how often an interrupt did not store its byte. */
  datatype State<T> = State(
    data: seq<T>, read: nat, write: nat, errorFull: bool, main: Place<T>, pending: seq<T>,
    accepted: seq<T>, taken: seq<T>, lost: nat, refused: nat)

  /** What happens next: a byte arrives, the receive interrupt runs, the main program makes its next step, or it
      decides to look for a byte or for an error. */
  datatype Step<T> = Arrive(byte: T) | Interrupt | Main | LookForByte | LookForError

  /** HighPriorityInterruptFunction. A byte that finds the ring full stays in the register, so that the interrupt
      comes again; while the flag is up it is read and thrown away. */
  function Receive<T>(s: State<T>): State<T>
    requires |s.data| == SIZE && s.write < SIZE
  {
    if s.pending == [] then s
    else if s.errorFull then s.(pending := s.pending[1..], lost := s.lost + 1, refused := s.refused + 1)
    else if Inc(s.write) != s.read then
      s.(data := s.data[s.write := s.pending[0]], write := Inc(s.write), pending := s.pending[1..],
         accepted := s.accepted + [s.pending[0]])
    else s.(errorFull := true, refused := s.refused + 1)
  }

  /** One load or store of the main program. */
  function Advance<T>(s: State<T>): State<T>
    requires |s.data| == SIZE && s.read < SIZE
    requires s.main.GetLoadedRead? ==> s.main.index < SIZE
    requires |s.taken| <= |s.accepted|
  {
    match s.main
    case Idle => s
    case EmptyLoadedWrite(loaded) => s.(main := if loaded == s.read then Idle else GetCalled)
    case GetCalled => s.(main := GetLoadedRead(s.read))
    case GetLoadedRead(index) => s.(main := GetLoadedData(index, s.data[index]))
    case GetLoadedData(index, result) => s.(read := Inc(index), main := GetStoredRead(result))
    case GetStoredRead(result) => s.(errorFull := false, main := Idle, taken := s.taken + [result])
    case InitCalled => s.(read := 0, main := InitStoredRead)
    case InitStoredRead => s.(write := 0, main := InitStoredWrite)
    case InitStoredWrite =>
      s.(errorFull := false, main := Idle, accepted := s.taken, lost := s.lost + |s.accepted| - |s.taken|)
  }

  function Next<T>(s: State<T>, step: Step<T>): State<T>
    requires Inv(s)
  {
    match step
    case Arrive(byte) => s.(pending := s.pending + [byte])
    case Interrupt => Receive(s)
    case Main => Advance(s)
    case LookForByte => if s.main.Idle? then s.(main := EmptyLoadedWrite(s.write)) else s
    case LookForError => if s.main.Idle? && s.errorFull then s.(main := InitCalled) else s
  }

  /** What RingBuf_Get is about to return is the oldest byte; while RingBuf_Init runs, the error flag keeps
      the interrupt away from the ring. */
  ghost predicate Inv<T>(s: State<T>) {
    && |s.data| == SIZE && s.read < SIZE && s.write < SIZE && |s.taken| <= |s.accepted|
    && match s.main
       case Idle => InOrder(s, [])
       case EmptyLoadedWrite(loaded) => InOrder(s, []) && (loaded != s.read ==> s.write != s.read)
       case GetCalled => InOrder(s, []) && s.write != s.read
       case GetLoadedRead(index) => InOrder(s, []) && s.write != s.read && index == s.read
       case GetLoadedData(index, result) =>
         InOrder(s, []) && s.write != s.read && index == s.read && result == s.data[index]
       case GetStoredRead(result) => InOrder(s, [result])
       case InitCalled => s.errorFull
       case InitStoredRead => s.errorFull && s.read == 0
       case InitStoredWrite => s.errorFull && s.read == 0 == s.write
  }

  /** The accepted bytes are those taken, those in the hands of RingBuf_Get and those in the ring, in order. */
  ghost predicate InOrder<T>(s: State<T>, inHand: seq<T>)
    requires |s.data| == SIZE && s.read < SIZE && s.write < SIZE
  {
    s.accepted == s.taken + inHand + Between(s.data, s.read, s.write)
  }

  lemma ReceiveKeepsOrder<T>(s: State<T>, inHand: seq<T>)
    requires |s.data| == SIZE && s.read < SIZE && s.write < SIZE && InOrder(s, inHand)
    ensures InOrder(Receive(s), inHand)
    ensures s.write != s.read ==> Receive(s).write != s.read && Receive(s).data[s.read] == s.data[s.read]
  {
    if s.pending != [] && !s.errorFull && Inc(s.write) != s.read {
      PutLast(s.data, s.read, s.write, s.pending[0]);
    }
  }

  lemma InterruptKeepsInv<T>(s: State<T>)
    requires Inv(s)
    ensures Inv(Receive(s))
  {
    match s.main
    case GetStoredRead(result) => ReceiveKeepsOrder(s, [result]);
    case InitCalled =>
    case InitStoredRead =>
    case InitStoredWrite =>
    case _ => ReceiveKeepsOrder(s, []);
  }

  lemma TakenInHand<T>(s: State<T>)
    requires Inv(s) && s.main.GetLoadedData?
    ensures InOrder(Advance(s), [s.main.result])
  {
    TakeFirst(s.data, s.read, s.write);
    var ring := Between(s.data, s.read, s.write);
    assert ring == [ring[0]] + ring[1..];
    assert s.taken + [] + ring == s.taken + [s.main.result] + ring[1..];
  }

  lemma AdvanceKeepsInv<T>(s: State<T>)
    requires Inv(s)
    ensures Inv(Advance(s))
  {
    if s.main.GetLoadedData? {
      TakenInHand(s);
    } else if s.main.GetStoredRead? {
      assert s.taken + [s.main.result] + [] == s.taken + [s.main.result];
    } else if s.main.InitStoredWrite? {
      assert Between(s.data, 0, 0) == [];
    }
  }

  lemma NextKeepsInv<T>(s: State<T>, step: Step<T>)
    requires Inv(s)
    ensures Inv(Next(s, step))
  {
    match step
    case Arrive(_) =>
    case Interrupt => InterruptKeepsInv(s);
    case Main => AdvanceKeepsInv(s);
    case LookForByte =>
    case LookForError =>
  }

  /** A run: an empty ring, and then any interleaving. */
  ghost function Run<T>(s: State<T>, steps: seq<Step<T>>): (r: State<T>)
    requires Inv(s)
    ensures Inv(r)
    decreases |steps|
  {
    if steps == [] then s
    else
      NextKeepsInv(s, steps[0]);
      Run(Next(s, steps[0]), steps[1..])
  }

  ghost predicate Starts<T>(s: State<T>) {
    && |s.data| == SIZE && s.read == s.write == 0 && !s.errorFull && s.main.Idle?
    && s.pending == s.accepted == s.taken == [] && s.lost == s.refused == 0
  }

  /** Whenever the main program is outside the buffer's functions, no accepted byte is missing, doubled or
      out of order, whatever was interrupted where. */
  lemma NothingReordered<T>(s: State<T>, steps: seq<Step<T>>)
    requires Starts(s)
    ensures var r := Run(s, steps);
            r.main.Idle? ==> r.accepted == r.taken + Between(r.data, r.read, r.write)
  {
    assert Between(s.data, 0, 0) == [];
    assert Inv(s);
  }

  /** Bytes that arrive in a run. */
  function Arrivals<T>(steps: seq<Step<T>>): seq<T> {
    if steps == [] then [] else (if steps[0].Arrive? then [steps[0].byte] else []) + Arrivals(steps[1..])
  }

  /** The bytes that are accounted for. */
  function Known<T>(s: State<T>): nat {
    |s.accepted| + |s.pending| + s.lost
  }

  lemma KnownNext<T>(s: State<T>, step: Step<T>)
    requires Inv(s)
    ensures Known(Next(s, step)) == Known(s) + if step.Arrive? then 1 else 0
  {
  }

  /** No byte vanishes: each is accepted, still in the register, or counted as lost. */
  lemma {:induction false} NothingVanishes<T>(s: State<T>, steps: seq<Step<T>>)
    requires Inv(s)
    ensures Known(Run(s, steps)) == Known(s) + |Arrivals(steps)|
    decreases |steps|
  {
    if steps != [] {
      NextKeepsInv(s, steps[0]);
      KnownNext(s, steps[0]);
      NothingVanishes(Next(s, steps[0]), steps[1..]);
    }
  }

  /** Steps of a RingBuf_Get with anything in between. */
  predicate InGet<T>(steps: seq<Step<T>>) {
    forall i | 0 <= i < |steps| :: !steps[i].LookForByte? && !steps[i].LookForError?
  }

  /** The four steps of RingBuf_Get, with any interrupts in between, hand over the byte that was the oldest in
      the ring when the call began. */
  lemma GetReturnsOldest<T>(s: State<T>, steps: seq<Step<T>>)
    requires Inv(s) && s.main.GetCalled?
    requires InGet(steps)
    requires MainSteps(steps) == 4
    ensures Between(s.data, s.read, s.write) != []
    ensures var r := Run(s, steps); r.main.Idle? && r.taken == s.taken + [Between(s.data, s.read, s.write)[0]]
  {
    TakeFirst(s.data, s.read, s.write);
    OldestFollows(s, steps, s.data[s.read]);
  }

  /** The main program that looks for a byte finds one exactly if the ring holds one when it has loaded `write`,
      whatever arrives while it looks. */
  lemma FindsByte<T>(s: State<T>, between: seq<Step<T>>)
    requires Inv(s) && s.main.Idle? && InGet(between) && MainSteps(between) == 0
    ensures var r := Run(s, [LookForByte] + between + [Main]);
            r.main == if Between(s.data, s.read, s.write) != [] then GetCalled else Idle
  {
    var looking := Next(s, LookForByte);
    RunAppend(s, [LookForByte] + between, [Main]);
    RunAppend(s, [LookForByte], between);
    RunOne(s, LookForByte);
    LooksOn(looking, between);
    RunOne(Run(looking, between), Main);
  }

  lemma {:induction false} LooksOn<T>(s: State<T>, steps: seq<Step<T>>)
    requires Inv(s) && InGet(steps) && MainSteps(steps) == 0
    ensures Run(s, steps).main == s.main && Run(s, steps).read == s.read
    decreases |steps|
  {
    if steps != [] {
      NextKeepsInv(s, steps[0]);
      LooksOn(Next(s, steps[0]), steps[1..]);
    }
  }

  /** The main program that looks for an error calls RingBuf_Init exactly if the flag is up. */
  lemma NoticesError<T>(s: State<T>)
    requires Inv(s) && s.main.Idle?
    ensures Next(s, LookForError).main == if s.errorFull then InitCalled else Idle
  {
  }

  /** After an error the three stores of RingBuf_Init, with anything in between, leave an empty ring and no error. */
  lemma InitEmpties<T>(s: State<T>, a: seq<Step<T>>, b: seq<Step<T>>, c: seq<Step<T>>)
    requires Inv(s) && s.main.InitCalled?
    requires InGet(a) && InGet(b) && InGet(c) && MainSteps(a) == MainSteps(b) == MainSteps(c) == 0
    ensures var r := Run(s, a + [Main] + b + [Main] + c + [Main]);
            && r.main.Idle? && !r.errorFull && r.read == r.write == 0
            && r.accepted == r.taken == s.taken
  {
    Locked(s, a);
    var s1 := Run(s, a);
    var s2 := Next(s1, Main);
    NextKeepsInv(s1, Main);
    Locked(s2, b);
    var s3 := Run(s2, b);
    var s4 := Next(s3, Main);
    NextKeepsInv(s3, Main);
    Locked(s4, c);
    RunAppend(s, a, [Main]);
    RunOne(s1, Main);
    RunAppend(s, a + [Main], b);
    RunAppend(s, a + [Main] + b, [Main]);
    RunOne(s3, Main);
    RunAppend(s, a + [Main] + b + [Main], c);
    RunAppend(s, a + [Main] + b + [Main] + c, [Main]);
    RunOne(Run(s4, c), Main);
  }

  lemma {:induction false} Locked<T>(s: State<T>, steps: seq<Step<T>>)
    requires Inv(s) && (s.main.InitCalled? || s.main.InitStoredRead? || s.main.InitStoredWrite?)
    requires InGet(steps) && MainSteps(steps) == 0
    ensures var r := Run(s, steps);
            && r.main == s.main && r.read == s.read && r.write == s.write && r.errorFull
            && r.accepted == s.accepted && r.taken == s.taken
    decreases |steps|
  {
    if steps != [] {
      NextKeepsInv(s, steps[0]);
      Locked(Next(s, steps[0]), steps[1..]);
    }
  }

  function MainSteps<T>(steps: seq<Step<T>>): nat {
    if steps == [] then 0 else (if steps[0].Main? then 1 else 0) + MainSteps(steps[1..])
  }

  /** How many stores RingBuf_Get still has before it, and the byte it will return. */
  function StepsLeft<T>(main: Place<T>): nat {
    match main
    case GetCalled => 4
    case GetLoadedRead(_) => 3
    case GetLoadedData(_, _) => 2
    case GetStoredRead(_) => 1
    case _ => 0
  }

  ghost predicate WillReturn<T>(s: State<T>, byte: T)
    requires Inv(s)
  {
    match s.main
    case GetCalled => s.data[s.read] == byte
    case GetLoadedRead(_) => s.data[s.read] == byte
    case GetLoadedData(_, result) => result == byte
    case GetStoredRead(result) => result == byte
    case _ => false
  }

  lemma {:induction false} OldestFollows<T>(s: State<T>, steps: seq<Step<T>>, byte: T)
    requires Inv(s) && WillReturn(s, byte)
    requires InGet(steps)
    requires MainSteps(steps) == StepsLeft(s.main)
    ensures Run(s, steps).main.Idle? && Run(s, steps).taken == s.taken + [byte]
    decreases |steps|
  {
    NextKeepsInv(s, steps[0]);
    var next := Next(s, steps[0]);
    if next.main.Idle? {
      InterruptsOnly(next, steps[1..]);
    } else {
      OldestFollows(next, steps[1..], byte);
    }
  }

  lemma {:induction false} InterruptsOnly<T>(s: State<T>, steps: seq<Step<T>>)
    requires Inv(s)
    requires InGet(steps)
    requires MainSteps(steps) == 0
    ensures Run(s, steps).main == s.main && Run(s, steps).taken == s.taken
    decreases |steps|
  {
    if steps != [] {
      NextKeepsInv(s, steps[0]);
      InterruptsOnly(Next(s, steps[0]), steps[1..]);
    }
  }

  /** The error flag is the lock of RingBuf_Init: while it runs, an interrupt changes nothing but the register and
      the counts. */
  lemma InitIsLocked<T>(s: State<T>)
    requires Inv(s) && (s.main.InitCalled? || s.main.InitStoredRead? || s.main.InitStoredWrite?)
    ensures s.pending != [] ==>
              Next(s, Interrupt) == s.(pending := s.pending[1..], lost := s.lost + 1, refused := s.refused + 1)
  {
  }

  /** The store that ends RingBuf_Get and the one that ends RingBuf_Init. */
  predicate Clears<T>(s: State<T>, step: Step<T>) {
    step.Main? && (s.main.GetStoredRead? || s.main.InitStoredWrite?)
  }

  /** The interrupt finds a byte, and no room or a raised flag. */
  predicate Refuses<T>(s: State<T>, step: Step<T>)
    requires s.write < SIZE
  {
    step.Interrupt? && s.pending != [] && (s.errorFull || Inc(s.write) == s.read)
  }

  /** A byte is lost exactly when the interrupt reads it while the flag is up, or RingBuf_Init throws it away. The
      flag goes up exactly when an interrupt finds no room, and down at a clearing store and no other step. */
  lemma LossRaisesFlag<T>(s: State<T>, step: Step<T>)
    requires Inv(s)
    ensures Next(s, step).lost > s.lost
            <==> (Refuses(s, step) && s.errorFull)
                 || (step.Main? && s.main.InitStoredWrite? && |s.accepted| > |s.taken|)
    ensures Next(s, step).refused > s.refused <==> Refuses(s, step)
    ensures Next(s, step).errorFull <==> Refuses(s, step) || (s.errorFull && !Clears(s, step))
  {
  }

  ghost predicate ClearedDuring<T>(s: State<T>, steps: seq<Step<T>>)
    requires Inv(s)
    decreases |steps|
  {
    if steps == [] then false
    else
      NextKeepsInv(s, steps[0]);
      Clears(s, steps[0]) || ClearedDuring(Next(s, steps[0]), steps[1..])
  }

  /** Step number k refuses its byte. */
  ghost predicate RefusesAt<T>(s: State<T>, steps: seq<Step<T>>, k: nat)
    requires Inv(s) && k < |steps|
  {
    Refuses(Run(s, steps[..k]), steps[k])
  }

  /** What is reported before step number k, be it the flag at the beginning or a byte refused in the step before,
      is followed by no clearing store. */
  ghost predicate StillReported<T>(s: State<T>, steps: seq<Step<T>>, k: nat)
    requires Inv(s) && k <= |steps|
  {
    && (if k == 0 then s.errorFull else RefusesAt(s, steps, k - 1))
    && !ClearedDuring(Run(s, steps[..k]), steps[k..])
  }

  lemma {:induction false} RunAppend<T>(s: State<T>, a: seq<Step<T>>, b: seq<Step<T>>)
    requires Inv(s)
    ensures Run(s, a + b) == Run(Run(s, a), b)
    decreases |a|
  {
    if a == [] {
      assert a + b == b;
    } else {
      NextKeepsInv(s, a[0]);
      assert (a + b)[1..] == a[1..] + b;
      RunAppend(Next(s, a[0]), a[1..], b);
    }
  }

  lemma {:induction false} ClearedAppend<T>(s: State<T>, a: seq<Step<T>>, b: seq<Step<T>>)
    requires Inv(s)
    ensures ClearedDuring(s, a + b) <==> ClearedDuring(s, a) || ClearedDuring(Run(s, a), b)
    decreases |a|
  {
    if a == [] {
      assert a + b == b;
    } else {
      NextKeepsInv(s, a[0]);
      assert (a + b)[1..] == a[1..] + b;
      ClearedAppend(Next(s, a[0]), a[1..], b);
    }
  }

  lemma RunOne<T>(s: State<T>, step: Step<T>)
    requires Inv(s)
    ensures Run(s, [step]) == Next(s, step)
    ensures ClearedDuring(s, [step]) <==> Clears(s, step)
  {
    NextKeepsInv(s, step);
    assert [step][1..] == [];
  }

  /** A sequence cut in front of its last element, and once more at k. */
  lemma CutTwice<T>(steps: seq<T>, k: nat)
    requires k < |steps|
    ensures var n := |steps| - 1;
            && steps == steps[..n] + [steps[n]] && steps[..n][..k] == steps[..k]
            && steps[k..] == steps[..n][k..] + [steps[n]] && steps[..n] == steps[..k] + steps[..n][k..]
  {
  }

  lemma NothingCut<T>(steps: seq<T>)
    ensures steps[..|steps|] == steps && steps[|steps|..] == []
  {
  }

  lemma RefusesAtLonger<T>(s: State<T>, steps: seq<Step<T>>, k: nat)
    requires Inv(s) && k + 1 < |steps|
    ensures RefusesAt(s, steps, k) == RefusesAt(s, steps[..|steps| - 1], k)
  {
    CutTwice(steps, k);
    CutTwice(steps, k + 1);
  }

  lemma ReportedLonger<T>(s: State<T>, steps: seq<Step<T>>, k: nat)
    requires Inv(s) && k < |steps|
    ensures var n := |steps| - 1;
            StillReported(s, steps, k)
            <==> StillReported(s, steps[..n], k) && !Clears(Run(s, steps[..n]), steps[n])
  {
    var n := |steps| - 1;
    CutTwice(steps, k);
    if k > 0 { RefusesAtLonger(s, steps, k - 1); }
    ClearedAppend(Run(s, steps[..k]), steps[..n][k..], [steps[n]]);
    RunAppend(s, steps[..k], steps[..n][k..]);
    RunOne(Run(s, steps[..n]), steps[n]);
  }

  lemma ReportedAtEnd<T>(s: State<T>, steps: seq<Step<T>>)
    requires Inv(s) && steps != []
    ensures var b := Run(s, steps[..|steps| - 1]);
            && Run(s, steps) == Next(b, steps[|steps| - 1])
            && (StillReported(s, steps, |steps|) <==> Refuses(b, steps[|steps| - 1]))
  {
    var n := |steps| - 1;
    CutTwice(steps, n);
    RunAppend(s, steps[..n], [steps[n]]);
    RunOne(Run(s, steps[..n]), steps[n]);
    NothingCut(steps);
  }

  /** In every run from every state the flag is up at the end exactly if a flag at the beginning, or a refused byte,
      has no clearing store behind it. */
  lemma {:induction false} LossReported<T>(s: State<T>, steps: seq<Step<T>>)
    requires Inv(s)
    ensures Run(s, steps).errorFull <==> exists k :: 0 <= k <= |steps| && StillReported(s, steps, k)
    decreases |steps|
  {
    if steps == [] {
      assert StillReported(s, steps, 0) <==> s.errorFull;
    } else {
      var n := |steps| - 1;
      LossReported(s, steps[..n]);
      ReportedAtEnd(s, steps);
      LossRaisesFlag(Run(s, steps[..n]), steps[n]);
      ReportedBefore(s, steps);
    }
  }

  lemma ReportedBefore<T>(s: State<T>, steps: seq<Step<T>>)
    requires Inv(s) && steps != []
    ensures var n := |steps| - 1;
            (exists k :: 0 <= k <= |steps| && StillReported(s, steps, k))
            <==> StillReported(s, steps, |steps|)
                 || (!Clears(Run(s, steps[..n]), steps[n])
                     && exists k :: 0 <= k <= |steps[..n]| && StillReported(s, steps[..n], k))
  {
    var n := |steps| - 1;
    var clears := Clears(Run(s, steps[..n]), steps[n]);
    assert |steps[..n]| == n;
    forall k | 0 <= k <= n ensures StillReported(s, steps, k) <==> StillReported(s, steps[..n], k) && !clears {
      ReportedLonger(s, steps, k);
    }
  }

  // ---------- what one RingBuf_Get can hide ----------

  /** How many interrupts find a byte in the register. */
  ghost function Served<T>(s: State<T>, steps: seq<Step<T>>): nat
    requires Inv(s)
    decreases |steps|
  {
    if steps == [] then 0
    else
      NextKeepsInv(s, steps[0]);
      (if steps[0].Interrupt? && s.pending != [] then 1 else 0) + Served(Next(s, steps[0]), steps[1..])
  }

  /** The slots that can still be filled. */
  function Free<T>(s: State<T>): (f: int)
    requires |s.data| == SIZE && s.read < SIZE && s.write < SIZE
    ensures 0 <= f < SIZE
    ensures f == 0 <==> Inc(s.write) == s.read
  {
    SIZE - 1 - |Between(s.data, s.read, s.write)|
  }

  /** The loads before the store to `read`, in which nothing is taken out of the ring. */
  predicate NothingTaken<T>(main: Place<T>, steps: seq<Step<T>>) {
    && InGet(steps)
    && match main
       case GetCalled => MainSteps(steps) <= 2
       case GetLoadedRead(_) => MainSteps(steps) <= 1
       case _ => MainSteps(steps) == 0
  }

  /** Where the main program is after such steps. */
  ghost predicate Arrived<T>(main: Place<T>, steps: seq<Step<T>>, arrived: Place<T>) {
    if MainSteps(steps) == 0 then arrived == main
    else if main.GetCalled? && MainSteps(steps) == 1 then arrived.GetLoadedRead?
    else arrived.GetLoadedData?
  }

  /** What is true after n interrupts that found a byte, if nothing is taken out: the flag goes up at the first one
      for which there is no room, and the ones after it lose their bytes. */
  ghost predicate Filled<T>(s: State<T>, n: nat, r: State<T>)
    requires Inv(s) && Inv(r)
  {
    && r.read == s.read
    && (r.errorFull <==> s.errorFull || n > Free(s))
    && r.lost == s.lost + (if s.errorFull then n else if n > Free(s) then n - Free(s) - 1 else 0)
    && (!r.errorFull ==> Free(r) == Free(s) - n)
  }

  lemma {:induction false} LossBefore<T>(s: State<T>, steps: seq<Step<T>>)
    requires Inv(s) && NothingTaken(s.main, steps)
    ensures Filled(s, Served(s, steps), Run(s, steps)) && Arrived(s.main, steps, Run(s, steps).main)
    decreases |steps|
  {
    if steps != [] {
      NextKeepsInv(s, steps[0]);
      var next := Next(s, steps[0]);
      LossBefore(next, steps[1..]);
      FilledFirst(s, steps[0]);
    }
  }

  lemma FilledFirst<T>(s: State<T>, step: Step<T>)
    requires Inv(s) && !step.LookForByte? && !step.LookForError?
    requires step.Main? ==> s.main.GetCalled? || s.main.GetLoadedRead?
    ensures Inv(Next(s, step))
    ensures Filled(s, if step.Interrupt? && s.pending != [] then 1 else 0, Next(s, step))
  {
    NextKeepsInv(s, step);
    if step.Interrupt? && s.pending != [] && !s.errorFull && Inc(s.write) != s.read {
      PutLast(s.data, s.read, s.write, s.pending[0]);
    }
  }

  /** A whole RingBuf_Get, with `before` up to its store to `read` and `between` from there to its store to the flag,
      leaves the flag down whatever happens. The flag was up before that last store, so that an error is hidden,
      exactly if it was up at the beginning or more interrupts found a byte than there was room for: before the
      store to `read` one more than there were free slots, or in all two more. */
  lemma LossHidden<T>(s: State<T>, before: seq<Step<T>>, between: seq<Step<T>>)
    requires Inv(s) && s.main.GetCalled?
    requires NothingTaken(GetCalled, before) && MainSteps(before) == 2
    requires InGet(between) && MainSteps(between) == 0
    ensures var stored := Run(s, before + [Main]);
            var b, r := Run(s, before + [Main] + between), Run(s, before + [Main] + between + [Main]);
            var n, k, room := Served(s, before), Served(stored, between), Free(s);
            && r.main.Idle? && !r.errorFull && r.lost == b.lost
            && (b.errorFull <==> s.errorFull || n > room || n + k > room + 1)
            && (r.lost > s.lost
                <==> if s.errorFull then n + k > 0 else if n > room then n + k > room + 1 else n + k > room + 2)
  {
    LossBefore(s, before);
    var loaded := Run(s, before);
    RunAppend(s, before, [Main]);
    RunOne(loaded, Main);
    var stored := Next(loaded, Main);
    TakeFirst(loaded.data, loaded.read, loaded.write);
    LossBefore(stored, between);
    RunAppend(s, before + [Main], between);
    RunAppend(s, before + [Main] + between, [Main]);
    RunOne(Run(stored, between), Main);
  }
}

/** The gradient of firmware/ledstrip.c: its running color, and where its 8-bit positions put it. */
module Gradient {
  import opened Division
  import opened Fade

  const NUM_OF_LED: nat := 32
  const CHANNELS: nat := 3 * NUM_OF_LED

  // ---------- colors ----------

  datatype Color = Color(red: int, green: int, blue: int)

  predicate IsColor(c: Color) {
    0 <= c.red < 256 && 0 <= c.green < 256 && 0 <= c.blue < 256
  }

  /** The part of a color that channel k shows. */
  function Part(c: Color, k: nat): int {
    if k % 3 == 0 then c.blue else if k % 3 == 1 then c.green else c.red
  }

  /** Three channels from channel k on are aimed at a color. */
  function ThreeAimed(before: seq<Channel>, k: nat, color: Color, time: nat): (after: seq<Channel>)
    requires k + 3 <= |before| && 1 <= time
    ensures |after| == |before|
  {
    before[k := Aimed(before[k], color.blue, time)]
      [k + 1 := Aimed(before[k + 1], color.green, time)][k + 2 := Aimed(before[k + 2], color.red, time)]
  }

  lemma ThreeAimedAt(before: seq<Channel>, k: nat, color: Color, time: nat, j: nat)
    requires k + 3 <= |before| && 1 <= time && j < |before|
    ensures ThreeAimed(before, k, color, time)[j]
            == if k <= j < k + 3 then Aimed(before[j], Part(color, j - k), time) else before[j]
  {
  }

  /** cmd_set_gradient, with the parallel bit taken out. */
  datatype SetGradientCommand = SetGradientCommand(
    first: Color, last: Color, offset: nat, numberOfLeds: nat, time: nat)

  /** numberOfLeds - 1, in 8 bits, and never 0. */
  function Gaps(numberOfLeds: nat): nat {
    if numberOfLeds <= 1 then 1 else numberOfLeds - 1
  }

  lemma GapsInEightBits(numberOfLeds: nat, n: int)
    requires numberOfLeds < 256 && n == (numberOfLeds - 1) % 256
    ensures (if n == 255 || n == 0 then 1 else n) == Gaps(numberOfLeds)
  {
  }

  predicate GoodGradient(cmd: SetGradientCommand) {
    && IsColor(cmd.first) && IsColor(cmd.last) && cmd.offset < 128 && cmd.numberOfLeds < 256
    && 1 <= cmd.time <= 65535
  }

  /** The color that lies `way` from a towards b. */
  function Towards(a: int, b: int, way: nat): int {
    if a > b then a - way else a + way
  }

  /** Color number i of a gradient from a to b. */
  function Blend(a: int, b: int, gaps: nat, i: nat): int
    requires gaps >= 1
  {
    Towards(a, b, i * Div(Distance(a, b), gaps))
  }

  /** ADJUST_COLOR, in 8-bit arithmetic. */
  function Adjust(color: int, compare: int, diff: int): int {
    if color > compare then (color - diff) % 256 else (color + diff) % 256
  }

  lemma AdjustMoves(a: int, b: int, way: nat, diff: nat)
    requires 0 <= a < 256 && 0 <= b < 256 && way + diff <= Distance(a, b)
    ensures Adjust(Towards(a, b, way), b, diff) == Towards(a, b, way + diff)
    ensures 0 <= Towards(a, b, way) < 256 && 0 <= Towards(a, b, way + diff) < 256
    ensures Distance(Towards(a, b, way), b) == Distance(a, b) - way
    ensures Distance(Towards(a, b, way + diff), b) == Distance(a, b) - way - diff
  {
  }

  /** The running color follows the gradient without wrapping round and without overshooting the last
      color. */
  lemma BlendNext(a: int, b: int, gaps: nat, i: nat)
    requires 0 <= a < 256 && 0 <= b < 256 && i < gaps
    ensures Adjust(Blend(a, b, gaps, i), b, Div(Distance(a, b), gaps)) == Blend(a, b, gaps, i + 1)
    ensures 0 <= Blend(a, b, gaps, i) < 256 && 0 <= Blend(a, b, gaps, i + 1) < 256
    ensures Distance(Blend(a, b, gaps, i), b) == Distance(a, b) - i * Div(Distance(a, b), gaps)
  {
    var d := Div(Distance(a, b), gaps);
    Within(Distance(a, b), gaps, i);
    AdjustMoves(a, b, i * d, d);
  }

  lemma Within(distance: nat, gaps: nat, i: nat)
    requires i < gaps
    ensures var d := Div(distance, gaps); 0 <= i * d && i * d + d == (i + 1) * d && (i + 1) * d <= distance
  {
    var d := Div(distance, gaps);
    Multiples(i, d);
    WholeParts(distance, gaps);
    Ordered(i + 1, gaps, d);
  }

  lemma Multiples(i: nat, d: nat)
    ensures 0 <= i * d && (i + 1) * d == i * d + d
  {
  }

  lemma WholeParts(distance: nat, gaps: nat)
    requires gaps >= 1
    ensures gaps * Div(distance, gaps) <= distance
  {
    DivIs(distance, gaps);
  }

  lemma Ordered(i: nat, j: nat, d: nat)
    requires i <= j
    ensures i * d <= j * d
  {
  }

  /** What a gradient command makes of channel k. */
  function Graded(c: Channel, cmd: SetGradientCommand, k: nat): Channel
    requires GoodGradient(cmd)
  {
    var led := k / 3;
    var gaps := Gaps(cmd.numberOfLeds);
    if cmd.offset <= led < cmd.offset + gaps then
      Aimed(c, Blend(Part(cmd.first, k), Part(cmd.last, k), gaps, led - cmd.offset), cmd.time)
    else if led == cmd.offset + gaps then Aimed(c, Part(cmd.last, k), cmd.time)
    else c
  }

  /** A gradient over n leds changes n of them, but at least two: the first gets the first color, the last the
      last color, and the others do not change. */
  lemma GradientReaches(c: Channel, cmd: SetGradientCommand, k: nat)
    requires GoodGradient(cmd)
    ensures var led := k / 3;
            var length := if cmd.numberOfLeds < 2 then 2 else cmd.numberOfLeds;
            && (led == cmd.offset ==> Graded(c, cmd, k) == Aimed(c, Part(cmd.first, k), cmd.time))
            && (led == cmd.offset + length - 1 ==> Graded(c, cmd, k) == Aimed(c, Part(cmd.last, k), cmd.time))
            && (led < cmd.offset || led >= cmd.offset + length ==> Graded(c, cmd, k) == c)
  {
    assert 0 * Div(Distance(Part(cmd.first, k), Part(cmd.last, k)), Gaps(cmd.numberOfLeds)) == 0;
  }

  /** The color of the gradient's led number i. */
  function BlendColor(cmd: SetGradientCommand, i: nat): Color {
    var gaps := Gaps(cmd.numberOfLeds);
    Color(Blend(cmd.first.red, cmd.last.red, gaps, i), Blend(cmd.first.green, cmd.last.green, gaps, i),
          Blend(cmd.first.blue, cmd.last.blue, gaps, i))
  }

  /** The three ADJUST_COLORs. */
  function AdjustColor(color: Color, cmd: SetGradientCommand, diff: Color): Color {
    Color(Adjust(color.red, cmd.last.red, diff.red), Adjust(color.green, cmd.last.green, diff.green),
          Adjust(color.blue, cmd.last.blue, diff.blue))
  }

  /** The three CALC_DELTAs. */
  function StepColor(cmd: SetGradientCommand, gaps: nat): Color
    requires gaps >= 1
  {
    Color(Div(Distance(cmd.first.red, cmd.last.red), gaps), Div(Distance(cmd.first.green, cmd.last.green), gaps),
          Div(Distance(cmd.first.blue, cmd.last.blue), gaps))
  }

  lemma BlendColorNext(cmd: SetGradientCommand, i: nat)
    requires GoodGradient(cmd) && i < Gaps(cmd.numberOfLeds)
    ensures AdjustColor(BlendColor(cmd, i), cmd, StepColor(cmd, Gaps(cmd.numberOfLeds))) == BlendColor(cmd, i + 1)
    ensures IsColor(BlendColor(cmd, i))
  {
    var gaps := Gaps(cmd.numberOfLeds);
    BlendNext(cmd.first.red, cmd.last.red, gaps, i);
    BlendNext(cmd.first.green, cmd.last.green, gaps, i);
    BlendNext(cmd.first.blue, cmd.last.blue, gaps, i);
  }

  lemma BlendColorFirst(cmd: SetGradientCommand)
    ensures BlendColor(cmd, 0) == cmd.first
  {
    NoSteps(cmd.first.red, cmd.last.red, Gaps(cmd.numberOfLeds));
    NoSteps(cmd.first.green, cmd.last.green, Gaps(cmd.numberOfLeds));
    NoSteps(cmd.first.blue, cmd.last.blue, Gaps(cmd.numberOfLeds));
  }

  lemma NoSteps(a: int, b: int, gaps: nat)
    requires gaps >= 1
    ensures Blend(a, b, gaps, 0) == a
  {
    assert 0 * Div(Distance(a, b), gaps) == 0;
  }

  // ---------- the positions, in 8 bits ----------

  function FirstPosition(cmd: SetGradientCommand): nat {
    (3 * cmd.offset) % 256
  }

  function EndPosition(cmd: SetGradientCommand): nat {
    (FirstPosition(cmd) + (3 * Gaps(cmd.numberOfLeds)) % 256) % 256
  }

  /** The channel at which the loop writes first. */
  function Begin(cmd: SetGradientCommand): nat {
    if EndPosition(cmd) <= FirstPosition(cmd) then EndPosition(cmd) else FirstPosition(cmd)
  }

  /** The leds that the loop writes before the last one, in a strip that is long enough. */
  function Leds(cmd: SetGradientCommand): nat {
    if EndPosition(cmd) <= FirstPosition(cmd) then 0 else (EndPosition(cmd) - FirstPosition(cmd) + 2) / 3
  }

  /** No led that the loop begins to write sticks out of the strip: otherwise the source writes behind its arrays. */
  predicate StaysInside(cmd: SetGradientCommand) {
    Begin(cmd) >= CHANNELS || Begin(cmd) % 3 == 0 || Begin(cmd) + 3 * Leds(cmd) + 3 <= CHANNELS
  }

  lemma StaysInsideIs(cmd: SetGradientCommand)
    ensures StaysInside(cmd) <==> forall i: nat | i <= Leds(cmd) && Begin(cmd) + 3 * i < CHANNELS ::
                                    Begin(cmd) + 3 * i + 3 <= CHANNELS
  {
    if !StaysInside(cmd) {
      var i := (CHANNELS - 1 - Begin(cmd)) / 3;
      assert Begin(cmd) + 3 * i < CHANNELS < Begin(cmd) + 3 * i + 3;
    }
  }

  lemma RoomForLed(cmd: SetGradientCommand, i: nat)
    requires StaysInside(cmd) && i <= Leds(cmd) && Begin(cmd) + 3 * i < CHANNELS
    ensures Begin(cmd) + 3 * i + 3 <= CHANNELS
  {
  }

  lemma LedsAtMostGaps(cmd: SetGradientCommand)
    requires GoodGradient(cmd)
    ensures Leds(cmd) <= Gaps(cmd.numberOfLeds)
  {
  }

  /** What the loop makes of channel k. */
  function Spread(c: Channel, cmd: SetGradientCommand, k: nat): Channel
    requires GoodGradient(cmd)
  {
    if k < Begin(cmd) then c
    else
      var j := k - Begin(cmd);
      if j / 3 < Leds(cmd) then
        Aimed(c, Blend(Part(cmd.first, j), Part(cmd.last, j), Gaps(cmd.numberOfLeds), j / 3), cmd.time)
      else if j / 3 == Leds(cmd) then Aimed(c, Part(cmd.last, j), cmd.time)
      else c
  }

  /** The loop is done with the channels below k. */
  predicate Spreading(before: seq<Channel>, now: seq<Channel>, cmd: SetGradientCommand, k: nat)
    requires GoodGradient(cmd)
  {
    && |before| == |now| == CHANNELS
    && forall j: nat | j < CHANNELS :: now[j] == if j < k then Spread(before[j], cmd, j) else before[j]
  }

  lemma SpreadNot(before: seq<Channel>, now: seq<Channel>, cmd: SetGradientCommand, k: nat)
    requires GoodGradient(cmd) && Spreading(before, now, cmd, k) && k < Begin(cmd)
    ensures Spreading(before, now, cmd, k + 1)
  {
  }

  lemma SpreadIn(c: Channel, cmd: SetGradientCommand, i: nat, j: nat)
    requires GoodGradient(cmd) && Begin(cmd) + 3 * i <= j < Begin(cmd) + 3 * i + 3 && i <= Leds(cmd)
    ensures var color := if i < Leds(cmd) then BlendColor(cmd, i) else cmd.last;
            Spread(c, cmd, j) == Aimed(c, Part(color, j - (Begin(cmd) + 3 * i)), cmd.time)
  {
    var d := j - Begin(cmd);
    assert d / 3 == i && d % 3 == (d - 3 * i) % 3;
  }

  lemma SpreadLed(before: seq<Channel>, now: seq<Channel>, cmd: SetGradientCommand, k: nat, i: nat)
    requires GoodGradient(cmd) && Spreading(before, now, cmd, k)
    requires k == Begin(cmd) + 3 * i && i < Leds(cmd) && k + 3 <= CHANNELS
    ensures Spreading(before, ThreeAimed(now, k, BlendColor(cmd, i), cmd.time), cmd, k + 3)
  {
    var after := ThreeAimed(now, k, BlendColor(cmd, i), cmd.time);
    forall j: nat | j < CHANNELS ensures after[j] == if j < k + 3 then Spread(before[j], cmd, j) else before[j] {
      ThreeAimedAt(now, k, BlendColor(cmd, i), cmd.time, j);
      if k <= j < k + 3 { SpreadIn(before[j], cmd, i, j); }
    }
  }

  lemma SpreadLast(before: seq<Channel>, now: seq<Channel>, cmd: SetGradientCommand, k: nat)
    requires GoodGradient(cmd) && Spreading(before, now, cmd, k)
    requires k == Begin(cmd) + 3 * Leds(cmd) && k + 3 <= CHANNELS
    ensures Spreading(before, ThreeAimed(now, k, cmd.last, cmd.time), cmd, CHANNELS)
  {
    var after := ThreeAimed(now, k, cmd.last, cmd.time);
    forall j: nat | j < CHANNELS ensures after[j] == Spread(before[j], cmd, j) {
      ThreeAimedAt(now, k, cmd.last, cmd.time, j);
      if k <= j < k + 3 { SpreadIn(before[j], cmd, Leds(cmd), j); }
    }
  }

  lemma SpreadSteady(c: Channel, cmd: SetGradientCommand, k: nat)
    requires GoodGradient(cmd) && Steady(c)
    ensures Steady(Spread(c, cmd, k))
  {
    if k >= Begin(cmd) {
      var j, gaps := k - Begin(cmd), Gaps(cmd.numberOfLeds);
      LedsAtMostGaps(cmd);
      if j / 3 < Leds(cmd) {
        BlendNext(Part(cmd.first, j), Part(cmd.last, j), gaps, j / 3);
        AimedSteady(c, Blend(Part(cmd.first, j), Part(cmd.last, j), gaps, j / 3), cmd.time);
      } else {
        AimedSteady(c, Part(cmd.last, j), cmd.time);
      }
    }
  }

  lemma SpreadAll(before: seq<Channel>, cmd: SetGradientCommand)
    requires GoodGradient(cmd) && |before| == CHANNELS && forall k: nat | k < CHANNELS :: Steady(before[k])
    requires StaysInside(cmd)
    ensures forall k: nat | k < CHANNELS :: Steady(Spread(before[k], cmd, k))
    ensures RightPlace(cmd.offset, cmd.numberOfLeds) ==>
              forall k: nat | k < CHANNELS :: Spread(before[k], cmd, k) == Graded(before[k], cmd, k)
  {
    forall k: nat | k < CHANNELS
      ensures Steady(Spread(before[k], cmd, k))
      ensures RightPlace(cmd.offset, cmd.numberOfLeds) ==> Spread(before[k], cmd, k) == Graded(before[k], cmd, k)
    {
      SpreadSteady(before[k], cmd, k);
      if RightPlace(cmd.offset, cmd.numberOfLeds) { SpreadIsGraded(before[k], cmd, k); }
    }
  }

  // ---------- where the gradient comes out right ----------

  /** The first led that begins at a position or behind it, and none if that is not in the strip. */
  function LedFrom(position: nat): nat {
    if position + 2 >= CHANNELS then NUM_OF_LED else (position + 2) / 3
  }

  /** The wrapped positions stand for the right leds of the strip, or are both behind it. */
  predicate RightPlace(offset: nat, numberOfLeds: nat) {
    var first := (3 * offset) % 256;
    var last := offset + Gaps(numberOfLeds);
    && LedFrom(first) == (if offset < NUM_OF_LED then offset else NUM_OF_LED)
    && LedFrom((first + (3 * Gaps(numberOfLeds)) % 256) % 256) == (if last < NUM_OF_LED then last else NUM_OF_LED)
  }

  lemma RightPositions(cmd: SetGradientCommand)
    requires GoodGradient(cmd) && StaysInside(cmd) && RightPlace(cmd.offset, cmd.numberOfLeds)
    ensures cmd.offset >= NUM_OF_LED ==> Begin(cmd) >= CHANNELS
    ensures cmd.offset < NUM_OF_LED ==>
              && Begin(cmd) == 3 * cmd.offset
              && if cmd.offset + Gaps(cmd.numberOfLeds) < NUM_OF_LED then Leds(cmd) == Gaps(cmd.numberOfLeds)
                 else cmd.offset + Leds(cmd) >= NUM_OF_LED
  {
  }

  lemma SpreadIsGraded(c: Channel, cmd: SetGradientCommand, k: nat)
    requires GoodGradient(cmd) && StaysInside(cmd) && RightPlace(cmd.offset, cmd.numberOfLeds) && k < CHANNELS
    ensures Spread(c, cmd, k) == Graded(c, cmd, k)
  {
    RightPositions(cmd);
    LedsAtMostGaps(cmd);
    if cmd.offset < NUM_OF_LED && k >= 3 * cmd.offset {
      SameLed(cmd.offset, k);
    }
  }

  lemma SameLed(offset: nat, k: nat)
    requires k >= 3 * offset
    ensures (k - 3 * offset) / 3 == k / 3 - offset && (k - 3 * offset) % 3 == k % 3
  {
  }

  const DARK: Channel := Channel(0, 0, false, 0, 0, 0)

  /** From grey 10 to grey 20. */
  function Greys(offset: nat, numberOfLeds: nat): SetGradientCommand {
    SetGradientCommand(Color(10, 10, 10), Color(20, 20, 20), offset, numberOfLeds, 1)
  }

  /** A channel in which this gradient goes wrong. */
  function WrongChannel(cmd: SetGradientCommand): nat {
    if cmd.offset >= NUM_OF_LED then Begin(cmd) else Begin(cmd) + 3 * Leds(cmd)
  }

  lemma WrongPositions(cmd: SetGradientCommand)
    requires GoodGradient(cmd) && StaysInside(cmd) && !RightPlace(cmd.offset, cmd.numberOfLeds)
    ensures WrongChannel(cmd) < CHANNELS
    ensures cmd.offset < NUM_OF_LED ==>
              && Gaps(cmd.numberOfLeds) > 10
              && WrongChannel(cmd) / 3 < cmd.offset + Gaps(cmd.numberOfLeds)
  {
    var gaps := Gaps(cmd.numberOfLeds);
    var i := Wraps(3 * cmd.offset);
    var k := Wraps(3 * gaps);
    var j := Wraps(FirstPosition(cmd) + (3 * gaps) % 256);
    WrongNumbers(cmd.offset, gaps, FirstPosition(cmd), EndPosition(cmd), i, i + k + j, Begin(cmd), Leds(cmd));
  }

  lemma WrongNumbers(offset: nat, gaps: nat, first: nat, end: nat, i: nat, j: nat, begin: nat, leds: nat)
    requires offset < 128 && first < 256 && end < 256
    requires first == 3 * offset - 256 * i && end == 3 * (offset + gaps) - 256 * j
    requires begin == if end <= first then end else first
    requires leds == if end <= first then 0 else (end - first + 2) / 3
    requires begin >= CHANNELS || begin % 3 == 0 || begin + 3 * leds + 3 <= CHANNELS
    requires LedFrom(first) != (if offset < NUM_OF_LED then offset else NUM_OF_LED)
             || LedFrom(end) != (if offset + gaps < NUM_OF_LED then offset + gaps else NUM_OF_LED)
    ensures offset >= NUM_OF_LED ==> begin < CHANNELS
    ensures offset < NUM_OF_LED ==>
              gaps > 10 && begin + 3 * leds < CHANNELS && (begin + 3 * leds) / 3 < offset + gaps
  {
  }

  lemma Wraps(n: nat) returns (k: nat)
    ensures n % 256 == n - 256 * k
  {
    k := n / 256;
  }

  lemma SpreadIsWrong(cmd: SetGradientCommand)
    requires GoodGradient(cmd) && cmd == Greys(cmd.offset, cmd.numberOfLeds)
    requires StaysInside(cmd) && !RightPlace(cmd.offset, cmd.numberOfLeds)
    ensures WrongChannel(cmd) < CHANNELS
    ensures Spread(DARK, cmd, WrongChannel(cmd)) != Graded(DARK, cmd, WrongChannel(cmd))
  {
    var k := WrongChannel(cmd);
    var gaps := Gaps(cmd.numberOfLeds);
    WrongPositions(cmd);
    if cmd.offset >= NUM_OF_LED {
      SpreadIn(DARK, cmd, 0, k);
      BlendColorFirst(cmd);
    } else {
      SpreadIn(DARK, cmd, Leds(cmd), k);
      if k / 3 >= cmd.offset { SameColor(gaps, k / 3 - cmd.offset); }
    }
  }

  lemma SameColor(gaps: nat, i: nat)
    requires gaps > 10
    ensures Blend(10, 20, gaps, i) == 10
  {
    assert i * 0 == 0;
  }

  /** Every gradient with this offset and length comes out right on every strip, or some do not. */
  lemma GradientRight(offset: nat, numberOfLeds: nat)
    requires offset < 128 && numberOfLeds < 256 && StaysInside(Greys(offset, numberOfLeds))
    ensures RightPlace(offset, numberOfLeds)
            <==> forall cmd: SetGradientCommand, c: Channel, k: nat
                   | GoodGradient(cmd) && cmd.offset == offset && cmd.numberOfLeds == numberOfLeds && k < CHANNELS ::
                   Spread(c, cmd, k) == Graded(c, cmd, k)
  {
    if RightPlace(offset, numberOfLeds) {
      forall cmd: SetGradientCommand, c: Channel, k: nat
        | GoodGradient(cmd) && cmd.offset == offset && cmd.numberOfLeds == numberOfLeds && k < CHANNELS
        ensures Spread(c, cmd, k) == Graded(c, cmd, k)
      {
        SpreadIsGraded(c, cmd, k);
      }
    } else {
      SpreadIsWrong(Greys(offset, numberOfLeds));
    }
  }

  /** 87 leds from the first one on: the last color is on led 1, and nothing follows. */
  lemma LastColorOnLedOne(c: Channel, cmd: SetGradientCommand, k: nat)
    requires GoodGradient(cmd) && cmd.offset == 0 && cmd.numberOfLeds == 87 && k < CHANNELS
    ensures StaysInside(cmd) && !RightPlace(0, 87)
    ensures Spread(c, cmd, k)
            == if k < 3 then Aimed(c, Part(cmd.first, k), cmd.time)
               else if k < 6 then Aimed(c, Part(cmd.last, k), cmd.time) else c
  {
    assert EndPosition(cmd) == 2 && Leds(cmd) == 1 && Begin(cmd) == 0;
    BlendColorFirst(cmd);
    if k < 3 {
      SpreadIn(c, cmd, 0, k);
    } else if k < 6 {
      SpreadIn(c, cmd, 1, k);
    }
  }
}

/** firmware/ledstrip.c: the buffers of the led strip, updated in place. Channel k is blue, green or red of
    led k / 3, and its direction is bit k of the packed array `step`, which the loops walk with a pointer and
    a rotating mask. */
module Ledstrip {
  import opened Bits
  import opened Division
  import opened Fade
  import opened Gradient
  import Numbers

  // ---------- the packed array and its rotating mask ----------

  /** The byte with bit i set only. */
  function Mask(i: nat): Octet
    requires i < 8
  {
    seq(8, j => j == 7 - i)
  }

  function Not(a: Octet): Octet {
    seq(8, i requires 0 <= i < 8 => !a[i])
  }

  function BitOf(bytes: seq<Byte>, k: nat): bool
    requires k < 8 * |bytes|
  {
    bytes[k / 8].bits[7 - k % 8]
  }

  /** Bit k of the array is bit k % 8 of byte k / 8, taken as a number. */
  lemma BitOfNumber(bytes: seq<Byte>, k: nat)
    requires k < 8 * |bytes|
    ensures BitOf(bytes, k)
            <==> Numbers.BitsValue(bytes[k / 8].bits) / Numbers.Power2(k % 8) % 2 == 1
  {
    Digit(bytes[k / 8].bits, k % 8);
  }

  lemma {:induction false} Digit(s: seq<bool>, i: nat)
    requires i < |s|
    ensures Numbers.BitsValue(s) / Numbers.Power2(i) % 2 == Numbers.Number(s[|s| - 1 - i])
    decreases i
  {
    var n := |s| - 1;
    LastDigit(Numbers.BitsValue(s), Numbers.BitsValue(s[..n]), Numbers.Number(s[n]));
    if i > 0 {
      Digit(s[..n], i - 1);
      Halves(Numbers.BitsValue(s), Numbers.Power2(i - 1));
    }
  }

  lemma LastDigit(v: nat, half: nat, bit: nat)
    requires v == 2 * half + bit && bit < 2
    ensures v / 2 == half && v / 1 % 2 == bit
  {
  }

  lemma Halves(v: nat, p: nat)
    requires p >= 1
    ensures v / (2 * p) == v / 2 / p
  {
    var half := v / 2;
    var q, r := half / p, half % p;
    assert half == q * p + r;
    assert v == q * (2 * p) + (2 * r + v % 2);
    Divided(v, 2 * p, q, 2 * r + v % 2);
  }

  /** Pointer and mask stand at bit k. */
  predicate At(pointer: nat, mask: Octet, k: nat) {
    pointer == k / 8 && mask == Mask(k % 8)
  }

  /** INC_BIT_COUNTER */
  method IncBitCounter(pointer: nat, mask: Octet, ghost k: nat) returns (nextPointer: nat, nextMask: Octet)
    requires At(pointer, mask, k)
    ensures At(nextPointer, nextMask, k + 1)
  {
    nextPointer, nextMask := pointer, ShiftLeft(mask, 1);
    if k % 8 == 7 {
      assert nextMask == Zeros(8);
    } else {
      assert nextMask[6 - k % 8];
      assert nextMask == Mask(k % 8 + 1);
    }
    if nextMask == Zeros(8) {
      nextPointer := pointer + 1;
      nextMask := Mask(0);
    }
  }

  lemma MaskTests(b: Octet, i: nat)
    requires i < 8
    ensures And(b, Mask(i)) != Zeros(8) <==> b[7 - i]
  {
    if b[7 - i] {
      assert And(b, Mask(i))[7 - i];
    } else {
      assert And(b, Mask(i)) == Zeros(8);
    }
  }

  /** Setting or clearing the bit at the mask changes that bit of the array and no other. */
  lemma MaskWrites(bytes: seq<Byte>, k: nat, on: bool)
    requires k < 8 * |bytes|
    ensures var b := bytes[k / 8].bits;
            var changed := bytes[k / 8 := Byte(if on then Or(b, Mask(k % 8)) else And(b, Not(Mask(k % 8))))];
            forall j: nat | j < 8 * |bytes| :: BitOf(changed, j) == if j == k then on else BitOf(bytes, j)
  {
    var b := bytes[k / 8].bits;
    var changed := bytes[k / 8 := Byte(if on then Or(b, Mask(k % 8)) else And(b, Not(Mask(k % 8))))];
    forall j: nat | j < 8 * |bytes|
      ensures BitOf(changed, j) == if j == k then on else BitOf(bytes, j)
    {
      if j / 8 == k / 8 && j != k {
        assert j % 8 != k % 8;
        assert !Mask(k % 8)[7 - j % 8];
      }
    }
  }

  // ---------- commands ----------

  /** cmd_set_fade: one bit of `addr` per led. */
  datatype SetFadeCommand = SetFadeCommand(addr: seq<Byte>, color: Color, time: nat)

  predicate GoodFade(cmd: SetFadeCommand) {
    |cmd.addr| == 4 && IsColor(cmd.color) && 1 <= cmd.time <= 65535
  }

  /** What a fade command makes of channel k. */
  function Faded(c: Channel, cmd: SetFadeCommand, k: nat): Channel
    requires GoodFade(cmd) && k < CHANNELS
  {
    if BitOf(cmd.addr, k / 3) then Aimed(c, Part(cmd.color, k), cmd.time) else c
  }

  /** The first leds have got the command. */
  function FadedUpTo(before: seq<Channel>, cmd: SetFadeCommand, led: nat): (after: seq<Channel>)
    requires GoodFade(cmd) && |before| == CHANNELS && led <= NUM_OF_LED
    ensures |after| == CHANNELS
  {
    if led == 0 then before
    else
      var earlier := FadedUpTo(before, cmd, led - 1);
      if BitOf(cmd.addr, led - 1) then ThreeAimed(earlier, 3 * (led - 1), cmd.color, cmd.time) else earlier
  }

  lemma ChannelsOfLed(led: nat, k: nat)
    ensures 3 * led <= k < 3 * led + 3 <==> k / 3 == led
    ensures k / 3 == led ==> (k - 3 * led) % 3 == k % 3
  {
  }

  lemma {:induction false} FadedAt(before: seq<Channel>, cmd: SetFadeCommand, led: nat, k: nat)
    requires GoodFade(cmd) && |before| == CHANNELS && led <= NUM_OF_LED && k < CHANNELS
    ensures FadedUpTo(before, cmd, led)[k] == if k / 3 < led then Faded(before[k], cmd, k) else before[k]
  {
    if led > 0 {
      FadedAt(before, cmd, led - 1, k);
      ThreeAimedAt(FadedUpTo(before, cmd, led - 1), 3 * (led - 1), cmd.color, cmd.time, k);
      ChannelsOfLed(led - 1, k);
    }
  }

  lemma FadedAll(before: seq<Channel>, cmd: SetFadeCommand)
    requires GoodFade(cmd) && |before| == CHANNELS && forall k: nat | k < CHANNELS :: Steady(before[k])
    ensures forall k: nat | k < CHANNELS ::
              FadedUpTo(before, cmd, NUM_OF_LED)[k] == Faded(before[k], cmd, k) && Steady(Faded(before[k], cmd, k))
  {
    forall k: nat | k < CHANNELS
      ensures FadedUpTo(before, cmd, NUM_OF_LED)[k] == Faded(before[k], cmd, k) && Steady(Faded(before[k], cmd, k))
    {
      FadedAt(before, cmd, NUM_OF_LED, k);
      AimedSteady(before[k], Part(cmd.color, k), cmd.time);
    }
  }

  // ---------- the buffers ----------

  class LedBuffer {
    const ledArray: array<int>
    const delta: array<int>
    const cyclesLeft: array<nat>
    const periodeLength: array<nat>
    const step: array<Byte>
    const stepSize: array<nat>
    // what the arrays say, channel by channel
    ghost var channels: seq<Channel>

    ghost predicate Shape() {
      && ledArray.Length == delta.Length == cyclesLeft.Length == CHANNELS
      && periodeLength.Length == stepSize.Length == CHANNELS && 8 * step.Length == CHANNELS
      && ledArray != delta
      && cyclesLeft != periodeLength && cyclesLeft != stepSize && periodeLength != stepSize
    }

    ghost predicate Shows(k: nat, c: Channel)
      requires Shape() && k < CHANNELS
      reads ledArray, delta, cyclesLeft, periodeLength, step, stepSize
    {
      && ledArray[k] == c.value && delta[k] == c.delta && cyclesLeft[k] == c.cyclesLeft
      && periodeLength[k] == c.period && stepSize[k] == c.stepSize && BitOf(step[..], k) == c.down
    }

    ghost predicate Synced()
      requires Shape()
      reads this, ledArray, delta, cyclesLeft, periodeLength, step, stepSize
    {
      |channels| == CHANNELS
      && forall k: nat {:trigger Shows(k, channels[k])} | k < CHANNELS :: Shows(k, channels[k])
    }

    lemma EachShows()
      requires Shape() && Synced()
      ensures forall k: nat | k < CHANNELS ::
                && ledArray[k] == channels[k].value && delta[k] == channels[k].delta
                && cyclesLeft[k] == channels[k].cyclesLeft && periodeLength[k] == channels[k].period
                && stepSize[k] == channels[k].stepSize && BitOf(step[..], k) == channels[k].down
    {
      forall k: nat | k < CHANNELS
        ensures ledArray[k] == channels[k].value && delta[k] == channels[k].delta
        ensures cyclesLeft[k] == channels[k].cyclesLeft && periodeLength[k] == channels[k].period
        ensures stepSize[k] == channels[k].stepSize && BitOf(step[..], k) == channels[k].down
      {
        assert Shows(k, channels[k]);
      }
    }

    ghost predicate Valid()
      reads this, ledArray, delta, cyclesLeft, periodeLength, step, stepSize
    {
      Shape() && Synced() && forall k: nat | k < CHANNELS :: Steady(channels[k])
    }

    /** Ledstrip_Init */
    constructor ()
      ensures Valid() && fresh(ledArray) && fresh(delta) && fresh(cyclesLeft) && fresh(periodeLength)
      ensures fresh(step) && fresh(stepSize)
      ensures forall k: nat | k < CHANNELS :: channels[k] == Channel(0, 0, false, 0, 0, 0)
    {
      ledArray := new int[CHANNELS](_ => 0);
      delta := new int[CHANNELS](_ => 0);
      cyclesLeft := new nat[CHANNELS](_ => 0);
      periodeLength := new nat[CHANNELS](_ => 0);
      step := new Byte[CHANNELS / 8](_ => Byte(Zeros(8)));
      stepSize := new nat[CHANNELS](_ => 0);
      channels := seq(CHANNELS, _ => Channel(0, 0, false, 0, 0, 0));
      new;
      assert forall j: nat | j < CHANNELS / 8 :: step[..][j] == Byte(Zeros(8));
      assert forall k: nat | k < CHANNELS :: !BitOf(step[..], k);
    }

    lemma SearchOnce(distance: nat, time: nat, size: nat)
      requires 1 <= size <= distance && 1 <= time
      ensures if PeriodOf(distance, time, size) >= 1 then StepFrom(distance, time, size) == size
              else size < distance && StepFrom(distance, time, size) == StepFrom(distance, time, size + 1)
    {
      OneStep(distance);
    }

    /** The search of CALC_COLOR for the step size and its period. */
    method Search(distance: nat, time: nat) returns (size: nat, period: nat)
      requires time >= 1
      ensures size == StepSize(distance, time) && period == Period(distance, time)
    {
      size := 1;
      period := 0;
      if distance != 0 {
        while period < 1
          invariant 1 <= size <= distance
          invariant StepFrom(distance, time, size) == StepSize(distance, time)
          invariant period < 1 || (period == PeriodOf(distance, time, size) && size == StepSize(distance, time))
          decreases distance - size, period < 1
        {
          SearchOnce(distance, time, size);
          period := PeriodOf(distance, time, size);
          if period < 1 {
            size := size + 1;
          }
        }
      }
    }

    /** Writes the direction of channel k. */
    method SetDirection(k: nat, pointer: nat, mask: Octet, on: bool)
      requires Shape() && Synced() && k < CHANNELS && At(pointer, mask, k)
      modifies this`channels, step
      ensures Synced() && channels == old(channels)[k := old(channels[k]).(down := on)]
    {
      EachShows();
      MaskWrites(step[..], k, on);
      if on {
        step[pointer] := Byte(Or(step[pointer].bits, mask));
      } else {
        step[pointer] := Byte(And(step[pointer].bits, Not(mask)));
      }
      assert step[..] == old(step[..])[pointer := step[pointer]];
      channels := channels[k := channels[k].(down := on)];
    }

    method Store(k: nat, size: nat, distance: nat, period: nat)
      requires Shape() && Synced() && k < CHANNELS
      modifies this`channels, delta, cyclesLeft, periodeLength, stepSize
      ensures Synced()
      ensures channels == old(channels)[k := old(channels[k]).(stepSize := size, delta := distance,
                                                               period := period, cyclesLeft := period)]
    {
      EachShows();
      stepSize[k] := size;
      delta[k] := distance;
      periodeLength[k] := period;
      cyclesLeft[k] := period;
      channels := channels[k := channels[k].(stepSize := size, delta := distance,
                                             period := period, cyclesLeft := period)];
    }

    /** CALC_COLOR for channel k, and INC_BIT_COUNTER. */
    method CalcColor(k: nat, newColor: int, time: nat, pointer: nat, mask: Octet)
      returns (nextPointer: nat, nextMask: Octet)
      requires Shape() && Synced() && k < CHANNELS && At(pointer, mask, k) && 1 <= time
      modifies this`channels, delta, cyclesLeft, periodeLength, step, stepSize
      ensures Synced() && channels == old(channels)[k := Aimed(old(channels[k]), newColor, time)]
      ensures At(nextPointer, nextMask, k + 1)
    {
      EachShows();
      var distance := ledArray[k];
      var down := distance > newColor;
      SetDirection(k, pointer, mask, down);
      if down {
        distance := distance - newColor;
      } else {
        distance := newColor - distance;
      }
      var size, period := Search(distance, time);
      Store(k, size, distance, period);
      nextPointer, nextMask := IncBitCounter(pointer, mask, k);
    }

    /** CALC_COLOR for three channels. */
    method SetLed(k: nat, color: Color, time: nat, pointer: nat, mask: Octet)
      returns (nextPointer: nat, nextMask: Octet)
      requires Shape() && Synced() && k + 3 <= CHANNELS && At(pointer, mask, k) && 1 <= time
      modifies this`channels, delta, cyclesLeft, periodeLength, step, stepSize
      ensures Synced() && At(nextPointer, nextMask, k + 3)
      ensures channels == ThreeAimed(old(channels), k, color, time)
    {
      nextPointer, nextMask := CalcColor(k, color.blue, time, pointer, mask);
      nextPointer, nextMask := CalcColor(k + 1, color.green, time, nextPointer, nextMask);
      nextPointer, nextMask := CalcColor(k + 2, color.red, time, nextPointer, nextMask);
    }

    /** Passes over the three channels of a led. */
    method SkipLed(ghost k: nat, pointer: nat, mask: Octet) returns (nextPointer: nat, nextMask: Octet)
      requires At(pointer, mask, k)
      ensures At(nextPointer, nextMask, k + 3)
    {
      nextPointer, nextMask := IncBitCounter(pointer, mask, k);
      nextPointer, nextMask := IncBitCounter(nextPointer, nextMask, k + 1);
      nextPointer, nextMask := IncBitCounter(nextPointer, nextMask, k + 2);
    }

    method TestBit(bytes: seq<Byte>, pointer: nat, mask: Octet, ghost k: nat) returns (isSet: bool)
      requires At(pointer, mask, k) && k < 8 * |bytes|
      ensures isSet == BitOf(bytes, k)
    {
      MaskTests(bytes[pointer].bits, k % 8);
      isSet := And(bytes[pointer].bits, mask) != Zeros(8);
    }

    /** The loop of Ledstrip_SetFade. */
    method FadeLeds(cmd: SetFadeCommand)
      requires Shape() && Synced() && GoodFade(cmd)
      modifies this`channels, delta, cyclesLeft, periodeLength, step, stepSize
      ensures Synced() && channels == FadedUpTo(old(channels), cmd, NUM_OF_LED)
    {
      var stepAddress: nat, stepMask := 0, Mask(0);
      var address: nat, mask := 0, Mask(0);
      var led := 0;
      while led < NUM_OF_LED
        invariant led <= NUM_OF_LED && At(stepAddress, stepMask, 3 * led) && At(address, mask, led)
        invariant Synced() && channels == FadedUpTo(old(channels), cmd, led)
      {
        var selected := TestBit(cmd.addr, address, mask, led);
        if selected {
          stepAddress, stepMask := SetLed(3 * led, cmd.color, cmd.time, stepAddress, stepMask);
        } else {
          stepAddress, stepMask := SkipLed(3 * led, stepAddress, stepMask);
        }
        address, mask := IncBitCounter(address, mask, led);
        led := led + 1;
      }
    }

    /** Ledstrip_SetFade */
    method SetFade(cmd: SetFadeCommand)
      requires Valid() && GoodFade(cmd)
      modifies this`channels, delta, cyclesLeft, periodeLength, step, stepSize
      ensures Valid()
      ensures forall k: nat | k < CHANNELS :: channels[k] == Faded(old(channels)[k], cmd, k)
      // blue, green and red of the selected leds, in this order, and nothing else
      ensures forall k: nat | k < CHANNELS ::
                channels[k] == if !BitOf(cmd.addr, k / 3) then old(channels)[k]
                               else if k % 3 == 0 then Aimed(old(channels)[k], cmd.color.blue, cmd.time)
                               else if k % 3 == 1 then Aimed(old(channels)[k], cmd.color.green, cmd.time)
                               else Aimed(old(channels)[k], cmd.color.red, cmd.time)
    {
      FadedAll(channels, cmd);
      FadeLeds(cmd);
    }

    /** A led of the gradient gets its color, and the next color is calculated. */
    method GradeNext(ghost before: seq<Channel>, cmd: SetGradientCommand, k: nat, ghost i: nat, color: Color,
                     diff: Color, pointer: nat, mask: Octet)
      returns (nextPointer: nat, nextMask: Octet, nextColor: Color)
      requires Shape() && Synced() && GoodGradient(cmd) && diff == StepColor(cmd, Gaps(cmd.numberOfLeds))
      requires k + 3 <= CHANNELS && At(pointer, mask, k) && Spreading(before, channels, cmd, k)
      requires i < Leds(cmd) && k == Begin(cmd) + 3 * i && color == BlendColor(cmd, i)
      modifies this`channels, delta, cyclesLeft, periodeLength, step, stepSize
      ensures Synced() && At(nextPointer, nextMask, k + 3) && nextColor == BlendColor(cmd, i + 1)
      ensures Spreading(before, channels, cmd, k + 3)
    {
      SpreadLed(before, channels, cmd, k, i);
      LedsAtMostGaps(cmd);
      BlendColorNext(cmd, i);
      nextPointer, nextMask := SetLed(k, color, cmd.time, pointer, mask);
      nextColor := AdjustColor(color, cmd, diff);
    }

    /** The led behind the others gets the last color. */
    method GradeLast(ghost before: seq<Channel>, cmd: SetGradientCommand, k: nat, pointer: nat, mask: Octet)
      requires Shape() && Synced() && GoodGradient(cmd)
      requires k + 3 <= CHANNELS && At(pointer, mask, k) && Spreading(before, channels, cmd, k)
      requires k == Begin(cmd) + 3 * Leds(cmd)
      modifies this`channels, delta, cyclesLeft, periodeLength, step, stepSize
      ensures Synced() && Spreading(before, channels, cmd, CHANNELS)
    {
      SpreadLast(before, channels, cmd, k);
      var nextPointer, nextMask := SetLed(k, cmd.last, cmd.time, pointer, mask);
    }

    /** The loop of Ledstrip_SetGradient, which takes single steps up to the first led and then whole leds. */
    method GradeLeds(cmd: SetGradientCommand, first: nat, gaps: nat, endPosition: nat)
      requires Shape() && Synced() && GoodGradient(cmd) && StaysInside(cmd) && gaps == Gaps(cmd.numberOfLeds)
      requires first == FirstPosition(cmd) && endPosition == EndPosition(cmd)
      modifies this`channels, delta, cyclesLeft, periodeLength, step, stepSize
      ensures Synced() && Spreading(old(channels), channels, cmd, CHANNELS)
    {
      var diff := StepColor(cmd, gaps);
      var color := cmd.first;
      var stepAddress: nat, stepMask := 0, Mask(0);
      var k := 0;
      ghost var i := 0;
      ghost var before := channels;
      BlendColorFirst(cmd);
      while k < CHANNELS
        invariant k <= CHANNELS && At(stepAddress, stepMask, k) && i <= Leds(cmd)
        invariant if k < Begin(cmd) then i == 0 else k == Begin(cmd) + 3 * i
        invariant color == BlendColor(cmd, i) && Synced() && Spreading(before, channels, cmd, k)
        decreases CHANNELS - k
      {
        if k >= Begin(cmd) { RoomForLed(cmd, i); }
        if k >= endPosition {
          GradeLast(before, cmd, k, stepAddress, stepMask);
          return;
        }
        if k >= first {
          stepAddress, stepMask, color := GradeNext(before, cmd, k, i, color, diff, stepAddress, stepMask);
          k, i := k + 3, i + 1;
        } else {
          SpreadNot(before, channels, cmd, k);
          stepAddress, stepMask := IncBitCounter(stepAddress, stepMask, k);
          k := k + 1;
        }
      }
    }

    /** Ledstrip_SetGradient, wherever its 8-bit positions come to lie. */
    method SetGradient(cmd: SetGradientCommand)
      requires Valid() && GoodGradient(cmd) && StaysInside(cmd)
      modifies this`channels, delta, cyclesLeft, periodeLength, step, stepSize
      ensures Valid()
      ensures forall k: nat | k < CHANNELS :: channels[k] == Spread(old(channels)[k], cmd, k)
      ensures RightPlace(cmd.offset, cmd.numberOfLeds) ==>
                forall k: nat | k < CHANNELS :: channels[k] == Graded(old(channels)[k], cmd, k)
    {
      var offset := (3 * cmd.offset) % 256;
      var numOfLeds := (cmd.numberOfLeds - 1) % 256;
      GapsInEightBits(cmd.numberOfLeds, numOfLeds);
      if numOfLeds == 255 || numOfLeds == 0 {
        numOfLeds := 1;
      }
      ghost var before := channels;
      SpreadAll(before, cmd);
      var endPosition := (offset + (3 * numOfLeds) % 256) % 256;
      GradeLeds(cmd, offset, numOfLeds, endPosition);
      assert Spreading(before, channels, cmd, CHANNELS);
    }

    /** The body of Ledstrip_DoFade's first loop. */
    method CountChannel(k: nat)
      requires Shape() && Synced() && k < CHANNELS
      modifies this`channels, cyclesLeft
      ensures Synced() && channels == old(channels)[k := Count(old(channels[k]))]
    {
      EachShows();
      if delta[k] > 0 && cyclesLeft[k] > 0 {
        cyclesLeft[k] := cyclesLeft[k] - 1;
      }
      channels := channels[k := Count(channels[k])];
    }

    /** The body of its second loop. */
    method MoveChannel(k: nat, pointer: nat, mask: Octet)
      requires Shape() && Synced() && k < CHANNELS && At(pointer, mask, k)
      modifies this`channels, ledArray, delta, cyclesLeft
      ensures Synced() && channels == old(channels)[k := Move(old(channels[k]))]
    {
      EachShows();
      if delta[k] > 0 && cyclesLeft[k] == 0 {
        var size: int := stepSize[k];
        if delta[k] < size {
          size := delta[k];
          delta[k] := 0;
        } else {
          delta[k] := delta[k] - size;
        }
        cyclesLeft[k] := periodeLength[k];
        var down := TestBit(step[..], pointer, mask, k);
        ledArray[k] := (if down then ledArray[k] - size else ledArray[k] + size) % 256;
      }
      channels := channels[k := Move(channels[k])];
    }

    /** Ledstrip_DoFade: one tick for every channel, without wrapping round and with the same targets. */
    method DoFade()
      requires Valid()
      modifies this`channels, ledArray, delta, cyclesLeft
      ensures Valid()
      ensures forall k: nat | k < CHANNELS ::
                channels[k] == Tick(old(channels)[k]) && Target(channels[k]) == Target(old(channels)[k])
    {
      ghost var before := channels;
      var k := 0;
      while k < CHANNELS
        invariant k <= CHANNELS && Synced()
        invariant forall j: nat | j < CHANNELS :: channels[j] == if j < k then Count(before[j]) else before[j]
      {
        CountChannel(k);
        k := k + 1;
      }
      var stepAddress: nat, stepMask := 0, Mask(0);
      k := 0;
      while k < CHANNELS
        invariant k <= CHANNELS && Synced() && At(stepAddress, stepMask, k)
        invariant forall j: nat | j < CHANNELS :: channels[j] == if j < k then Tick(before[j]) else Count(before[j])
      {
        MoveChannel(k, stepAddress, stepMask);
        stepAddress, stepMask := IncBitCounter(stepAddress, stepMask, k);
        k := k + 1;
      }
      AllTick(before);
    }

    /** n turns of the main cycle. */
    method DoFades(n: nat)
      requires Valid()
      modifies this`channels, ledArray, delta, cyclesLeft
      ensures Valid()
      ensures forall k: nat | k < CHANNELS :: channels[k] == Ticks(old(channels)[k], n)
    {
      ghost var before := channels;
      var i := 0;
      while i < n
        invariant i <= n && Valid()
        invariant forall k: nat | k < CHANNELS :: channels[k] == Ticks(before[k], i)
      {
        DoFade();
        i := i + 1;
      }
    }

    /** A fade command followed by n turns of the main cycle: a selected channel shows its part of the color
        from turn number Duration on and not before, and the others behave as if there had been no command. */
    method FadeAndWait(cmd: SetFadeCommand, n: nat)
      requires Valid() && GoodFade(cmd)
      modifies this`channels, ledArray, delta, cyclesLeft, periodeLength, step, stepSize
      ensures Valid()
      ensures forall k: nat | k < CHANNELS && BitOf(cmd.addr, k / 3) ::
                channels[k].value == Part(cmd.color, k)
                <==> n >= Duration(Distance(old(channels)[k].value, Part(cmd.color, k)), cmd.time)
      ensures forall k: nat | k < CHANNELS && !BitOf(cmd.addr, k / 3) :: channels[k] == Ticks(old(channels)[k], n)
    {
      ghost var before := channels;
      SetFade(cmd);
      DoFades(n);
      forall k: nat | k < CHANNELS && BitOf(cmd.addr, k / 3)
        ensures channels[k].value == Part(cmd.color, k)
                <==> n >= Duration(Distance(before[k].value, Part(cmd.color, k)), cmd.time)
      {
        FadeArrives(before[k], Part(cmd.color, k), cmd.time, n);
      }
    }

    /** Ledstrip_SetColorDirect: every channel shows its value at once and rests there. */
    method SetColorDirect(values: seq<int>)
      requires Valid() && |values| == CHANNELS && forall i | 0 <= i < CHANNELS :: 0 <= values[i] < 256
      modifies this`channels, ledArray, delta, cyclesLeft
      ensures Valid()
      ensures forall k: nat | k < CHANNELS ::
                channels[k] == old(channels)[k].(value := values[Mirrored(k)], delta := 0, cyclesLeft := 0)
    {
      ghost var before := channels;
      var k := 0;
      while k < CHANNELS
        invariant k <= CHANNELS && k % 3 == 0 && Synced()
        invariant forall j: nat | j < CHANNELS ::
            channels[j] == if j < k then Direct(before, values, j) else before[j]
      {
        SetDirect(k, values[k + 2]);
        SetDirect(k + 1, values[k + 1]);
        SetDirect(k + 2, values[k]);
        k := k + 3;
      }
    }

    method SetDirect(k: nat, value: int)
      requires Shape() && Synced() && k < CHANNELS
      modifies this`channels, ledArray, delta, cyclesLeft
      ensures Synced()
      ensures channels == old(channels)[k := old(channels[k]).(value := value, delta := 0, cyclesLeft := 0)]
    {
      EachShows();
      ledArray[k] := value;
      cyclesLeft[k] := 0;
      delta[k] := 0;
      channels := channels[k := channels[k].(value := value, delta := 0, cyclesLeft := 0)];
    }
  }

  /** Where the value of channel k is in a red-green-blue message. */
  function Mirrored(k: nat): (i: nat)
    ensures i == k / 3 * 3 + 2 - k % 3
    ensures k < CHANNELS ==> i < CHANNELS
  {
    k / 3 * 3 + 2 - k % 3
  }

  ghost function Direct(before: seq<Channel>, values: seq<int>, k: nat): Channel
    requires |before| == |values| == CHANNELS && k < CHANNELS
  {
    before[k].(value := values[Mirrored(k)], delta := 0, cyclesLeft := 0)
  }

  lemma AllTick(before: seq<Channel>)
    requires |before| == CHANNELS && forall k: nat | k < CHANNELS :: Steady(before[k])
    ensures forall k: nat | k < CHANNELS ::
              Steady(Tick(before[k])) && Target(Tick(before[k])) == Target(before[k])
  {
    forall k: nat | k < CHANNELS
      ensures Steady(Tick(before[k])) && Target(Tick(before[k])) == Target(before[k])
    {
      TickSteady(before[k]);
    }
  }
}

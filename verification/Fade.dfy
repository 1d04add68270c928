/** How one color channel of the led strip fades (firmware/ledstrip.c). A channel has a value, the distance
    `delta` still to go and its direction, and moves by `stepSize` once every `period` calls of
    Ledstrip_DoFade. */
module Fade {
  import opened Division

  datatype Channel = Channel(value: int, delta: int, down: bool, stepSize: nat, period: nat, cyclesLeft: nat)

  function Distance(a: int, b: int): nat {
    if a > b then a - b else b - a
  }

  /** The do-while loop of CALC_COLOR, from step size `s` on. */
  function StepFrom(delta: nat, time: nat, s: nat): (step: nat)
    requires 1 <= s <= delta && 1 <= time
    ensures s <= step <= delta && Div(delta, step) <= time
    decreases delta - s
  {
    if Div(delta, s) <= time then s
    else
      OneStep(delta);
      StepFrom(delta, time, s + 1)
  }

  lemma OneStep(d: nat)
    requires d >= 1
    ensures Div(d, d) == 1
  {
    assert Div(d - d, d) == 0;
  }

  /** The least step size that needs no more than `time` steps. */
  function StepSize(delta: nat, time: nat): (step: nat)
    requires 1 <= time
    ensures delta > 0 ==> 1 <= step <= delta && Div(delta, step) <= time
  {
    if delta == 0 then 1 else StepFrom(delta, time, 1)
  }

  /** No smaller step size will do. */
  lemma StepSizeIsLeast(delta: nat, time: nat, r: nat)
    requires 1 <= time && delta > 0
    ensures 1 <= r < StepSize(delta, time) ==> Div(delta, r) > time
  {
    if 1 <= r < StepSize(delta, time) {
      StepFromIsLeast(delta, time, 1, r);
    }
  }

  lemma {:induction false} StepFromIsLeast(delta: nat, time: nat, s: nat, r: nat)
    requires 1 <= s <= delta && 1 <= time && s <= r < StepFrom(delta, time, s)
    ensures Div(delta, r) > time
    decreases delta - s
  {
    if r > s { StepFromIsLeast(delta, time, s + 1, r); }
  }

  /** The period of step size `s`. */
  function PeriodOf(delta: nat, time: nat, s: nat): (period: nat)
    requires 1 <= s <= delta
    ensures period >= 1 <==> Div(delta, s) <= time
    ensures period <= time
  {
    Div(time, Div(delta, s))
  }

  function Period(delta: nat, time: nat): (period: nat)
    requires 1 <= time
    ensures delta > 0 ==> 1 <= period <= time
  {
    if delta == 0 then 0 else PeriodOf(delta, time, StepSize(delta, time))
  }

  /** The condition of CALC_COLOR's loop is met at some step size exactly for a positive time. With time 0
      the loop goes on to a step size above `delta`, whose quotient is 0, and divides by it. */
  lemma SearchEnds(delta: nat, time: nat)
    requires delta > 0
    ensures (exists s :: 1 <= s <= delta && PeriodOf(delta, time, s) >= 1) <==> time >= 1
    ensures Div(delta, delta + 1) == 0
  {
    if time >= 1 {
      assert PeriodOf(delta, time, StepSize(delta, time)) >= 1;
    }
  }

  /** CALC_COLOR */
  function Aimed(c: Channel, target: int, time: nat): Channel
    requires 1 <= time
  {
    var delta := Distance(c.value, target);
    Channel(c.value, delta, c.value > target, StepSize(delta, time), Period(delta, time), Period(delta, time))
  }

  // ---------- Ledstrip_DoFade ----------

  /** The first loop. */
  function Count(c: Channel): Channel {
    if c.delta > 0 && c.cyclesLeft > 0 then c.(cyclesLeft := c.cyclesLeft - 1) else c
  }

  /** The second loop, in 8-bit arithmetic. */
  function Move(c: Channel): Channel {
    if c.delta > 0 && c.cyclesLeft == 0 then
      var step := if c.delta < c.stepSize then c.delta else c.stepSize;
      c.(delta := c.delta - step, cyclesLeft := c.period,
         value := (if c.down then c.value - step else c.value + step) % 256)
    else c
  }

  function Tick(c: Channel): Channel {
    Move(Count(c))
  }

  /** Where a channel is going. */
  function Target(c: Channel): int {
    if c.down then c.value - c.delta else c.value + c.delta
  }

  /** What holds of every channel at any time: value and target are colors, and a channel on its way has
      parameters that fit their 8 and 16 bits and will move it. */
  predicate Steady(c: Channel) {
    && 0 <= c.value < 256 && 0 <= c.delta && 0 <= Target(c) < 256
    && (c.delta > 0 ==> 1 <= c.stepSize <= 255 && 1 <= c.cyclesLeft <= c.period <= 65535)
  }

  lemma AimedSteady(c: Channel, target: int, time: nat)
    requires 0 <= c.value < 256 && 0 <= target < 256 && 1 <= time <= 65535
    ensures Steady(Aimed(c, target, time)) && Target(Aimed(c, target, time)) == target
    ensures Aimed(c, target, time).value == c.value
  {
  }

  /** A channel that is there already is aimed at rest. */
  lemma AimedAtRest(c: Channel, time: nat)
    requires 1 <= time
    ensures Aimed(c, c.value, time) == Channel(c.value, 0, false, 1, 0, 0)
  {
  }

  /** A tick never changes the target, never wraps round and never moves away from the target. */
  lemma TickSteady(c: Channel)
    requires Steady(c)
    ensures Steady(Tick(c)) && Target(Tick(c)) == Target(c) && Tick(c).delta <= c.delta
    ensures Tick(c).delta == Distance(Tick(c).value, Target(c))
    ensures c.delta == 0 ==> Tick(c) == c
  {
  }

  function Ticks(c: Channel, n: nat): Channel {
    if n == 0 then c else Tick(Ticks(c, n - 1))
  }

  function Min(a: int, b: int): int {
    if a < b then a else b
  }

  /** A channel that left for its target, has gone `moved` and is in tick number `phase` of its period. */
  function Underway(c: Channel, moved: int, phase: nat): Channel
    requires phase <= c.period
  {
    c.(value := if c.down then c.value - moved else c.value + moved,
       delta := c.delta - moved,
       cyclesLeft := if moved < c.delta then c.period - phase else c.period)
  }

  lemma UnderwayTick(c: Channel, moved: nat, phase: nat)
    requires Steady(c) && moved <= c.delta && phase < c.period && c.delta > 0
    ensures Tick(Underway(c, moved, phase)) ==
            Underway(c, Further(c, moved, phase).0, Further(c, moved, phase).1)
  {
  }

  /** How far it has gone after n ticks. */
  function Moved(c: Channel, n: nat): (m: nat)
    requires c.period >= 1 && c.delta >= 0
    ensures m <= c.delta
  {
    NotNegative(c.stepSize, n / c.period);
    Min(c.delta, c.stepSize * (n / c.period))
  }

  lemma NotNegative(a: nat, b: nat)
    ensures a * b >= 0
  {
  }

  /** One more tick. */
  function Further(c: Channel, moved: nat, phase: nat): (nat, nat)
    requires c.delta >= 0
  {
    if phase == c.period - 1 then (Min(c.delta, moved + c.stepSize), 0) else (moved, phase + 1)
  }

  lemma FurtherIs(c: Channel, n: nat)
    requires c.period >= 1 && c.delta >= 0
    ensures Further(c, Moved(c, n), n % c.period) == (Moved(c, n + 1), (n + 1) % c.period)
  {
    NextQuotient(n, c.period);
    MoreSteps(c.stepSize, n / c.period);
  }

  /** The state after n ticks, in closed form. */
  function After(c: Channel, n: nat): Channel
    requires c.period >= 1 && c.delta >= 0
  {
    Underway(c, Moved(c, n), n % c.period)
  }

  lemma AfterNext(c: Channel, n: nat)
    requires Steady(c) && c.delta > 0
    ensures Tick(After(c, n)) == After(c, n + 1)
  {
    UnderwayTick(c, Moved(c, n), n % c.period);
    FurtherIs(c, n);
  }

  lemma NextQuotient(n: nat, p: nat)
    requires p >= 1
    ensures if n % p == p - 1 then (n + 1) / p == n / p + 1 && (n + 1) % p == 0
            else (n + 1) / p == n / p && (n + 1) % p == n % p + 1
  {
    var q, r := n / p, n % p;
    if r == p - 1 {
      assert n + 1 == (q + 1) * p;
      Divided(n + 1, p, q + 1, 0);
    } else {
      Divided(n + 1, p, q, r + 1);
    }
  }

  /** A freshly aimed channel is in closed form after every number of ticks. */
  lemma {:induction false} TicksAre(c: Channel, n: nat)
    requires Steady(c) && c.delta > 0 && c.cyclesLeft == c.period
    ensures Ticks(c, n) == After(c, n)
  {
    if n == 0 {
      assert Moved(c, 0) == 0;
    } else {
      TicksAre(c, n - 1);
      AfterNext(c, n - 1);
    }
  }

  lemma MoreSteps(s: nat, k: nat)
    ensures s * (k + 1) == s * k + s
  {
  }

  /** How many steps it takes to go `delta`. */
  function Rounds(delta: nat, step: nat): nat
    requires step >= 1
  {
    (delta + step - 1) / step
  }

  lemma EnoughRounds(delta: nat, step: nat, k: nat)
    requires step >= 1
    ensures step * k >= delta <==> k >= Rounds(delta, step)
  {
    var r := Rounds(delta, step);
    assert step * r <= delta + step - 1 < step * r + step;
    if k >= r {
      assert step * k >= step * r;
    } else {
      assert step * k <= step * (r - 1) == step * r - step;
    }
  }

  lemma EnoughTicks(n: nat, p: nat, r: nat)
    requires p >= 1
    ensures n / p >= r <==> n >= r * p
  {
    var q := n / p;
    assert q * p <= n < q * p + p;
    if q >= r {
      assert q * p >= r * p;
    } else {
      assert (q + 1) * p <= r * p;
    }
  }

  /** The time a fade takes. */
  function Duration(delta: nat, time: nat): nat
    requires 1 <= time
  {
    if delta == 0 then 0 else Rounds(delta, StepSize(delta, time)) * Period(delta, time)
  }

  /** The channel is at its target from tick number Duration on, and not before. */
  lemma FadeArrives(c: Channel, target: int, time: nat, n: nat)
    requires 0 <= c.value < 256 && 0 <= target < 256 && 1 <= time <= 65535
    ensures Ticks(Aimed(c, target, time), n).value == target <==> n >= Duration(Distance(c.value, target), time)
  {
    var a := Aimed(c, target, time);
    AimedSteady(c, target, time);
    if a.delta == 0 {
      Rests(a, n);
    } else {
      TicksAre(a, n);
      MovedAll(a, n);
    }
  }

  lemma MovedAll(c: Channel, n: nat)
    requires c.period >= 1 && c.stepSize >= 1 && c.delta > 0
    ensures Moved(c, n) == c.delta <==> n >= Rounds(c.delta, c.stepSize) * c.period
  {
    EnoughRounds(c.delta, c.stepSize, n / c.period);
    EnoughTicks(n, c.period, Rounds(c.delta, c.stepSize));
  }

  lemma {:induction false} Rests(c: Channel, n: nat)
    requires c.delta == 0
    ensures Ticks(c, n) == c
  {
    if n > 0 { Rests(c, n - 1); }
  }

  /** It takes at most one period longer than the time asked for, and is early by less than one tick for
      each of its whole steps. */
  lemma FadeInTime(delta: nat, time: nat)
    requires 1 <= time && delta >= 1
    ensures Duration(delta, time) <= time + Period(delta, time)
    ensures time < Duration(delta, time) + Div(delta, StepSize(delta, time))
  {
    var s := StepSize(delta, time);
    DivIs(delta, s);
    WholeRounds(delta, s);
    InTime(time, Div(delta, s), Rounds(delta, s));
  }

  lemma InTime(time: nat, q: nat, r: nat)
    requires q >= 1 && (r == q || r == q + 1)
    ensures var p := Div(time, q); r * p <= time + p && time < r * p + q
  {
    DivIs(time, q);
    var p := Div(time, q);
    OneMore(q, p);
    assert q * p <= time < q * p + q;
  }

  lemma WholeRounds(delta: nat, s: nat)
    requires 1 <= s <= delta
    ensures var r := Rounds(delta, s); r == delta / s || r == delta / s + 1
  {
    var q := delta / s;
    if delta % s == 0 {
      Divided(delta + s - 1, s, q, s - 1);
    } else {
      assert delta + s - 1 == (q + 1) * s + (delta % s - 1);
      Divided(delta + s - 1, s, q + 1, delta % s - 1);
    }
  }
}

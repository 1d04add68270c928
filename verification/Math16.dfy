/** firmware/MATH16.H: multiplication and division on a machine that only shifts, adds and subtracts. The
    operand that is shifted through the carry flag is a list of bits, the accumulator a number. */
module Math16 {
  import opened Division
  import opened Numbers

  const WORD: nat := 0x10000

  /** The rl instruction on a list of bits: the carry comes in below, the top bit goes out to the carry. */
  function RotateLeft(s: seq<bool>, carry: bool): (r: (seq<bool>, bool))
    requires s != []
    ensures [r.1] + r.0 == s + [carry]
  {
    (s[1..] + [carry], s[0])
  }

  /** The rl instruction on a number below `size`. */
  function RotateNumber(n: nat, carry: bool, size: nat): (r: (nat, bool))
    requires n < size && size % 2 == 0
    ensures r.0 < size && r.0 + Number(r.1) * size == 2 * n + Number(carry)
  {
    var doubled := 2 * n + Number(carry);
    if doubled >= size then (doubled - size, true) else (doubled, false)
  }

  /** What is rotated in becomes the lowest bit. */
  lemma Lowest(n: nat, carry: bool)
    requires n < 256
    ensures RotateNumber(n, carry, 256).0 % 2 == Number(carry)
  {
  }

  /** genSubW: 8-bit subtraction with borrow. The carry flag is clear when there is a borrow. */
  function SubtractW(a: nat, b: nat, carry: bool): (r: (nat, bool))
    requires a < 256 && b < 256
    ensures r.0 < 256 && a - b - 1 + Number(carry) == r.0 - 256 * (1 - Number(r.1))
  {
    var d := a - b - 1 + Number(carry);
    if d < 0 then (d + 256, false) else (d, true)
  }

  /** The shared body of the 16-bit loops: compares bytewise and subtracts if it fits. */
  method SubtractIfFits(rm: nat, arg2: nat) returns (rest: nat, carry: bool)
    requires rm < WORD && arg2 < WORD
    ensures carry == (rm >= arg2) && rest == if rm >= arg2 then rm - arg2 else rm
  {
    var low := SubtractW(rm % 256, arg2 % 256, true);
    var high := SubtractW(rm / 256, arg2 / 256, low.1);
    carry := high.1;
    rest := if carry then 256 * high.0 + low.0 else rm;
  }

  /** One digit of a long division. */
  lemma NextDigit(prefix: nat, q: nat, rm: nat, d: nat, bit: bool, fits: bool)
    requires prefix == q * d + rm && rm < d && fits == (2 * rm + Number(bit) >= d)
    ensures var next := 2 * rm + Number(bit);
            var rest := if fits then next - d else next;
            rest < d && 2 * prefix + Number(bit) == (2 * q + Number(fits)) * d + rest
  {
    assert (2 * q) * d == 2 * (q * d);
    OneMore(2 * q, d);
  }

  lemma TakeNext(s: seq<bool>, i: nat)
    requires i < |s|
    ensures s[..i + 1] == s[..i] + [s[i]] && s[i..] == [s[i]] + s[i + 1..]
  {
  }

  /** The carry and the shifted operand hold the digits to come, the carry flag the loop began with, and the
      quotient so far. */
  predicate Shifted(carry: bool, arg1: seq<bool>, dividend: seq<bool>, i: nat, first: bool, q: seq<bool>)
    requires i <= |dividend|
  {
    [carry] + arg1 == dividend[i..] + [first] + q
  }

  lemma ShiftedNext(carry: bool, arg1: seq<bool>, dividend: seq<bool>, i: nat, first: bool, q: seq<bool>, digit: bool)
    requires i < |dividend| && arg1 != [] && Shifted(carry, arg1, dividend, i, first, q)
    ensures carry == dividend[i]
    ensures var r := RotateLeft(arg1, digit); Shifted(r.1, r.0, dividend, i + 1, first, q + [digit])
  {
    TakeNext(dividend, i);
    assert ([carry] + arg1)[0] == carry;
    var rest := dividend[i + 1..] + [first] + q;
    assert [carry] + arg1 == [dividend[i]] + rest;
    assert ([carry] + arg1)[1..] == arg1 && ([dividend[i]] + rest)[1..] == rest;
    assert arg1 + [digit] == dividend[i + 1..] + [first] + (q + [digit]);
  }

  lemma ShiftedAll(carry: bool, arg1: seq<bool>, dividend: seq<bool>, first: bool, q: seq<bool>)
    requires Shifted(carry, arg1, dividend, |dividend|, first, q)
    ensures arg1 == q
  {
    assert dividend[|dividend|..] + [first] + q == [first] + q;
    assert ([carry] + arg1)[1..] == arg1 && ([first] + q)[1..] == q;
  }

  /** The long division after i digits of the dividend. */
  predicate Divides(dividend: seq<bool>, i: nat, q: seq<bool>, d: nat, rm: nat)
    requires i <= |dividend|
  {
    |q| == i && rm < d && rm < Power2(i) && BitsValue(dividend[..i]) == BitsValue(q) * d + rm
  }

  lemma DividesStart(dividend: seq<bool>, d: nat)
    requires d > 0
    ensures Divides(dividend, 0, [], d, 0)
  {
  }

  lemma DividesNext(dividend: seq<bool>, i: nat, q: seq<bool>, d: nat, rm: nat)
    requires i < |dividend| <= 16 && Divides(dividend, i, q, d, rm)
    ensures var next := 2 * rm + Number(dividend[i]);
            && next < WORD
            && Divides(dividend, i + 1, q + [next >= d], d, if next >= d then next - d else next)
  {
    var bit := dividend[i];
    var next := 2 * rm + Number(bit);
    TakeNext(dividend, i);
    BitsValueLonger(dividend[..i], bit);
    BitsValueLonger(q, next >= d);
    NextDigit(BitsValue(dividend[..i]), BitsValue(q), rm, d, bit, next >= d);
    PowersGrow(i + 1, 16);
    assert Power2(8) == 256 && Power2(16) == WORD;
  }

  lemma DividesAll(dividend: seq<bool>, q: seq<bool>, d: nat, rm: nat)
    requires Divides(dividend, |dividend|, q, d, rm)
    ensures BitsValue(q) == BitsValue(dividend) / d && rm == BitsValue(dividend) % d
  {
    assert dividend[..|dividend|] == dividend;
    Divided(BitsValue(dividend), d, BitsValue(q), rm);
  }

  lemma ShiftedStart(dividend: seq<bool>, first: bool)
    requires dividend != []
    ensures var r := RotateLeft(dividend, first); Shifted(r.1, r.0, dividend, 0, first, [])
  {
    assert dividend[0..] == dividend;
    assert dividend + [first] == dividend + [first] + [];
  }

  /** _divU16_16 */
  method DivU16By16(dividend: seq<bool>, arg2: nat, firstCarry: bool) returns (quotient: seq<bool>)
    requires |dividend| == 16 && 0 < arg2 < WORD
    ensures |quotient| == 16 && BitsValue(quotient) == BitsValue(dividend) / arg2
  {
    var rm: nat, carry := 0, firstCarry;
    var arg1 := dividend;
    ShiftedStart(dividend, firstCarry);
    DividesStart(dividend, arg2);
    arg1, carry := RotateLeft(arg1, carry).0, RotateLeft(arg1, carry).1;
    ghost var q: seq<bool> := [];
    for i := 0 to 16
      invariant |arg1| == 16 && Shifted(carry, arg1, dividend, i, firstCarry, q)
      invariant Divides(dividend, i, q, arg2, rm)
    {
      ghost var digit := 2 * rm + Number(dividend[i]) >= arg2;
      ShiftedNext(carry, arg1, dividend, i, firstCarry, q, digit);
      DividesNext(dividend, i, q, arg2, rm);
      rm := RotateNumber(rm, carry, WORD).0;
      rm, carry := SubtractIfFits(rm, arg2);
      q := q + [digit];
      arg1, carry := RotateLeft(arg1, carry).0, RotateLeft(arg1, carry).1;
    }
    ShiftedAll(carry, arg1, dividend, firstCarry, q);
    DividesAll(dividend, q, arg2, rm);
    quotient := arg1;
  }

  /** The body of the 8-bit loops: the bit that `rm` lost to the carry is kept in `tmp`. */
  method SubtractIfFits8(rm: nat, tmp: nat, arg2: nat, ghost next: nat) returns (rest: nat, carry: bool)
    requires rm < 256 && arg2 < 256 && next == rm + 256 * (tmp % 2) && next < 2 * arg2
    ensures carry == (next >= arg2) && rest == if next >= arg2 then next - arg2 else next
  {
    var w := SubtractW(rm, arg2, true);
    carry := w.1;
    if tmp % 2 == 1 {
      carry := true;
    }
    rest := if carry then w.0 else rm;
  }

  /** _divU16_8 */
  method DivU16By8(dividend: seq<bool>, arg2: nat, firstCarry: bool, firstTmp: nat) returns (quotient: seq<bool>)
    requires |dividend| == 16 && 0 < arg2 < 256 && firstTmp < 256
    ensures |quotient| == 16 && BitsValue(quotient) == BitsValue(dividend) / arg2
  {
    var rm: nat, tmp: nat, carry := 0, firstTmp, firstCarry;
    var arg1 := dividend;
    ShiftedStart(dividend, firstCarry);
    DividesStart(dividend, arg2);
    arg1, carry := RotateLeft(arg1, carry).0, RotateLeft(arg1, carry).1;
    ghost var q: seq<bool> := [];
    for i := 0 to 16
      invariant |arg1| == 16 && Shifted(carry, arg1, dividend, i, firstCarry, q) && tmp < 256
      invariant Divides(dividend, i, q, arg2, rm)
    {
      ghost var next: nat := 2 * rm + Number(dividend[i]);
      ShiftedNext(carry, arg1, dividend, i, firstCarry, q, next >= arg2);
      DividesNext(dividend, i, q, arg2, rm);
      rm, carry := RotateNumber(rm, carry, 256).0, RotateNumber(rm, carry, 256).1;
      Lowest(tmp, carry);
      tmp := RotateNumber(tmp, carry, 256).0;
      rm, carry := SubtractIfFits8(rm, tmp, arg2, next);
      q := q + [carry];
      arg1, carry := RotateLeft(arg1, carry).0, RotateLeft(arg1, carry).1;
    }
    ShiftedAll(carry, arg1, dividend, firstCarry, q);
    DividesAll(dividend, q, arg2, rm);
    quotient := arg1;
  }

  /** In the other loops the shifted operand holds the digits to come and, below them, whatever the carry flag
      brought in. */
  predicate Pending(arg1: seq<bool>, dividend: seq<bool>, i: nat, junk: seq<bool>)
    requires i <= |dividend|
  {
    arg1 == dividend[i..] + junk
  }

  lemma PendingStart(dividend: seq<bool>)
    ensures Pending(dividend, dividend, 0, [])
  {
  }

  lemma PendingNext(arg1: seq<bool>, dividend: seq<bool>, i: nat, junk: seq<bool>, carry: bool)
    requires i < |dividend| && Pending(arg1, dividend, i, junk)
    ensures arg1 != []
    ensures var r := RotateLeft(arg1, carry);
            r.1 == dividend[i] && |r.0| == |arg1| && Pending(r.0, dividend, i + 1, junk + [carry])
  {
    TakeNext(dividend, i);
    assert arg1[1..] == dividend[i + 1..] + junk;
    assert arg1[1..] + [carry] == dividend[i + 1..] + (junk + [carry]);
  }

  /** _remU16_16 */
  method RemU16By16(dividend: seq<bool>, arg2: nat, firstCarry: bool) returns (rm: nat)
    requires |dividend| == 16 && 0 < arg2 < WORD
    ensures rm == BitsValue(dividend) % arg2
  {
    var carry := firstCarry;
    rm := 0;
    var arg1 := dividend;
    PendingStart(dividend);
    DividesStart(dividend, arg2);
    ghost var q: seq<bool>, junk: seq<bool> := [], [];
    for i := 0 to 16
      invariant Pending(arg1, dividend, i, junk) && Divides(dividend, i, q, arg2, rm)
    {
      PendingNext(arg1, dividend, i, junk, carry);
      junk := junk + [carry];
      DividesNext(dividend, i, q, arg2, rm);
      arg1, carry := RotateLeft(arg1, carry).0, RotateLeft(arg1, carry).1;
      rm := RotateNumber(rm, carry, WORD).0;
      rm, carry := SubtractIfFits(rm, arg2);
      q := q + [carry];
    }
    DividesAll(dividend, q, arg2, rm);
  }

  /** _remU16_8 */
  method RemU16By8(dividend: seq<bool>, arg2: nat, firstCarry: bool, firstTmp: nat) returns (rm: nat)
    requires |dividend| == 16 && 0 < arg2 < 256 && firstTmp < 256
    ensures rm == BitsValue(dividend) % arg2
  {
    var carry, tmp := firstCarry, firstTmp;
    rm := 0;
    var arg1 := dividend;
    PendingStart(dividend);
    DividesStart(dividend, arg2);
    ghost var q: seq<bool>, junk: seq<bool> := [], [];
    for i := 0 to 16
      invariant Pending(arg1, dividend, i, junk) && Divides(dividend, i, q, arg2, rm) && tmp < 256
    {
      PendingNext(arg1, dividend, i, junk, carry);
      junk := junk + [carry];
      DividesNext(dividend, i, q, arg2, rm);
      ghost var next: nat := 2 * rm + Number(dividend[i]);
      arg1, carry := RotateLeft(arg1, carry).0, RotateLeft(arg1, carry).1;
      rm, carry := RotateNumber(rm, carry, 256).0, RotateNumber(rm, carry, 256).1;
      Lowest(tmp, carry);
      tmp := RotateNumber(tmp, carry, 256).0;
      rm, carry := SubtractIfFits8(rm, tmp, arg2, next);
      q := q + [carry];
    }
    DividesAll(dividend, q, arg2, rm);
  }

  // ---------- multiplication ----------

  /** The product of the digits so far, above what the accumulator began with. */
  function Partial(factor: seq<bool>, i: nat, d: nat, first: nat): nat
    requires i <= |factor|
  {
    first * Power2(i) + BitsValue(factor[..i]) * d
  }

  lemma PartialNext(factor: seq<bool>, i: nat, d: nat, first: nat)
    requires i < |factor|
    ensures Partial(factor, i + 1, d, first) == 2 * Partial(factor, i, d, first) + Number(factor[i]) * d
  {
    TakeNext(factor, i);
    BitsValueLonger(factor[..i], factor[i]);
    var v := BitsValue(factor[..i]);
    assert (2 * v + Number(factor[i])) * d == 2 * (v * d) + Number(factor[i]) * d;
    assert first * (2 * Power2(i)) == 2 * (first * Power2(i));
  }

  lemma Doubled(total: nat, add: nat)
    ensures ((2 * (total % WORD)) % WORD + add) % WORD == (2 * total + add) % WORD
  {
  }

  lemma Shifts(n: nat)
    requires n < WORD
    ensures RotateNumber(n, false, WORD).0 == (2 * n) % WORD
  {
  }

  /** One turn of the loop: doubled, and increased where the digit is set. */
  lemma PartialStep(factor: seq<bool>, i: nat, d: nat, first: nat, before: nat, rval: nat)
    requires i < |factor| && before == Partial(factor, i, d, first) % WORD && rval < WORD
    requires rval == if factor[i] then ((2 * before) % WORD + d) % WORD else (2 * before) % WORD
    ensures rval == Partial(factor, i + 1, d, first) % WORD
  {
    PartialNext(factor, i, d, first);
    DoubledIs(Partial(factor, i, d, first), if factor[i] then d else 0, before, rval, Partial(factor, i + 1, d, first));
  }

  lemma DoubledIs(total: nat, add: nat, before: nat, rval: nat, next: nat)
    requires before == total % WORD && next == 2 * total + add && rval < WORD
    requires (rval == (2 * before) % WORD && add == 0) || rval == ((2 * before) % WORD + add) % WORD
    ensures rval == next % WORD
  {
    Doubled(total, add);
  }

  lemma PartialAll(factor: seq<bool>, d: nat, first: nat)
    requires |factor| == 16
    ensures Partial(factor, 16, d, first) % WORD == BitsValue(factor) * d % WORD
  {
    assert factor[..16] == factor;
    assert Power2(8) == 256 && Power2(16) == WORD;
    Multiple(first, BitsValue(factor) * d);
  }

  lemma Multiple(k: nat, n: nat)
    ensures (k * WORD + n) % WORD == n % WORD
  {
  }

  /** _mult16x16, from whatever the accumulator holds. */
  method Mult16By16(factor: seq<bool>, arg2: nat, first: nat) returns (rval: nat)
    requires |factor| == 16 && arg2 < WORD && first < WORD
    ensures rval == BitsValue(factor) * arg2 % WORD
  {
    var carry;
    rval := first;
    var arg1 := factor;
    PendingStart(factor);
    ghost var junk: seq<bool> := [];
    for i := 0 to 16
      invariant Pending(arg1, factor, i, junk)
      invariant rval == Partial(factor, i, arg2, first) % WORD
    {
      carry := false;
      ghost var before := rval;
      Shifts(rval);
      rval, carry := RotateNumber(rval, carry, WORD).0, RotateNumber(rval, carry, WORD).1;
      PendingNext(arg1, factor, i, junk, carry);
      junk := junk + [carry];
      arg1, carry := RotateLeft(arg1, carry).0, RotateLeft(arg1, carry).1;
      if carry {
        rval := (rval + arg2) % WORD;
      }
      PartialStep(factor, i, arg2, first, before, rval);
    }
    PartialAll(factor, arg2, first);
  }
}

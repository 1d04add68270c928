/** firmware/crc.c: the nibble-swapping CRC update, and the polynomial remainder it computes.

    The polynomial is G = x^16 + x^12 + x^5 + 1 (section 2 of ITU-T V.41), with initial value 0. A message is
    a string of bits, most significant bit of each byte first. */
module Crc {
  import opened Bits

  /** The 16 bits of CrcH and CrcL. */
  type Register = r: seq<bool> | |r| == 16 witness seq(16, _ => false)

  function Pair(high: Byte, low: Byte): Register {
    high.bits + low.bits
  }

  // ---------- the specification: one bit at a time ----------

  /** `m` at the three low terms of G, x^12, x^5 and 1, for up to four bits. */
  function Taps(m: Polynomial): Register
    requires |m| <= 4
  {
    Zeros(4 - |m|) + m + Zeros(7 - |m|) + m + Zeros(5 - |m|) + m
  }

  function G(): (g: Polynomial)
    ensures |g| == 17
  {
    [true] + Taps([true])
  }

  /** G is x^16 + x^12 + x^5 + 1: no other coefficient is set. */
  lemma GeneratorCoefficients()
    ensures forall k | 0 <= k <= 16 :: G()[k] <==> 16 - k in {16, 12, 5, 0}
  {
  }

  /** Take the message bit `b`: from m * x^16 mod G to (m * x + b) * x^16 mod G. */
  function AddBit(r: Register, b: bool): Register {
    if Differ(r[0], b) then Plus(r[1..] + [false], G()[1..]) else r[1..] + [false]
  }

  function AddBits(r: Register, bits: seq<bool>): Register {
    if bits == [] then r else AddBit(AddBits(r, bits[..|bits| - 1]), bits[|bits| - 1])
  }

  lemma {:induction false} AddBitsAppend(r: Register, a: seq<bool>, b: seq<bool>)
    ensures AddBits(r, a + b) == AddBits(AddBits(r, a), b)
    decreases |b|
  {
    if b == [] {
      assert a + b == a;
    } else {
      assert (a + b)[..|a + b| - 1] == a + b[..|b| - 1];
      AddBitsAppend(r, a, b[..|b| - 1]);
    }
  }

  // ---------- it is the remainder of a division ----------

  /** The product of `q` and G, by shifting and adding. */
  function TimesG(q: Polynomial): (p: Polynomial)
    ensures |p| == |q| + 16
  {
    if q == [] then Zeros(16)
    else
      var shifted := TimesG(q[..|q| - 1]) + [false];
      if q[|q| - 1] then Plus(shifted, Zeros(|q| - 1) + G()) else shifted
  }

  /** The quotient that the bit-at-a-time division finds. */
  function Quotient(bits: seq<bool>): (q: Polynomial)
    ensures |q| == |bits|
  {
    if bits == [] then []
    else
      var init := bits[..|bits| - 1];
      Quotient(init) + [Differ(AddBits(Zeros(16), init)[0], bits[|bits| - 1])]
  }

  /** Long division: the message times x^16 is the quotient times G plus the register, whose degree
      is below 16; so the register is the remainder modulo G. */
  lemma {:induction false} RegisterIsRemainder(bits: seq<bool>)
    ensures bits + Zeros(16) == Plus(TimesG(Quotient(bits)), Zeros(|bits|) + AddBits(Zeros(16), bits))
  {
    if bits == [] {
      PlusSelf(Zeros(16));
      assert bits + Zeros(16) == Zeros(16) == Zeros(0) + Zeros(16);
    } else {
      var n := |bits| - 1;
      var init, b := bits[..n], bits[n];
      RegisterIsRemainder(init);
      var q, r := Quotient(init), AddBits(Zeros(16), init);
      TimesGNext(q, Differ(r[0], b));
      DivisionStep(init, b, TimesG(q), r, Differ(r[0], b));
      assert Quotient(bits) == q + [Differ(r[0], b)];
      assert init + [b] == bits;
    }
  }

  lemma TimesGNext(q: Polynomial, t: bool)
    ensures TimesG(q + [t]) == if t then Plus(TimesG(q) + [false], Zeros(|q|) + G()) else TimesG(q) + [false]
  {
    assert (q + [t])[..|q|] == q;
  }

  /** One step of the long division: `t` is the new quotient digit, `s` the product so far and `w`
      the remainder so far. */
  lemma DivisionStep(init: seq<bool>, b: bool, s: Polynomial, w: Register, t: bool)
    requires |s| == |init| + 16 && t == Differ(w[0], b)
    requires init + Zeros(16) == Plus(s, Zeros(|init|) + w)
    ensures var n := |init|;
            var product := if t then Plus(s + [false], Zeros(n) + G()) else s + [false];
            init + [b] + Zeros(16) == Plus(product, Zeros(n + 1) + AddBit(w, b))
  {
    var n, rest := |init|, AddBit(w, b);
    var product := if t then Plus(s + [false], Zeros(n) + G()) else s + [false];
    var before, sum := init + Zeros(16), Plus(s, Zeros(n) + w);
    var after, new' := init + [b] + Zeros(16), Plus(product, Zeros(n + 1) + rest);
    forall k | 0 <= k < n + 17 ensures after[k] == new'[k] {
      if k < n + 16 { assert before[k] == sum[k]; }
      if k < n {
        assert after[k] == before[k];
      } else if k == n {
        assert G()[0];
      } else {
        assert rest[k - n - 1] == Differ((w[1..] + [false])[k - n - 1], t && G()[k - n]);
        assert product[k] == Differ((s + [false])[k], t && G()[k - n]);
      }
    }
  }

  // ---------- four bits at a time ----------

  lemma TapsShift(m: Polynomial)
    requires |m| < 4
    ensures Taps(m)[1..] + [false]
            == (Zeros(3 - |m|) + m + [false]) + (Zeros(6 - |m|) + m + [false]) + (Zeros(4 - |m|) + m + [false])
  {
    var k := |m|;
    assert Zeros(4 - k) == [false] + Zeros(3 - k);
    assert Zeros(7 - k) == [false] + Zeros(6 - k);
    assert Zeros(5 - k) == [false] + Zeros(4 - k);
  }

  /** While fewer than four bits have been taken, no tap reaches the top of the register. */
  lemma TapsStep(m: Polynomial, t: bool)
    requires |m| < 4
    ensures !Taps(m)[0]
    ensures Plus(Taps(m)[1..] + [false], Taps([t])) == Taps(m + [t])
  {
    var k := |m|;
    TapsShift(m);
    TapsOne(t);
    PlusParts(Zeros(3 - k) + m, Zeros(6 - k) + m, Zeros(4 - k) + m, t);
    TapsLonger(m, t);
  }

  lemma TapsOne(t: bool)
    ensures Taps([t]) == (Zeros(3) + [t]) + (Zeros(6) + [t]) + (Zeros(4) + [t])
  {
    Joined(Zeros(3), [t], Zeros(6), Zeros(4));
  }

  lemma TapsLonger(m: Polynomial, t: bool)
    requires |m| < 4
    ensures var k := |m|;
            Taps(m + [t]) == (Zeros(3 - k) + m + [t]) + (Zeros(6 - k) + m + [t]) + (Zeros(4 - k) + m + [t])
  {
    var k := |m|;
    Joined(Zeros(3 - k), m + [t], Zeros(6 - k), Zeros(4 - k));
    assert Zeros(3 - k) + (m + [t]) == Zeros(3 - k) + m + [t];
    assert Zeros(6 - k) + (m + [t]) == Zeros(6 - k) + m + [t];
    assert Zeros(4 - k) + (m + [t]) == Zeros(4 - k) + m + [t];
  }

  lemma Joined(a: Polynomial, m: Polynomial, b: Polynomial, c: Polynomial)
    ensures a + m + b + m + c + m == (a + m) + (b + m) + (c + m)
  {
  }

  lemma PlusParts(a: Polynomial, b: Polynomial, c: Polynomial, t: bool)
    ensures Plus((a + [false]) + (b + [false]) + (c + [false]),
                 (Zeros(|a|) + [t]) + (Zeros(|b|) + [t]) + (Zeros(|c|) + [t]))
            == (a + [t]) + (b + [t]) + (c + [t])
  {
    PlusConcat((a + [false]) + (b + [false]), (Zeros(|a|) + [t]) + (Zeros(|b|) + [t]),
               c + [false], Zeros(|c|) + [t]);
    PlusConcat(a + [false], Zeros(|a|) + [t], b + [false], Zeros(|b|) + [t]);
    PlusLast(a, t);
    PlusLast(b, t);
    PlusLast(c, t);
  }

  lemma PlusLast(a: Polynomial, t: bool)
    ensures Plus(a + [false], Zeros(|a|) + [t]) == a + [t]
  {
  }

  lemma AddBitTaps(r: Register, b: bool)
    ensures AddBit(r, b) == Plus(r[1..] + [false], Taps([Differ(r[0], b)]))
  {
    var t := Differ(r[0], b);
    if t {
      assert G()[1..] == Taps([t]);
    } else {
      assert Taps([t]) == Zeros(16);
      PlusZeros(r[1..] + [false]);
    }
  }

  /** Up to four message bits are added to the top of the register, which is shifted out and comes back
      at the low terms of G. */
  lemma {:induction false} AddFewBits(r: Register, n: seq<bool>)
    requires |n| <= 4
    ensures AddBits(r, n) == Plus(r[|n|..] + Zeros(|n|), Taps(Plus(r[..|n|], n)))
  {
    if n == [] {
      assert Taps(Plus(r[..0], n)) == Zeros(16);
      PlusZeros(r);
      assert r[0..] + Zeros(0) == r;
    } else {
      var k := |n| - 1;
      AddFewBits(r, n[..k]);
      FewBitsStep(r, n[..k], n[k], AddBits(r, n[..k]));
      assert n[..k] + [n[k]] == n;
    }
  }

  lemma PlusShifted(r: Register, k: nat, taps: Register, s: Register)
    requires k < 16 && s == Plus(r[k..] + Zeros(k), taps)
    ensures s[1..] + [false] == Plus(r[k + 1..] + Zeros(k + 1), taps[1..] + [false])
  {
    var a, b := s[1..] + [false], Plus(r[k + 1..] + Zeros(k + 1), taps[1..] + [false]);
    forall i | 0 <= i < 16 ensures a[i] == b[i] {
      if i < 15 { assert s[i + 1] == Differ((r[k..] + Zeros(k))[i + 1], taps[i + 1]); }
    }
    assert a == b;
  }

  lemma FewBitsStep(r: Register, n: seq<bool>, b: bool, s: Register)
    requires |n| < 4
    requires s == Plus(r[|n|..] + Zeros(|n|), Taps(Plus(r[..|n|], n)))
    ensures AddBit(s, b) == Plus(r[|n| + 1..] + Zeros(|n| + 1), Taps(Plus(r[..|n| + 1], n + [b])))
  {
    var k, m := |n|, Plus(r[..|n|], n);
    var t := Differ(r[k], b);
    TapsStep(m, t);
    assert s[0] == r[k];
    AddBitTaps(s, b);
    var low := r[k + 1..] + Zeros(k + 1);
    PlusShifted(r, k, Taps(m), s);
    PlusAssociative(low, Taps(m)[1..] + [false], Taps([t]));
    assert Plus(r[..k + 1], n + [b]) == m + [t];
  }

  // ---------- a byte at a time ----------

  function AddByte(r: Register, b: Byte): Register {
    AddBits(r, b.bits)
  }

  function AddBytes(r: Register, s: seq<Byte>): Register {
    if s == [] then r else AddByte(AddBytes(r, s[..|s| - 1]), s[|s| - 1])
  }

  /** The CRC of a message, initial value 0. */
  function CrcOf(s: seq<Byte>): Register {
    AddBytes(Zeros(16), s)
  }

  /** The register after eight bits, by nibbles: `n1` and `n2` are the nibbles that are shifted out. */
  lemma AddByteByNibbles(r: Register, b: Octet, n1: seq<bool>, n2: seq<bool>)
    requires n1 == Plus(r[..4], b[..4]) && n2 == Plus(Plus(r[4..8], n1), b[4..])
    ensures AddBits(r, b)[..8] == Plus(Plus(r[8..], Zeros(3) + n1 + Zeros(1)), n2 + Zeros(3) + n2[..1])
    ensures AddBits(r, b)[8..] == Plus(n1 + Zeros(4), n2[1..] + Zeros(1) + n2)
  {
    assert b == b[..4] + b[4..];
    AddBitsAppend(r, b[..4], b[4..]);
    AddFewBits(r, b[..4]);
    var half := AddBits(r, b[..4]);
    HalfParts(r, n1, half);
    AddFewBits(half, b[4..]);
    var low := half[4..] + Zeros(4);
    TapsParts(n2);
    PlusConcat(low[..8], n2 + Zeros(3) + n2[..1], low[8..], n2[1..] + Zeros(1) + n2);
    assert low == low[..8] + low[8..];
  }

  /** The register after four bits, in parts. */
  lemma HalfParts(r: Register, n1: seq<bool>, half: Register)
    requires |n1| == 4 && half == Plus(r[4..] + Zeros(4), Taps(n1))
    ensures half[..4] == Plus(r[4..8], n1)
    ensures (half[4..] + Zeros(4))[..8] == Plus(r[8..], Zeros(3) + n1 + Zeros(1))
    ensures (half[4..] + Zeros(4))[8..] == n1 + Zeros(4)
  {
    PlusZeros(n1);
  }

  lemma TapsParts(n: seq<bool>)
    requires |n| == 4
    ensures Taps(n) == (n + Zeros(3) + n[..1]) + (n[1..] + Zeros(1) + n)
  {
  }

  // ---------- the code ----------

  const F0: Octet := Ones(4) + Zeros(4)
  const X0F: Octet := Zeros(4) + Ones(4)
  const FE: Octet := Ones(7) + Zeros(1)
  const X80: Octet := Ones(1) + Zeros(7)
  const E0: Octet := Ones(3) + Zeros(5)

  /** SWAPF. */
  function Swap(x: Octet): Octet {
    Or(And(ShiftLeft(x, 4), F0), And(ShiftRight(x, 4), X0F))
  }

  lemma SwapsNibbles(x: Octet)
    ensures Swap(x) == x[4..] + x[..4]
  {
  }

  lemma HighNibble(x: Octet)
    ensures And(F0, x) == And(x, F0) == x[..4] + Zeros(4)
  {
  }

  lemma Rotates(x: Octet)
    ensures Or(And(ShiftLeft(x, 1), FE), ShiftRight(And(X80, x), 7)) == x[1..] + x[..1]
  {
  }

  lemma HighThree(x: Octet)
    ensures And(x, E0) == x[..3] + Zeros(5)
  {
  }

  /** The index of the nibble table: both nibbles that are shifted out. */
  lemma Index(n1: seq<bool>, m: seq<bool>)
    requires |n1| == |m| == 4
    ensures Plus(n1 + Zeros(4), m + n1) == Plus(m, n1) + n1
  {
    PlusConcat(n1, m, Zeros(4), n1);
    PlusCommutative(n1, m);
    PlusZeros(n1);
  }

  lemma NewHigh(n1: seq<bool>, n2: seq<bool>, oldL: Octet, rotated: Octet)
    requires |n1| == |n2| == 4 && rotated == n2[1..] + n1 + n2[..1]
    ensures Plus(rotated[..3] + Zeros(5), Plus(rotated, Plus(n2 + Zeros(4), oldL)))
            == Plus(Plus(oldL, Zeros(3) + n1 + Zeros(1)), n2 + Zeros(3) + n2[..1])
  {
    var x := Plus(rotated[..3] + Zeros(5), Plus(rotated, Plus(n2 + Zeros(4), oldL)));
    var y := Plus(Plus(oldL, Zeros(3) + n1 + Zeros(1)), n2 + Zeros(3) + n2[..1]);
    forall i | 0 <= i < 8 ensures x[i] == y[i] {
      if i < 3 {} else if i == 3 {} else if i < 7 {} else {}
    }
  }

  lemma NewLow(n1: seq<bool>, n2: seq<bool>, rotated: Octet)
    requires |n1| == |n2| == 4 && rotated == n2[1..] + n1 + n2[..1]
    ensures Plus(rotated[..3] + Zeros(5), n1 + n2) == Plus(n1 + Zeros(4), n2[1..] + Zeros(1) + n2)
  {
    var x := Plus(rotated[..3] + Zeros(5), n1 + n2);
    var y := Plus(n1 + Zeros(4), n2[1..] + Zeros(1) + n2);
    forall i | 0 <= i < 8 ensures x[i] == y[i] {
      if i < 3 {} else if i == 3 {} else {}
    }
  }

  /** Crc_AddCrc, the version without assembler. */
  method AddCrc(byte: Byte, oldH: Byte, oldL: Byte) returns (crcH: Byte, crcL: Byte)
    ensures Pair(crcH, crcL) == AddByte(Pair(oldH, oldL), byte)
  {
    var high, low := oldH.bits, oldL.bits;
    var work := byte.bits;
    work := Plus(work, high);
    var index := work;
    ghost var n1, m := work[..4], work[4..];
    ghost var n2 := Plus(m, n1);
    HighNibble(work);
    SwapsNibbles(work);
    Index(n1, m);
    work := And(F0, work);
    index := Swap(index);
    index := Plus(work, index);
    assert index == n2 + n1;

    work := index;
    HighNibble(work);
    work := And(work, F0);
    work := Plus(work, low);
    high := work;
    assert high == Plus(n2 + Zeros(4), low);

    Rotates(index);
    var temp := And(X80, index);
    work := ShiftLeft(index, 1);
    temp := ShiftRight(temp, 7);
    work := And(work, FE);
    work := Or(work, temp);
    ghost var rotated := work;
    assert rotated == n2[1..] + n1 + n2[..1];

    high := Plus(work, high);
    HighThree(work);
    work := And(work, E0);
    high := Plus(work, high);

    SwapsNibbles(index);
    index := Swap(index);
    work := Plus(work, index);
    low := work;
    crcH, crcL := Byte(high), Byte(low);

    NewHigh(n1, n2, oldL.bits, rotated);
    NewLow(n1, n2, rotated);
    ByNibbles(byte.bits, oldH.bits, oldL.bits, n1, m, n2);
    ghost var r := AddByte(Pair(oldH, oldL), byte);
    assert high + low == r[..8] + r[8..] == r;
  }

  lemma ByNibbles(byte: Octet, oldH: Octet, oldL: Octet, n1: seq<bool>, m: seq<bool>, n2: seq<bool>)
    requires n1 == Plus(byte, oldH)[..4] && m == Plus(byte, oldH)[4..] && n2 == Plus(m, n1)
    ensures var r := AddBits(oldH + oldL, byte);
            && r[..8] == Plus(Plus(oldL, Zeros(3) + n1 + Zeros(1)), n2 + Zeros(3) + n2[..1])
            && r[8..] == Plus(n1 + Zeros(4), n2[1..] + Zeros(1) + n2)
  {
    var r := oldH + oldL;
    assert r[..4] == oldH[..4] && r[4..8] == oldH[4..] && r[8..] == oldL;
    PlusCommutative(oldH[..4], byte[..4]);
    assert n1 == Plus(byte[..4], oldH[..4]);
    assert m == Plus(byte[4..], oldH[4..]);
    PlusCommutative(byte[4..], oldH[4..]);
    PlusAssociative(oldH[4..], byte[4..], n1);
    PlusCommutative(byte[4..], n1);
    PlusAssociative(oldH[4..], n1, byte[4..]);
    AddByteByNibbles(r, byte, n1, n2);
  }

  /** Crc_NewCrc: the bootloader and the firmware start with 0. */
  method NewCrc() returns (crcH: Byte, crcL: Byte)
    ensures Pair(crcH, crcL) == CrcOf([])
  {
    crcH, crcL := Byte(Zeros(8)), Byte(Zeros(8));
  }

  /** Crc_BuildCrc: the CRC with all register bits set at the beginning. */
  method BuildCrc(data: seq<Byte>) returns (crcH: Byte, crcL: Byte)
    requires |data| < 256
    ensures Pair(crcH, crcL) == AddBytes(Ones(16), data)
  {
    crcH, crcL := Byte(Ones(8)), Byte(Ones(8));
    assert Pair(crcH, crcL) == Ones(16);
    for i := 0 to |data|
      invariant Pair(crcH, crcL) == AddBytes(Ones(16), data[..i])
    {
      assert data[..i + 1][..i] == data[..i];
      crcH, crcL := AddCrc(data[i], crcH, crcL);
    }
    assert data[..|data|] == data;
  }
}

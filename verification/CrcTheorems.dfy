/** What the CRC guarantees for a frame: appending it gives residue 0, nothing else does, and every
    burst of at most 16 wrong bits is noticed, at every length and position. */
module CrcTheorems {
  import opened Bits
  import opened Crc

  // ---------- backwards through the register ----------

  /** If two registers and two messages of at most 16 bits end in the same register, the registers
      differed exactly where the messages differ, in the top bits. */
  lemma {:induction false} EqualEnds(s: Register, t: Register, x: seq<bool>, y: seq<bool>)
    requires |x| == |y| <= 16
    requires AddBits(s, x) == AddBits(t, y)
    ensures Plus(s, t) == Plus(x, y) + Zeros(16 - |x|)
    decreases |x|
  {
    if x == [] {
      PlusSelf(s);
      assert Plus(x, y) + Zeros(16) == Zeros(16);
    } else {
      SplitFirst(s, x);
      SplitFirst(t, y);
      EqualEnds(AddBit(s, x[0]), AddBit(t, y[0]), x[1..], y[1..]);
      StepBack(s, t, x, y);
    }
  }

  lemma SplitFirst(r: Register, x: seq<bool>)
    requires x != []
    ensures AddBits(r, x) == AddBits(AddBit(r, x[0]), x[1..])
  {
    assert x == [x[0]] + x[1..];
    AddBitsAppend(r, [x[0]], x[1..]);
    OneBit(r, x[0]);
  }

  /** The register bits before a step, from those after it. The constant term of G is 1, so the last bit
      of the new register tells whether G was subtracted. */
  lemma StepBack(s: Register, t: Register, x: seq<bool>, y: seq<bool>)
    requires 0 < |x| == |y| <= 16
    requires Plus(AddBit(s, x[0]), AddBit(t, y[0])) == Plus(x[1..], y[1..]) + Zeros(17 - |x|)
    ensures Plus(s, t) == Plus(x, y) + Zeros(16 - |x|)
  {
    var s', t' := AddBit(s, x[0]), AddBit(t, y[0]);
    var before, after := Plus(x, y) + Zeros(16 - |x|), Plus(x[1..], y[1..]) + Zeros(17 - |x|);
    assert G()[1..][15];
    assert !after[15];
    assert s'[15] == Differ(s[0], x[0]) && t'[15] == Differ(t[0], y[0]);
    assert Plus(s', t')[15] == Differ(s'[15], t'[15]);
    forall i | 0 <= i < 16 ensures Plus(s, t)[i] == before[i] {
      if i > 0 {
        assert Plus(s', t')[i - 1] == Differ(s[i], t[i]);
        assert after[i - 1] == before[i];
      }
    }
  }

  // ---------- error detection ----------

  /** The step of the register is injective, so a difference never disappears by itself. */
  lemma {:induction false} DifferenceStays(s: Register, t: Register, bits: seq<bool>)
    requires s != t
    ensures AddBits(s, bits) != AddBits(t, bits)
    decreases |bits|
  {
    if bits != [] {
      var n := |bits| - 1;
      DifferenceStays(s, t, bits[..n]);
      if AddBits(s, bits) == AddBits(t, bits) {
        OneBitInjective(AddBits(s, bits[..n]), AddBits(t, bits[..n]), bits[n]);
      }
    }
  }

  lemma OneBit(r: Register, b: bool)
    ensures AddBits(r, [b]) == AddBit(r, b)
  {
    assert [b][..0] == [];
  }

  lemma OneBitInjective(u: Register, v: Register, b: bool)
    requires AddBit(u, b) == AddBit(v, b)
    ensures u == v
  {
    OneBit(u, b);
    OneBit(v, b);
    EqualEnds(u, v, [b], [b]);
    PlusSelf([b]);
    assert |u| == 16 && Plus(u, v) == Zeros(1) + Zeros(15) == Zeros(16);
    PlusIsZero(u, v);
  }

  /** Messages of equal length that differ only within 16 consecutive bits have different CRCs. */
  lemma BurstDetected(before: seq<bool>, x: seq<bool>, y: seq<bool>, after: seq<bool>)
    requires |x| == |y| <= 16 && x != y
    ensures AddBits(Zeros(16), before + x + after) != AddBits(Zeros(16), before + y + after)
  {
    var z := Zeros(16);
    var r := AddBits(z, before);
    AddBitsAppend(z, before + x, after);
    AddBitsAppend(z, before + y, after);
    AddBitsAppend(z, before, x);
    AddBitsAppend(z, before, y);
    if AddBits(r, x) == AddBits(r, y) {
      EqualEnds(r, r, x, y);
      PlusSelf(r);
      assert |r| == 16 && Plus(x, y) + Zeros(16 - |x|) == Zeros(16);
      assert Plus(x, y) == (Plus(x, y) + Zeros(16 - |x|))[..|x|];
      assert Zeros(16)[..|x|] == Zeros(|x|);
      PlusIsZero(x, y);
    } else {
      DifferenceStays(AddBits(r, x), AddBits(r, y), after);
    }
  }

  function Flat(s: seq<Byte>): seq<bool> {
    if s == [] then [] else Flat(s[..|s| - 1]) + s[|s| - 1].bits
  }

  lemma {:induction false} FlatAppend(a: seq<Byte>, b: seq<Byte>)
    ensures Flat(a + b) == Flat(a) + Flat(b)
    decreases |b|
  {
    if b == [] {
      assert a + b == a;
    } else {
      assert (a + b)[..|a + b| - 1] == a + b[..|b| - 1];
      FlatAppend(a, b[..|b| - 1]);
    }
  }

  lemma {:induction false} FlatInjective(a: seq<Byte>, b: seq<Byte>)
    requires |a| == |b| && Flat(a) == Flat(b)
    ensures a == b
    decreases |a|
  {
    if a != [] {
      var n := |a| - 1;
      FlatLength(a[..n]);
      FlatLength(b[..n]);
      var m := 8 * n;
      assert Flat(a)[..m] == Flat(a[..n]) && Flat(b)[..m] == Flat(b[..n]);
      assert Flat(a)[m..] == a[n].bits && Flat(b)[m..] == b[n].bits;
      FlatInjective(a[..n], b[..n]);
    }
  }

  lemma {:induction false} FlatLength(a: seq<Byte>)
    ensures |Flat(a)| == 8 * |a|
    decreases |a|
  {
    if a != [] { FlatLength(a[..|a| - 1]); }
  }

  /** The register after whole bytes is the register after their bits. */
  lemma {:induction false} AddBytesIsAddBits(r: Register, s: seq<Byte>)
    ensures AddBytes(r, s) == AddBits(r, Flat(s))
    decreases |s|
  {
    if s != [] {
      AddBytesIsAddBits(r, s[..|s| - 1]);
      AddBitsAppend(r, Flat(s[..|s| - 1]), s[|s| - 1].bits);
    }
  }

  /** The CRC of a message is the remainder of its polynomial times x^16 modulo G. */
  lemma CrcIsRemainder(s: seq<Byte>)
    ensures exists q: Polynomial | |q| == |Flat(s)| ::
              Flat(s) + Zeros(16) == Plus(TimesG(q), Zeros(|Flat(s)|) + CrcOf(s))
  {
    AddBytesIsAddBits(Zeros(16), s);
    RegisterIsRemainder(Flat(s));
    assert |Quotient(Flat(s))| == |Flat(s)|;
  }

  lemma ThreeParts(before: seq<Byte>, z: seq<Byte>, after: seq<Byte>)
    ensures CrcOf(before + z + after) == AddBits(Zeros(16), Flat(before) + Flat(z) + Flat(after))
  {
    AddBytesIsAddBits(Zeros(16), before + z + after);
    FlatAppend(before + z, after);
    FlatAppend(before, z);
  }

  /** A frame with residue 0 in which at most two adjacent bytes are changed has another residue. */
  lemma AdjacentBytesDetected(before: seq<Byte>, x: seq<Byte>, y: seq<Byte>, after: seq<Byte>)
    requires |x| == |y| <= 2 && x != y
    requires CrcOf(before + x + after) == Zeros(16)
    ensures CrcOf(before + y + after) != Zeros(16)
  {
    ThreeParts(before, x, after);
    ThreeParts(before, y, after);
    FlatLength(x);
    FlatLength(y);
    if Flat(x) == Flat(y) { FlatInjective(x, y); }
    BurstDetected(Flat(before), Flat(x), Flat(y), Flat(after));
  }

  // ---------- the residue of a frame ----------

  /** A register that takes its own top bits only shifts. */
  lemma TakeOwnBits(r: Register)
    ensures AddBits(r, r[..4]) == r[4..] + Zeros(4)
  {
    AddFewBits(r, r[..4]);
    PlusSelf(r[..4]);
    assert Taps(Zeros(4)) == Zeros(16);
    PlusZeros(r[4..] + Zeros(4));
  }

  lemma TakeOwnWord(r: Register)
    ensures AddBits(r, r) == Zeros(16)
  {
    var a, b, c := r[4..] + Zeros(4), r[8..] + Zeros(8), r[12..] + Zeros(12);
    TakeOwnBits(r);
    TakeOwnBits(a);
    TakeOwnBits(b);
    TakeOwnBits(c);
    assert a[..4] == r[4..8] && a[4..] + Zeros(4) == b;
    assert b[..4] == r[8..12] && b[4..] + Zeros(4) == c;
    assert c[..4] == r[12..] && c[4..] + Zeros(4) == Zeros(16);
    AddBitsAppend(r, r[..4], r[4..8]);
    AddBitsAppend(r, r[..4] + r[4..8], r[8..12]);
    AddBitsAppend(r, r[..4] + r[4..8] + r[8..12], r[12..]);
    assert r == r[..4] + r[4..8] + r[8..12] + r[12..];
  }

  /** Sixteen bits bring the register to 0 exactly when they are the register. */
  lemma ResidueZero(r: Register, w: seq<bool>)
    requires |w| == 16
    ensures AddBits(r, w) == Zeros(16) <==> w == r
  {
    TakeOwnWord(r);
    if AddBits(r, w) == Zeros(16) {
      EqualEnds(r, r, w, r);
      PlusSelf(r);
      assert Plus(w, r) + Zeros(0) == Plus(w, r);
      PlusIsZero(w, r);
    }
  }

  function High(r: Register): Byte {
    Byte(r[..8])
  }

  function Low(r: Register): Byte {
    Byte(r[8..])
  }

  lemma {:induction false} AddBytesAppend(r: Register, a: seq<Byte>, b: seq<Byte>)
    ensures AddBytes(r, a + b) == AddBytes(AddBytes(r, a), b)
    decreases |b|
  {
    if b == [] {
      assert a + b == a;
    } else {
      assert (a + b)[..|a + b| - 1] == a + b[..|b| - 1];
      AddBytesAppend(r, a, b[..|b| - 1]);
    }
  }

  lemma TwoBytes(r: Register, x: Byte, y: Byte)
    ensures AddBytes(r, [x, y]) == AddByte(AddByte(r, x), y) == AddBits(r, Pair(x, y))
  {
    assert [x, y][..1] == [x] && [x][..0] == [];
    assert AddBytes(r, [x]) == AddByte(AddBytes(r, []), x);
    AddBitsAppend(r, x.bits, y.bits);
  }

  /** Two bytes bring the register to 0 exactly when they are its high byte and then its low byte. */
  lemma BytesResidueZero(r: Register, x: Byte, y: Byte)
    ensures AddByte(AddByte(r, x), y) == Zeros(16) <==> x == High(r) && y == Low(r)
  {
    TwoBytes(r, x, y);
    ResidueZero(r, Pair(x, y));
    assert r == Pair(High(r), Low(r));
    assert Pair(x, y)[..8] == x.bits && Pair(x, y)[8..] == y.bits;
  }

  lemma PairHalves(high: Byte, low: Byte)
    ensures High(Pair(high, low)) == high && Low(Pair(high, low)) == low
    ensures Pair(high, low) == Zeros(16) <==> high == Byte(Zeros(8)) && low == Byte(Zeros(8))
  {
    assert Pair(high, low)[..8] == high.bits && Pair(high, low)[8..] == low.bits;
    assert Zeros(16)[..8] == Zeros(8) && Zeros(16)[8..] == Zeros(8) && Zeros(8) + Zeros(8) == Zeros(16);
  }

  /** The residue of a message and two bytes is 0 exactly when they are its CRC, high byte first. */
  lemma FrameResidue(s: seq<Byte>, x: Byte, y: Byte)
    ensures CrcOf(s + [x, y]) == Zeros(16) <==> x == High(CrcOf(s)) && y == Low(CrcOf(s))
  {
    AddBytesAppend(Zeros(16), s, [x, y]);
    TwoBytes(CrcOf(s), x, y);
    BytesResidueZero(CrcOf(s), x, y);
  }
}

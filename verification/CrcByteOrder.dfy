/** What the CRC test of the client detects when the two CRC bytes come low byte first, as the bootloader sends
    them: the register then takes them in the opposite order, so a burst in the frame can be longer in it. */
module CrcByteOrder {
  import opened Bits
  import opened Crc
  import opened CrcTheorems
  import opened Framing

  /** The nibbles that a byte shifts out of a register. */
  predicate ShiftsOut(r: Register, b: Octet, n1: seq<bool>, n2: seq<bool>) {
    n1 == Plus(r[..4], b[..4]) && n2 == Plus(Plus(r[4..8], n1), b[4..])
  }

  /** The high half of the register after one byte, bit by bit. */
  lemma HighBits(r: Register, b: Octet, n1: seq<bool>, n2: seq<bool>, s: Octet)
    requires ShiftsOut(r, b, n1, n2) && s == AddBits(r, b)[..8]
    ensures s[0] == Differ(r[8], n2[0]) && s[1] == Differ(r[9], n2[1]) && s[2] == Differ(r[10], n2[2])
    ensures s[3] == Differ(Differ(r[11], n1[0]), n2[3])
    ensures s[7] == Differ(r[15], n2[0])
    ensures s[4] == Differ(r[12], n1[1]) && s[5] == Differ(r[13], n1[2]) && s[6] == Differ(r[14], n1[3])
  {
    AddByteByNibbles(r, b, n1, n2);
  }

  lemma LowBits(r: Register, b: Octet, n1: seq<bool>, n2: seq<bool>, s: Octet)
    requires ShiftsOut(r, b, n1, n2) && s == AddBits(r, b)[8..]
    ensures s[0] == Differ(n1[0], n2[1]) && s[1] == Differ(n1[1], n2[2]) && s[2] == Differ(n1[2], n2[3])
    ensures s[3] == n1[3] && s[4..] == n2
  {
    AddByteByNibbles(r, b, n1, n2);
  }

  const X89: Octet := [true, false, false, false, true, false, false, true]
  const XA1: Octet := [true, false, true, false, false, false, false, true]

  /** The high half is the same for two bytes exactly if the bits at four places agree in pairs. */
  lemma SameHighBits(r: Register, x: Octet, y: Octet, n1: seq<bool>, n2: seq<bool>, m1: seq<bool>, m2: seq<bool>)
    requires ShiftsOut(r, x, n1, n2) && ShiftsOut(r, y, m1, m2)
    ensures AddBits(r, x)[..8] == AddBits(r, y)[..8]
            <==> n1[1] == m1[1] && n1[2] == m1[2] && n1[3] == m1[3] && n2[0] == m2[0] && n2[1] == m2[1]
                 && n2[2] == m2[2] && Differ(n1[0], m1[0]) == Differ(n2[3], m2[3])
  {
    var s, t := AddBits(r, x)[..8], AddBits(r, y)[..8];
    HighBits(r, x, n1, n2, s);
    HighBits(r, y, m1, m2, t);
    OctetsEqual(s, t);
  }

  lemma OctetsEqual(s: Octet, t: Octet)
    ensures s == t
            <==> s[0] == t[0] && s[1] == t[1] && s[2] == t[2] && s[3] == t[3] && s[4] == t[4] && s[5] == t[5]
                 && s[6] == t[6] && s[7] == t[7]
  {
  }

  lemma DifferentNibbles(r: Register, x: Octet, y: Octet, n1: seq<bool>, n2: seq<bool>, m1: seq<bool>, m2: seq<bool>)
    requires ShiftsOut(r, x, n1, n2) && ShiftsOut(r, y, m1, m2)
    ensures forall i | 0 <= i < 4 :: Plus(x, y)[i] == Differ(n1[i], m1[i])
    ensures forall i | 0 <= i < 4 :: Plus(x, y)[4 + i] == Differ(Differ(n1[i], m1[i]), Differ(n2[i], m2[i]))
  {
  }

  /** Two different bytes leave the same high half exactly if they differ by 0x89. */
  lemma SameHigh(r: Register, x: Octet, y: Octet)
    ensures AddBits(r, x)[..8] == AddBits(r, y)[..8] <==> x == y || Plus(x, y) == X89
  {
    var n1, m1 := Plus(r[..4], x[..4]), Plus(r[..4], y[..4]);
    var n2, m2 := Plus(Plus(r[4..8], n1), x[4..]), Plus(Plus(r[4..8], m1), y[4..]);
    SameHighBits(r, x, y, n1, n2, m1, m2);
    DifferentNibbles(r, x, y, n1, n2, m1, m2);
    OctetsEqual(Plus(x, y), X89);
    OctetsEqual(Plus(x, y), Zeros(8));
    PlusSelf(x);
    if Plus(x, y) == Zeros(8) { PlusIsZero(x, y); }
  }

  /** Their low halves then differ by 0xa1. */
  lemma LowDiffers(r: Register, x: Octet, y: Octet)
    requires Plus(x, y) == X89
    ensures Plus(AddBits(r, x)[8..], AddBits(r, y)[8..]) == XA1
  {
    var n1, m1 := Plus(r[..4], x[..4]), Plus(r[..4], y[..4]);
    var n2, m2 := Plus(Plus(r[4..8], n1), x[4..]), Plus(Plus(r[4..8], m1), y[4..]);
    var s, t := AddBits(r, x)[8..], AddBits(r, y)[8..];
    LowBits(r, x, n1, n2, s);
    LowBits(r, y, m1, m2, t);
    DifferentNibbles(r, x, y, n1, n2, m1, m2);
    OctetsEqual(Plus(s, t), XA1);
  }

  lemma PlusCancel(a: Octet, b: Octet, c: Octet)
    ensures Plus(a, b) == Plus(a, c) <==> b == c
  {
    if Plus(a, b) == Plus(a, c) {
      forall i | 0 <= i < 8 ensures b[i] == c[i] {
        assert Plus(a, b)[i] == Plus(a, c)[i];
      }
    }
  }

  /** Payload and CRC in the order in which the register takes them. */
  function Swapped(data: seq<Byte>): (s: seq<Byte>)
    requires |data| >= 2
    ensures |s| == |data|
  {
    data[..|data| - 2] + [data[|data| - 1], data[|data| - 2]]
  }

  lemma SwappedMatches(data: seq<Byte>)
    requires |data| >= 2
    ensures CrcMatches(data, true) <==> CrcOf(Swapped(data)) == Zeros(16)
  {
    var n := |data| - 2;
    AddBytesAppend(Zeros(16), data[..n], [data[n + 1], data[n]]);
    TwoBytes(CrcOf(data[..n]), data[n + 1], data[n]);
  }

  /** With both CRC bytes behind it the change stays where it is. */
  lemma SwappedBehind(before: seq<Byte>, x: seq<Byte>, after: seq<Byte>)
    requires |after| >= 2
    ensures Swapped(before + x + after) == before + x + Swapped(after)
  {
  }

  lemma BurstBefore(before: seq<Byte>, x: seq<Byte>, y: seq<Byte>, after: seq<Byte>)
    requires |x| == |y| <= 2 && x != y && |after| >= 2
    requires CrcMatches(before + x + after, true)
    ensures !CrcMatches(before + y + after, true)
  {
    SwappedBehind(before, x, after);
    SwappedBehind(before, y, after);
    SwappedMatches(before + x + after);
    SwappedMatches(before + y + after);
    AdjacentBytesDetected(before, x, y, Swapped(after));
  }

  /** One changed byte, wherever it is, is noticed. */
  lemma OneByteDetected(before: seq<Byte>, x: Byte, y: Byte, after: seq<Byte>)
    requires x != y && |before| + |after| >= 1
    requires CrcMatches(before + [x] + after, true)
    ensures !CrcMatches(before + [y] + after, true)
  {
    if |after| >= 2 {
      BurstBefore(before, [x], [y], after);
    } else {
      SwappedMatches(before + [x] + after);
      SwappedMatches(before + [y] + after);
      var front := if |after| == 1 then before + after else before[..|before| - 1];
      var back := if |after| == 1 then [] else before[|before| - 1..];
      assert Swapped(before + [x] + after) == front + [x] + back;
      assert Swapped(before + [y] + after) == front + [y] + back;
      AdjacentBytesDetected(front, [x], [y], back);
    }
  }

  /** The last byte of the payload changed by 0x89 and the first byte of the CRC by 0xa1. */
  predicate Hidden(x: seq<Byte>, y: seq<Byte>, after: seq<Byte>) {
    |x| == |y| == 2 && |after| == 1 && Plus(x[0].bits, y[0].bits) == X89 && Plus(x[1].bits, y[1].bits) == XA1
  }

  /** Of all changes of two adjacent bytes exactly this one goes unnoticed, in every frame. */
  lemma TwoBytesDetected(before: seq<Byte>, x: seq<Byte>, y: seq<Byte>, after: seq<Byte>)
    requires |x| == |y| == 2 && x != y
    requires CrcMatches(before + x + after, true)
    ensures CrcMatches(before + y + after, true) <==> Hidden(x, y, after)
  {
    if |after| >= 2 {
      BurstBefore(before, x, y, after);
    } else if |after| == 1 {
      assert after == [after[0]];
      AcrossBoundary(before, x, y, after[0]);
    } else {
      assert x == [x[0], x[1]] && y == [y[0], y[1]];
      assert before + x + after == before + x && before + y + after == before + y;
      InTrailer(before, x[0], x[1], y[0], y[1]);
    }
  }

  lemma InTrailer(before: seq<Byte>, a: Byte, b: Byte, c: Byte, d: Byte)
    requires (a, b) != (c, d)
    requires CrcMatches(before + [a, b], true)
    ensures !CrcMatches(before + [c, d], true)
  {
    SwappedMatches(before + [a, b]);
    SwappedMatches(before + [c, d]);
    FrameResidue(before, b, a);
    FrameResidue(before, d, c);
    assert Swapped(before + [a, b]) == before + [b, a];
    assert Swapped(before + [c, d]) == before + [d, c];
  }

  lemma MatchesTrailer(before: seq<Byte>, x: seq<Byte>, high: Byte)
    requires |x| == 2
    ensures var s := AddByte(CrcOf(before), x[0]);
            CrcMatches(before + x + [high], true) <==> high.bits == s[..8] && x[1].bits == s[8..]
  {
    var data := before + x + [high];
    assert data[..|data| - 2] == before + [x[0]];
    assert (before + [x[0]])[..|before|] == before;
    BytesResidueZero(AddByte(CrcOf(before), x[0]), high, x[1]);
  }

  lemma AcrossBoundary(before: seq<Byte>, x: seq<Byte>, y: seq<Byte>, high: Byte)
    requires |x| == |y| == 2 && x != y
    requires CrcMatches(before + x + [high], true)
    ensures CrcMatches(before + y + [high], true) <==> Hidden(x, y, [high])
  {
    var r := CrcOf(before);
    var t := AddByte(r, y[0]);
    MatchesTrailer(before, x, high);
    MatchesTrailer(before, y, high);
    SameHigh(r, x[0].bits, y[0].bits);
    if x[0] != y[0] && Plus(x[0].bits, y[0].bits) == X89 {
      LowDiffers(r, x[0].bits, y[0].bits);
      PlusCancel(x[1].bits, y[1].bits, t[8..]);
    } else if x[0] == y[0] {
      assert x == [x[0], x[1]] && y == [y[0], y[1]];
      PlusSelf(x[0].bits);
      assert !Zeros(8)[0] && X89[0];
    }
  }
}

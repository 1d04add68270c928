/** Bytes and polynomials over GF(2) as lists of bits, the highest first. */
module Bits {
  type Polynomial = seq<bool>

  type Octet = b: seq<bool> | |b| == 8 witness seq(8, _ => false)

  /** An uns8. */
  datatype Byte = Byte(bits: Octet)

  /** Exclusive or. */
  function Differ(x: bool, y: bool): bool {
    if x then !y else y
  }

  function Zeros(n: nat): (z: Polynomial)
    ensures |z| == n
  {
    seq(n, _ => false)
  }

  function Ones(n: nat): (o: Polynomial)
    ensures |o| == n
  {
    seq(n, _ => true)
  }

  /** The sum of two polynomials; the exclusive or of two words. */
  function Plus(a: Polynomial, b: Polynomial): (c: Polynomial)
    requires |a| == |b|
    ensures |c| == |a|
  {
    seq(|a|, i requires 0 <= i < |a| => Differ(a[i], b[i]))
  }

  function And(a: Octet, b: Octet): Octet {
    seq(8, i requires 0 <= i < 8 => a[i] && b[i])
  }

  function Or(a: Octet, b: Octet): Octet {
    seq(8, i requires 0 <= i < 8 => a[i] || b[i])
  }

  function ShiftLeft(a: Octet, n: nat): Octet
    requires n <= 8
  {
    a[n..] + Zeros(n)
  }

  function ShiftRight(a: Octet, n: nat): Octet
    requires n <= 8
  {
    Zeros(n) + a[..8 - n]
  }

  // ---------- laws ----------

  lemma PlusAssociative(a: Polynomial, b: Polynomial, c: Polynomial)
    requires |a| == |b| == |c|
    ensures Plus(Plus(a, b), c) == Plus(a, Plus(b, c))
  {
  }

  lemma PlusCommutative(a: Polynomial, b: Polynomial)
    requires |a| == |b|
    ensures Plus(a, b) == Plus(b, a)
  {
  }

  lemma PlusZeros(a: Polynomial)
    ensures Plus(a, Zeros(|a|)) == a && Plus(Zeros(|a|), a) == a
  {
  }

  lemma PlusSelf(a: Polynomial)
    ensures Plus(a, a) == Zeros(|a|)
  {
  }

  lemma PlusConcat(a: Polynomial, b: Polynomial, c: Polynomial, d: Polynomial)
    requires |a| == |b| && |c| == |d|
    ensures Plus(a + c, b + d) == Plus(a, b) + Plus(c, d)
  {
  }

  lemma PlusIsZero(a: Polynomial, b: Polynomial)
    requires |a| == |b| && Plus(a, b) == Zeros(|a|)
    ensures a == b
  {
    forall i | 0 <= i < |a| ensures a[i] == b[i] {
      assert !Plus(a, b)[i];
    }
  }
}

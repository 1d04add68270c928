/** Numbers as lists of bits, the highest first. */
module Numbers {
  function Power2(k: nat): (p: nat)
    ensures p >= 1
  {
    if k == 0 then 1 else 2 * Power2(k - 1)
  }

  function BitsValue(s: seq<bool>): nat {
    if s == [] then 0 else 2 * BitsValue(s[..|s| - 1]) + Number(s[|s| - 1])
  }

  function Number(bit: bool): nat {
    if bit then 1 else 0
  }

  /** The low k bits of a number. */
  function BitsOf(n: nat, k: nat): (s: seq<bool>)
    ensures |s| == k
  {
    if k == 0 then [] else BitsOf(n / 2, k - 1) + [n % 2 == 1]
  }

  lemma BitsValueLonger(s: seq<bool>, bit: bool)
    ensures BitsValue(s + [bit]) == 2 * BitsValue(s) + Number(bit)
  {
    assert (s + [bit])[..|s|] == s;
  }

  lemma TwoBits(s: seq<bool>, a: bool, b: bool)
    ensures BitsValue(s + [a, b]) == 4 * BitsValue(s) + 2 * Number(a) + Number(b)
  {
    BitsValueLonger(s, a);
    BitsValueLonger(s + [a], b);
    assert s + [a] + [b] == s + [a, b];
  }

  lemma EightBits(a: bool, b: bool, c: bool, d: bool, e: bool, f: bool, g: bool, h: bool)
    ensures BitsValue([a, b, c, d, e, f, g, h])
            == 128 * Number(a) + 64 * Number(b) + 32 * Number(c) + 16 * Number(d)
               + 8 * Number(e) + 4 * Number(f) + 2 * Number(g) + Number(h)
  {
    TwoBits([], a, b);
    TwoBits([a, b], c, d);
    TwoBits([a, b, c, d], e, f);
    TwoBits([a, b, c, d, e, f], g, h);
    assert [] + [a, b] == [a, b] && [a, b] + [c, d] == [a, b, c, d];
    assert [a, b, c, d] + [e, f] == [a, b, c, d, e, f];
    assert [a, b, c, d, e, f] + [g, h] == [a, b, c, d, e, f, g, h];
  }

  lemma {:induction false} ValueFits(s: seq<bool>)
    ensures BitsValue(s) < Power2(|s|)
  {
    if s != [] { ValueFits(s[..|s| - 1]); }
  }

  lemma Halved(n: nat, p: nat)
    ensures n < 2 * p ==> n / 2 < p
    ensures 2 * (n / 2) + Number(n % 2 == 1) == n
  {
  }

  lemma {:induction false} BitsOfValue(n: nat, k: nat)
    requires n < Power2(k)
    ensures BitsValue(BitsOf(n, k)) == n
  {
    if k > 0 {
      Halved(n, Power2(k - 1));
      BitsOfValue(n / 2, k - 1);
      BitsValueLonger(BitsOf(n / 2, k - 1), n % 2 == 1);
    }
  }

  lemma {:induction false} PowersGrow(j: nat, k: nat)
    requires j <= k
    ensures Power2(j) <= Power2(k)
  {
    if j < k { PowersGrow(j, k - 1); }
  }
}

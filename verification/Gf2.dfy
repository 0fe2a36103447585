/** Polynomials over the two-element field, written as naturals: bit i is the coefficient of x^i. */
module Gf2 {
  import opened Arithmetic

  lemma {:induction false} XorComm(x: nat, y: nat)
    ensures Xor(x, y) == Xor(y, x)
  {
    if x > 0 && y > 0 {
      XorComm(x / 2, y / 2);
    }
  }

  /** XOR works bit by bit: on the last bits and on the rest. */
  lemma XorHalves(x: nat, y: nat)
    ensures Xor(x, y) / 2 == Xor(x / 2, y / 2)
    ensures Xor(x, y) % 2 == (if x % 2 != y % 2 then 1 else 0)
  {
  }

  lemma XorDouble(x: nat, y: nat)
    ensures Xor(2 * x, 2 * y) == 2 * Xor(x, y)
    ensures Xor(2 * x + 1, 2 * y) == 2 * Xor(x, y) + 1
    ensures Xor(2 * x, 2 * y + 1) == 2 * Xor(x, y) + 1
    ensures Xor(2 * x + 1, 2 * y + 1) == 2 * Xor(x, y)
  {
  }

  lemma {:induction false} XorAssoc(x: nat, y: nat, z: nat)
    ensures Xor(Xor(x, y), z) == Xor(x, Xor(y, z))
    decreases x + y + z
  {
    if x > 0 && y > 0 && z > 0 {
      XorAssoc(x / 2, y / 2, z / 2);
      XorHalves(x, y);
      XorHalves(y, z);
      XorHalves(Xor(x, y), z);
      XorHalves(x, Xor(y, z));
      SameHalves(Xor(Xor(x, y), z), Xor(x, Xor(y, z)));
    }
  }

  lemma SameHalves(x: nat, y: nat)
    requires x / 2 == y / 2 && x % 2 == y % 2
    ensures x == y
  {
  }

  /** (a + b) + (c + d) = (a + c) + (b + d). */
  lemma XorInterchange(a: nat, b: nat, c: nat, d: nat)
    ensures Xor(Xor(a, b), Xor(c, d)) == Xor(Xor(a, c), Xor(b, d))
  {
    hide Xor;
    XorAssoc(a, b, Xor(c, d));
    XorAssoc(b, c, d);
    XorComm(b, c);
    XorAssoc(c, b, d);
    XorAssoc(a, c, Xor(b, d));
  }

  function Low(x: nat, k: nat): nat { x % Pow2(k) }

  function High(x: nat, k: nat): nat {
    hide Pow2;
    QuotientNat(x, Pow2(k));
    x / Pow2(k)
  }

  lemma LowHigh(x: nat, k: nat)
    ensures x == High(x, k) * Pow2(k) + Low(x, k) && Low(x, k) < Pow2(k)
  {
  }

  lemma LowHighZero(x: nat)
    ensures Low(x, 0) == 0 && High(x, 0) == x
  {
  }

  lemma LowHighHalves(x: nat, k: nat)
    requires 0 < k
    ensures Low(x, k) == x % 2 + 2 * Low(x / 2, k - 1)
    ensures High(x, k) == High(x / 2, k - 1)
  {
    HalveMod(x, Pow2(k - 1));
    DivDiv(x, 2, Pow2(k - 1));
  }

  /** XOR respects splitting at bit k. */
  lemma {:induction false} XorSplit(x: nat, y: nat, k: nat)
    ensures Low(Xor(x, y), k) == Xor(Low(x, k), Low(y, k))
    ensures High(Xor(x, y), k) == Xor(High(x, k), High(y, k))
  {
    hide Low, High, Pow2, Xor;
    if k == 0 {
      LowHighZero(x);
      LowHighZero(y);
      LowHighZero(Xor(x, y));
      XorOfZero(0);
    } else {
      XorSplit(x / 2, y / 2, k - 1);
      XorHalves(x, y);
      LowHighHalves(x, k);
      LowHighHalves(y, k);
      LowHighHalves(Xor(x, y), k);
      XorHalves(Low(x, k), Low(y, k));
      SameHalves(Low(Xor(x, y), k), Xor(Low(x, k), Low(y, k)));
    }
  }

  lemma XorOfZero(x: nat)
    ensures Xor(x, 0) == x && Xor(0, x) == x
  {
  }

  lemma {:induction false} XorShifted(x: nat, y: nat, k: nat)
    ensures Xor(x * Pow2(k), y * Pow2(k)) == Xor(x, y) * Pow2(k)
  {
    hide Xor;
    if k > 0 {
      XorShifted(x, y, k - 1);
      XorDouble(x * Pow2(k - 1), y * Pow2(k - 1));
      assert x * Pow2(k) == 2 * (x * Pow2(k - 1)) && y * Pow2(k) == 2 * (y * Pow2(k - 1));
      assert Xor(x, y) * Pow2(k) == 2 * (Xor(x, y) * Pow2(k - 1));
    }
  }

  /** Adding a shorter polynomial keeps the degree. */
  lemma XorKeepsTop(x: nat, y: nat, k: nat)
    requires x < Pow2(k) <= y < Pow2(k + 1)
    ensures Pow2(k) <= Xor(x, y) < Pow2(k + 1)
  {
    hide Xor;
    XorBound(x, y, k + 1);
    XorSplit(x, y, k);
    DivModUnique(x, Pow2(k), 0, x);
    DivModUnique(y, Pow2(k), 1, y - Pow2(k));
    XorOfZero(1);
    LowHigh(Xor(x, y), k);
  }

  // ----- multiplication -----

  /** The product of two polynomials. */
  function Times(q: nat, g: nat): nat
    decreases q
  {
    if q == 0 then 0 else Xor(if q % 2 == 1 then g else 0, 2 * Times(q / 2, g))
  }

  lemma TimesDouble(q: nat, g: nat)
    ensures Times(2 * q, g) == 2 * Times(q, g)
    ensures Times(2 * q + 1, g) == Xor(g, 2 * Times(q, g))
  {
    if q > 0 {
      assert 2 * q / 2 == q;
    }
    assert (2 * q + 1) / 2 == q;
  }

  lemma {:induction false} TimesDistributes(p: nat, q: nat, g: nat)
    ensures Times(Xor(p, q), g) == Xor(Times(p, g), Times(q, g))
    decreases p + q
  {
    if p > 0 && q > 0 {
      TimesDistributes(p / 2, q / 2, g);
      XorHalves(p, q);
      TimesStep(p, g);
      TimesStep(q, g);
      TimesStep(Xor(p, q), g);
      hide Times, Xor;
      XorDouble(Times(p / 2, g), Times(q / 2, g));
      var a, b := if p % 2 == 1 then g else 0, if q % 2 == 1 then g else 0;
      XorInterchange(a, 2 * Times(p / 2, g), b, 2 * Times(q / 2, g));
      XorOfZero(g);
      XorCancel(g, g);
      XorOfZero(0);
    }
  }

  lemma TimesStep(q: nat, g: nat)
    ensures Times(q, g) == Xor(if q % 2 == 1 then g else 0, 2 * Times(q / 2, g))
  {
  }

  /** A nonzero multiple of a degree-d polynomial has degree at least d. */
  lemma {:induction false} MultipleIsLong(q: nat, g: nat, d: nat) returns (k: nat)
    requires q > 0 && Pow2(d) <= g < Pow2(d + 1)
    ensures Pow2(d + k) <= Times(q, g) < Pow2(d + k + 1)
    ensures q > 1 ==> k > 0
  {
    TimesStep(q, g);
    hide Xor;
    if q == 1 {
      k := 0;
      XorOfZero(g);
    } else {
      k := MultipleIsLong(q / 2, g, d);
      hide Times;
      Pow2Monotone(d + 1, d + k + 1);
      Pow2Positive(d + k + 1);
      assert Pow2(d + k + 2) == 2 * Pow2(d + k + 1) && Pow2(d + k + 1) == 2 * Pow2(d + k);
      XorKeepsTop(if q % 2 == 1 then g else 0, 2 * Times(q / 2, g), d + k + 1);
      k := k + 1;
    }
  }

  lemma Pow2Positive(k: nat)
    ensures 0 < Pow2(k)
  {
  }

  lemma {:induction false} Pow2Monotone(a: nat, b: nat)
    requires a <= b
    ensures Pow2(a) <= Pow2(b)
    decreases b - a
  {
    if a < b {
      Pow2Monotone(a, b - 1);
    }
  }

  /** Remainders are unique. */
  lemma {:induction false} RemainderUnique(g: nat, d: nat, p: nat, r: nat, q: nat, s: nat)
    requires Pow2(d) <= g < Pow2(d + 1) && r < Pow2(d) && s < Pow2(d)
    requires Xor(Times(p, g), r) == Xor(Times(q, g), s)
    ensures r == s && p == q
  {
    hide Xor, Times;
    var x, y := Times(p, g), Times(q, g);
    TimesDistributes(p, q, g);
    XorInterchange(x, r, y, s);
    XorCancel(Xor(x, r), 0);
    XorIsZero(Xor(x, y), Xor(r, s));
    XorBound(r, s, d);
    if Xor(p, q) > 0 {
      var k := MultipleIsLong(Xor(p, q), g, d);
      Pow2Monotone(d, d + k);
    } else {
      XorIsZero(p, q);
      XorCancel(x, 0);
      XorIsZero(r, s);
    }
  }

  /** Two polynomials that add to zero are equal. */
  lemma XorIsZero(x: nat, y: nat)
    requires Xor(x, y) == 0
    ensures x == y
  {
    hide Xor;
    XorCancel(x, y);
    XorOfZero(x);
  }
}

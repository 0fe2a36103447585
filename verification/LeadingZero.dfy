/**
 * The implementation runs the ladder for 256 bits, the standard for 255. The extra step on a zero
 * bit rescales one projective pair, and the scale factor cancels in the final division.
 */
module LeadingZero {
  import opened Arithmetic
  import opened Field25519
  import opened Rfc7748

  function Scaled(a: fe, q: Point): Point { Point(Mul(a, q.x), Mul(a, q.z)) }

  lemma DoubleScaled(a: fe, q: Point)
    ensures Double(Scaled(a, q)) == Scaled(Mul(Mul(a, a), Mul(a, a)), Double(q))
  {
    hide Add, Sub, Mul;
    var s, d := Add(q.x, q.z), Sub(q.x, q.z);
    var aa, bb := Sqr(s), Sqr(d);
    var e := Sub(aa, bb);
    var a2 := Mul(a, a);
    MulDistributes(a, q.x, q.z);
    MulInterchange(a, s, a, s);
    MulInterchange(a, d, a, d);
    MulInterchange(a2, aa, a2, bb);
    MulDistributes(a2, aa, bb);
    MulAssoc(A24, a2, e);
    MulComm(A24, a2);
    MulAssoc(a2, A24, e);
    MulDistributes(a2, aa, Mul(A24, e));
    MulInterchange(a2, e, a2, Add(aa, Mul(A24, e)));
  }

  lemma DiffAddScaled(x1: fe, a: fe, q: Point, b: fe, r: Point)
    ensures DiffAdd(x1, Scaled(a, q), Scaled(b, r)) == Scaled(Mul(Mul(a, b), Mul(a, b)), DiffAdd(x1, q, r))
  {
    hide Add, Sub, Mul;
    var da := Mul(Sub(r.x, r.z), Add(q.x, q.z));
    var cb := Mul(Add(r.x, r.z), Sub(q.x, q.z));
    var c := Mul(a, b);
    MulDistributes(a, q.x, q.z);
    MulDistributes(b, r.x, r.z);
    MulComm(b, a);
    MulInterchange(b, Sub(r.x, r.z), a, Add(q.x, q.z));
    MulInterchange(b, Add(r.x, r.z), a, Sub(q.x, q.z));
    MulDistributes(c, da, cb);
    MulInterchange(c, Add(da, cb), c, Add(da, cb));
    MulInterchange(c, Sub(da, cb), c, Sub(da, cb));
    var c2, w := Mul(c, c), Sqr(Sub(da, cb));
    MulAssoc(x1, c2, w);
    MulComm(x1, c2);
    MulAssoc(c2, x1, w);
  }

  /** Both pairs of a ladder scaled by powers of one element. */
  function ScaledLadder(l: fe, a: nat, b: nat, s: Ladder): Ladder {
    Ladder(Scaled(Pow(l, a), s.two), Scaled(Pow(l, b), s.three))
  }

  lemma StepScaled(x1: fe, l: fe, a: nat, b: nat, s: Ladder)
    ensures Step(x1, ScaledLadder(l, a, b, s)) == ScaledLadder(l, 4 * a, 2 * (a + b), Step(x1, s))
  {
    hide Double, DiffAdd, Mul, Pow;
    DoubleScaled(Pow(l, a), s.two);
    DiffAddScaled(x1, Pow(l, a), s.two, Pow(l, b), s.three);
    PowAdd(l, a, a);
    PowAdd(l, 2 * a, 2 * a);
    PowAdd(l, a, b);
    PowAdd(l, a + b, a + b);
  }

  lemma FirstStep(u: fe)
    ensures Step(u, Start(u)) == Ladder(Point(1, 0), Scaled(Fe(4 * u), Point(u, 1)))
  {
    assert Double(Point(1, 0)) == Point(1, 0);
    FirstDiffAdd(u);
  }

  lemma FirstDiffAdd(u: fe)
    ensures DiffAdd(u, Point(1, 0), Point(u, 1)) == Scaled(Fe(4 * u), Point(u, 1))
  {
    hide Mul, Add, Sub, Fe;
    FirstProducts(u);
    FirstSums(u);
    FirstX(u);
    FirstZ(u);
  }

  /** DA and CB of the first turn. */
  lemma FirstProducts(u: fe)
    ensures Mul(Sub(u, 1), Add(1, 0)) == Fe(u - 1) && Mul(Add(u, 1), Sub(1, 0)) == Fe(u + 1)
  {
    assert Sub(u, 1) == Fe(u - 1) && Add(u, 1) == Fe(u + 1) && Add(1, 0) == 1 && Sub(1, 0) == 1;
    hide Mul, Add, Sub, Fe;
    MulComm(Fe(u - 1), 1);
    MulComm(Fe(u + 1), 1);
  }

  lemma FirstSums(u: fe)
    ensures Add(Fe(u - 1), Fe(u + 1)) == Fe(2 * u) && Sub(Fe(u - 1), Fe(u + 1)) == Fe(-2)
  {
    hide Add, Sub, Fe;
    FeAddSub(u - 1, u + 1);
    assert u - 1 + (u + 1) == 2 * u && u - 1 - (u + 1) == -2;
  }

  lemma FirstX(u: fe)
    ensures Sqr(Fe(2 * u)) == Mul(Fe(4 * u), u)
  {
    hide Mul, Fe;
    FeMul(2 * u, 2 * u);
    FeMul(4 * u, u);
    FeSmall(u);
    assert (2 * u) * (2 * u) == (4 * u) * u;
  }

  lemma FirstZ(u: fe)
    ensures Mul(u, Sqr(Fe(-2))) == Mul(Fe(4 * u), 1)
  {
    hide Mul, Fe;
    FeMul(-2, -2);
    FeMul(4 * u, 1);
    FeMul(u, 4);
    FeSmall(u);
    FeSmall(1);
    assert u * 4 == 4 * u * 1;
  }

  /** After every bit below 255 the two runs differ only by powers of 4u. */
  lemma {:induction false} RunsDifferByScale(u: fe, k: nat, t: nat) returns (a: nat, b: nat)
    requires t <= 255 && k < Pow2(255)
    ensures Eager(u, k, 256, t) == ScaledLadder(Fe(4 * u), a, b, Eager(u, k, 255, t))
    decreases 255 - t
  {
    hide Step, Mul, Pow2, Fe;
    var l := Fe(4 * u);
    if t == 255 {
      a, b := 0, 1;
      SmallQuotient(k, Pow2(255));
      assert Eager(u, k, 256, 256) == Start(u);
      assert !BitAt(k, 255);
      FirstStep(u);
      MulComm(1, 1);
      MulComm(0, 1);
      MulComm(l, 1);
      assert Pow(l, 1) == Mul(l, Pow(l, 0));
      MulComm(1, l);
    } else {
      a, b := RunsDifferByScale(u, k, t + 1);
      var s, s' := Eager(u, k, 255, t + 1), Eager(u, k, 256, t + 1);
      if BitAt(k, t) {
        StepScaled(u, l, b, a, CSwap(true, s));
        a, b := 2 * (b + a), 4 * b;
      } else {
        StepScaled(u, l, a, b, s);
        a, b := 4 * a, 2 * (a + b);
      }
    }
  }

  lemma AffineScaled(a: fe, q: Point)
    ensures Affine(Scaled(a, q)) == Mul(Pow(a, P - 1), Affine(q))
  {
    hide Mul;
    var n := Inversion();
    PowOfProduct(a, q.z, n);
    MulInterchange(a, q.x, Pow(a, n), Pow(q.z, n));
    assert Mul(a, Pow(a, n)) == Pow(a, n + 1);
  }

  /**
   * The 256-bit run gives the standard's X25519 for every scalar below 2^255. With u = 0 both give 0;
   * otherwise the scale factor cancels because (4u)^(p-1) = 1, which holds as p is prime.
   */
  lemma {:induction false} TopBitIgnored(k: nat, u: fe)
    requires k < Pow2(255)
    requires u == 0 || Pow(Fe(4 * u), P - 1) == 1
    ensures Affine(Eager(u, k, 256, 0).two) == X25519(k, u)
  {
    hide Mul, Pow2, Fe, Step, Affine;
    DeferredSwaps(u, k, 255, 255, Start(u), false);
    if u == 0 {
      ZeroCoordinate(k, 256, 0);
      ZeroCoordinate(k, 255, 0);
      ZeroAffine(Eager(u, k, 256, 0).two);
      ZeroAffine(Eager(u, k, 255, 0).two);
    } else {
      var a, b := RunsDifferByScale(u, k, 0);
      AffineScaled(Pow(Fe(4 * u), a), Eager(u, k, 255, 0).two);
      UnitPower(Fe(4 * u), a);
      MulComm(Affine(Eager(u, k, 255, 0).two), 1);
    }
  }

  lemma UnitPower(l: fe, a: nat)
    requires Pow(l, P - 1) == 1
    ensures Pow(Pow(l, a), P - 1) == 1
  {
    PowPow(l, a, P - 1);
    PowPow(l, P - 1, a);
    PowOfOne(a);
    assert a * (P - 1) == (P - 1) * a;
  }

  /** With no assumption on p: the two runs end on the same projective point. */
  lemma {:induction false} SameProjectivePoint(k: nat, u: fe)
    requires k < Pow2(255)
    ensures var q, r := Eager(u, k, 256, 0).two, Eager(u, k, 255, 0).two;
            Mul(q.x, r.z) == Mul(r.x, q.z)
  {
    hide Mul, Pow2, Fe, Step, Eager;
    var a, b := RunsDifferByScale(u, k, 0);
    var c, r := Pow(Fe(4 * u), a), Eager(u, k, 255, 0).two;
    MulAssoc(c, r.x, r.z);
    MulComm(r.x, r.z);
    MulAssoc(c, r.z, r.x);
    MulComm(Mul(c, r.z), r.x);
  }

  lemma ZeroDouble(q: Point)
    requires Mul(q.x, q.z) == 0
    ensures Double(q).z == 0
  {
    hide Mul, Add, Sub;
    var s := Add(q.x, q.z);
    DifferenceOfSquares(q.x, q.z);
    MulZero(Add(Sqr(s), Mul(A24, 0)));
  }

  lemma DifferenceOfSquares(x: fe, z: fe)
    requires Mul(x, z) == 0
    ensures Sub(Sqr(Add(x, z)), Sqr(Sub(x, z))) == 0
  {
    var n := x * z / P;
    assert x * z == n * P;
    hide Mul, Add, Sub, Fe;
    FeSmall(x);
    FeSmall(z);
    FeAddSub(x, z);
    FeMul(x + z, x + z);
    FeMul(x - z, x - z);
    FeAddSub((x + z) * (x + z), (x - z) * (x - z));
    assert (x + z) * (x + z) - (x - z) * (x - z) == 4 * (x * z);
    FeAddMultiple(0, 4 * n);
    FeSmall(0);
  }

  /** From u = 0 every later Z coordinate is 0. */
  lemma {:induction false} ZeroCoordinate(k: nat, bits: nat, t: nat)
    requires t < bits
    ensures Eager(0, k, bits, t).two.z == 0 && Eager(0, k, bits, t).three.z == 0
    decreases bits - t
  {
    hide Add, Sub, Mul, Pow2;
    if t + 1 < bits {
      ZeroCoordinate(k, bits, t + 1);
    }
    var s := CSwap(BitAt(k, t), Eager(0, k, bits, t + 1));
    MulZero(s.two.x);
    MulZero(s.two.z);
    ZeroDouble(s.two);
    var da := Mul(Sub(s.three.x, s.three.z), Add(s.two.x, s.two.z));
    var cb := Mul(Add(s.three.x, s.three.z), Sub(s.two.x, s.two.z));
    MulZero(Sqr(Sub(da, cb)));
  }

  lemma ZeroAffine(q: Point)
    requires q.z == 0
    ensures Affine(q) == 0
  {
    MulZero(Pow(q.z, Inversion() - 1));
    MulZero(q.x);
  }
}

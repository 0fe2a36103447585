/** The field of section 5 of RFC 7748: integers modulo p = 2^255 - 19. */
module Field25519 {
  import opened Arithmetic

  const P: nat := 0x7fff_ffff_ffff_ffff_ffff_ffff_ffff_ffff_ffff_ffff_ffff_ffff_ffff_ffff_ffff_ffed

  type fe = x: int | 0 <= x < P

  function Fe(x: int): fe { x % P }
  function Add(x: fe, y: fe): fe { (x + y) % P }
  function Sub(x: fe, y: fe): fe { (x - y) % P }
  function Mul(x: fe, y: fe): fe { (x * y) % P }
  function Sqr(x: fe): fe { Mul(x, x) }

  /** x to the power e. */
  function Pow(x: fe, e: nat): (r: fe)
    decreases e, x
  {
    if e == 0 then 1 else Mul(x, Pow(x, e - 1))
  }

  lemma FeAddMultiple(x: int, k: int)
    ensures Fe(x + k * P) == Fe(x)
  {
  }

  /** Reduction is a ring homomorphism. */
  lemma {:induction false} FeMul(x: int, y: int)
    ensures Fe(x * y) == Mul(Fe(x), Fe(y))
  {
    var q, q2 := x / P, y / P;
    var r, r2 := x % P, y % P;
    assert x == q * P + r && y == q2 * P + r2;
    assert x * y == r * r2 + (q * y + r * q2) * P by {
      assert x * y == (q * P) * y + r * y;
      assert r * y == r * (q2 * P) + r * r2;
      assert (q * P) * y == (q * y) * P;
      assert r * (q2 * P) == (r * q2) * P;
    }
    FeAddMultiple(r * r2, q * y + r * q2);
  }

  lemma FeAddSub(x: int, y: int)
    ensures Fe(x + y) == Add(Fe(x), Fe(y))
    ensures Fe(x - y) == Sub(Fe(x), Fe(y))
  {
    var q, q2 := x / P, y / P;
    FeAddMultiple(x % P + y % P, q + q2);
    FeAddMultiple(x % P - y % P, q - q2);
  }

  lemma MulAssoc(x: fe, y: fe, z: fe)
    ensures Mul(Mul(x, y), z) == Mul(x, Mul(y, z))
  {
    hide Mul;
    FeMul(x * y, z);
    FeMul(x, y * z);
    FeMul(x, y);
    FeMul(y, z);
    assert x * y * z == x * (y * z);
  }

  lemma MulComm(x: fe, y: fe)
    ensures Mul(x, y) == Mul(y, x)
    ensures Mul(1, x) == x
  {
  }

  lemma {:induction false} PowAdd(x: fe, a: nat, b: nat)
    ensures Pow(x, a + b) == Mul(Pow(x, a), Pow(x, b))
  {
    hide Mul;
    if a == 0 {
      MulComm(1, Pow(x, b));
      MulComm(Pow(x, b), 1);
    } else {
      PowAdd(x, a - 1, b);
      MulAssoc(x, Pow(x, a - 1), Pow(x, b));
      assert a + b - 1 == a - 1 + b;
    }
  }

  lemma {:induction false} PowPow(x: fe, a: nat, b: nat)
    ensures 0 <= a * b
    ensures Pow(Pow(x, a), b) == Pow(x, a * b)
  {
    hide Mul;
    if b > 0 {
      PowPow(x, a, b - 1);
      assert a * b == a + a * (b - 1);
      PowAdd(x, a, a * (b - 1));
    }
  }

  /** k successive squarings. */
  function SqrTimes(x: fe, k: nat): fe
    decreases k, x
  {
    if k == 0 then x else Sqr(SqrTimes(x, k - 1))
  }

  lemma {:induction false} SqrTimesIsPow(x: fe, k: nat)
    ensures SqrTimes(x, k) == Pow(x, Pow2(k))
  {
    hide Mul;
    if k == 0 {
      MulComm(x, 1);
      MulComm(1, x);
      assert Pow(x, 1) == Mul(x, Pow(x, 0));
    } else {
      SqrTimesIsPow(x, k - 1);
      var e := Pow2(k - 1);
      PowAdd(x, e, e);
    }
  }

  lemma MulDistributes(a: fe, x: fe, y: fe)
    ensures Mul(a, Add(x, y)) == Add(Mul(a, x), Mul(a, y))
    ensures Mul(a, Sub(x, y)) == Sub(Mul(a, x), Mul(a, y))
  {
    FeSmall(a);
    FeSmall(x);
    FeSmall(y);
    hide Mul, Add, Sub, Fe;
    FeMul(a, x + y);
    FeMul(a, x - y);
    FeMul(a, x);
    FeMul(a, y);
    FeAddSub(a * x, a * y);
    FeAddSub(x, y);
    assert a * (x + y) == a * x + a * y && a * (x - y) == a * x - a * y;
  }

  lemma MulInterchange(a: fe, x: fe, b: fe, y: fe)
    ensures Mul(Mul(a, x), Mul(b, y)) == Mul(Mul(a, b), Mul(x, y))
  {
    hide Mul;
    MulAssoc(a, x, Mul(b, y));
    MulAssoc(x, b, y);
    MulComm(x, b);
    MulAssoc(b, x, y);
    MulAssoc(a, b, Mul(x, y));
  }

  lemma {:induction false} PowOfProduct(x: fe, y: fe, e: nat)
    ensures Pow(Mul(x, y), e) == Mul(Pow(x, e), Pow(y, e))
  {
    hide Mul;
    if e == 0 {
      MulComm(1, 1);
    } else {
      PowOfProduct(x, y, e - 1);
      MulInterchange(x, y, Pow(x, e - 1), Pow(y, e - 1));
    }
  }

  lemma {:induction false} PowOfOne(e: nat)
    ensures Pow(1, e) == 1
  {
    if e > 0 {
      PowOfOne(e - 1);
    }
  }

  lemma FeSmall(x: fe)
    ensures Fe(x) == x
  {
  }

  lemma MulZero(x: fe)
    ensures Mul(x, 0) == 0 && Mul(0, x) == 0
  {
  }
}

/** The exponents along the addition chain for 1/z = z^(p-2). */
module InversionChain {
  import opened Arithmetic
  import opened Field25519
  import opened Rfc7748

  function Ones(n: nat): nat { Pow2(n) - 1 }

  /** Squaring b times and multiplying extends a run of ones in the exponent. */
  lemma ExtendRun(z: fe, a: nat, b: nat)
    ensures Mul(SqrTimes(Pow(z, Ones(a)), b), Pow(z, Ones(b))) == Pow(z, Ones(a + b))
  {
    hide Mul, Pow, SqrTimes, Pow2, Ones;
    SqrTimesIsPow(Pow(z, Ones(a)), b);
    PowPow(z, Ones(a), Pow2(b));
    PowAdd(z, Ones(a) * Pow2(b), Ones(b));
    RunSum(a, b);
  }

  lemma RunSum(a: nat, b: nat)
    ensures Ones(a) * Pow2(b) + Ones(b) == Ones(a + b)
  {
    Pow2Add(a, b);
    assert (Pow2(a) - 1) * Pow2(b) == Pow2(a) * Pow2(b) - Pow2(b);
  }

  /** The small exponents at the start of the chain: 2, 9, 11, and 31 = 2^5 - 1. */
  lemma FirstExponents(z: fe)
    ensures var a2 := SqrTimes(z, 1);
            var b9 := Mul(SqrTimes(a2, 2), z);
            var a11 := Mul(b9, a2);
            a11 == Pow(z, 11) && Mul(SqrTimes(a11, 1), b9) == Pow(z, Ones(5))
  {
    hide Mul;
    assert Pow2(1) == 2 && Pow2(2) == 4 && Ones(5) == 31;
    SqrTimesIsPow(z, 1);
    SqrTimesIsPow(Pow(z, 2), 2);
    PowPow(z, 2, 4);
    PowOne(z);
    PowAdd(z, 8, 1);
    PowAdd(z, 9, 2);
    SqrTimesIsPow(Pow(z, 11), 1);
    PowPow(z, 11, 2);
    PowAdd(z, 22, 9);
  }

  lemma PowOne(z: fe)
    ensures Pow(z, 1) == z
  {
    assert Pow(z, 1) == Mul(z, Pow(z, 0));
    MulComm(z, 1);
  }

  /** The last two lines of the chain: 2^255 - 2^5 + 11 = p - 2. */
  lemma LastExponent(z: fe)
    ensures Mul(SqrTimes(Pow(z, Ones(250)), 5), Pow(z, 11)) == Pow(z, Inversion())
  {
    hide Mul;
    SqrTimesIsPow(Pow(z, Ones(250)), 5);
    PowPow(z, Ones(250), Pow2(5));
    PowAdd(z, Ones(250) * Pow2(5), 11);
    TopExponent();
  }

  lemma TopExponent()
    ensures Ones(250) * Pow2(5) + 11 == Inversion()
  {
    Pow2WideTable();
    assert Pow2(5) == 32;
    Pow2Add(250, 5);
  }
}

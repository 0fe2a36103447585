/** Inversion in the signed mixed-radix field: the same chain, squaring by squaring. */
module Inverse32 {
  import opened Arithmetic
  import opened Field25519
  import opened Rfc7748
  import opened InversionChain
  import opened Felem32

  /** An array that holds an element with limbs small enough to multiply. */
  ghost predicate Holds(a: array<limb>, x: fe)
    reads a
  {
    a.Length >= 10 && Fits32(a[..]) && FeOf(a[..]) == x
  }

  lemma ReducedFits(s: seq<limb>)
    requires Reduced(s)
    ensures Fits32(s)
  {
  }

  method Square(dst: array<limb>, src: array<limb>, ghost x: fe)
    requires dst.Length >= 10 && Holds(src, x)
    modifies dst
    ensures Holds(dst, Sqr(x))
  {
    hide Reduced, Bounded, FeOf, Mul;
    FSquare(dst, src);
    ReducedFits(dst[..]);
  }

  method Multiply(dst: array<limb>, a: array<limb>, b: array<limb>, ghost x: fe, ghost y: fe)
    requires dst.Length >= 10 && Holds(a, x) && Holds(b, y)
    modifies dst
    ensures Holds(dst, Mul(x, y))
  {
    hide Reduced, Bounded, FeOf, Mul;
    FMul(dst, a, b);
    ReducedFits(dst[..]);
  }

  /** n squarings that alternate between two arrays, ending in b; n is even. src may be b. */
  method SquareRun(a: array<limb>, b: array<limb>, src: array<limb>, n: nat, ghost x: fe)
    requires a.Length == 10 && b.Length == 10 && a != b && src != a && n >= 2 && n % 2 == 0 && Holds(src, x)
    modifies a, b
    ensures Holds(b, SqrTimes(x, n))
  {
    hide Holds, Mul;
    NextSquares(x, 0);
    Square(a, src, x);
    Square(b, a, Sqr(x));
    hide SqrTimes;
    var i := 2;
    while i < n
      invariant 2 <= i <= n && i % 2 == 0 && Holds(b, SqrTimes(x, i))
    {
      NextSquares(x, i);
      Square(a, b, SqrTimes(x, i));
      Square(b, a, Sqr(SqrTimes(x, i)));
      i := i + 2;
    }
  }

  lemma NextSquares(x: fe, i: nat)
    ensures SqrTimes(x, i + 2) == Sqr(Sqr(SqrTimes(x, i))) && SqrTimes(x, 0) == x
  {
    hide Mul;
    assert SqrTimes(x, i + 1) == Sqr(SqrTimes(x, i));
  }

  /** A run of squarings and a multiplication: a run of a ones in the exponent grows by n. */
  method Extend(dst: array<limb>, a: array<limb>, b: array<limb>, src: array<limb>, n: nat, factor: array<limb>,
                ghost z: fe, ghost m: nat)
    requires dst.Length == 10 && a.Length == 10 && b.Length == 10 && a != b && src != a && factor != a && factor != b
    requires n >= 2 && n % 2 == 0 && Holds(src, Pow(z, Ones(m))) && Holds(factor, Pow(z, Ones(n)))
    modifies dst, a, b
    ensures Holds(dst, Pow(z, Ones(m + n)))
  {
    hide Holds, Mul, Pow, SqrTimes, Ones;
    SquareRun(a, b, src, n, Pow(z, Ones(m)));
    Multiply(dst, b, factor, SqrTimes(Pow(z, Ones(m)), n), Pow(z, Ones(n)));
    ExtendRun(z, m, n);
  }

  /** Five squarings that alternate between two arrays, ending in a. */
  method FiveSquares(a: array<limb>, b: array<limb>, src: array<limb>, ghost x: fe)
    requires a.Length == 10 && b.Length == 10 && a != b && src != a && Holds(src, x)
    modifies a, b
    ensures Holds(a, SqrTimes(x, 5))
  {
    hide Holds, Mul;
    NextSquares(x, 0);
    NextSquares(x, 2);
    assert SqrTimes(x, 5) == Sqr(SqrTimes(x, 4));
    Square(a, src, x);
    Square(b, a, Sqr(x));
    Square(a, b, Sqr(Sqr(x)));
    Square(b, a, Sqr(Sqr(Sqr(x))));
    Square(a, b, Sqr(Sqr(Sqr(Sqr(x)))));
  }

  /** The small exponents: z11 = z^11, z5 = z^31. */
  method Start(z: array<limb>, z11: array<limb>, z5: array<limb>, t0: array<limb>, t1: array<limb>, ghost x: fe)
    requires z11.Length == 10 && z5.Length == 10 && t0.Length == 10 && t1.Length == 10 && |{z, z11, z5, t0, t1}| == 5
    requires Holds(z, x)
    modifies z11, z5, t0, t1
    ensures Holds(z11, Pow(x, 11)) && Holds(z5, Pow(x, Ones(5)))
  {
    hide Holds, Mul, Pow, Ones;
    FirstExponents(x);
    var z2, z9 := new limb[10], new limb[10];
    assert SqrTimes(x, 1) == Sqr(x);
    NextSquares(Sqr(x), 0);
    Square(z2, z, x);
    Square(t1, z2, Sqr(x));
    Square(t0, t1, Sqr(Sqr(x)));
    Multiply(z9, t0, z, Sqr(Sqr(Sqr(x))), x);
    ghost var nine := Mul(Sqr(Sqr(Sqr(x))), x);
    Multiply(z11, z9, z2, nine, Sqr(x));
    assert SqrTimes(Pow(x, 11), 1) == Sqr(Pow(x, 11));
    Square(t0, z11, Pow(x, 11));
    Multiply(z5, t0, z9, Sqr(Pow(x, 11)), nine);
  }

  /** From z^(2^5 - 1) to z^(2^50 - 1), by way of z^(2^10 - 1). */
  method To50(z5: array<limb>, z50: array<limb>, t0: array<limb>, t1: array<limb>, ghost z: fe)
    requires z5.Length == 10 && z50.Length == 10 && t0.Length == 10 && t1.Length == 10 && |{z5, z50, t0, t1}| == 4
    requires Holds(z5, Pow(z, Ones(5)))
    modifies z50, t0, t1
    ensures Holds(z50, Pow(z, Ones(50)))
  {
    hide Holds, Mul, Pow, SqrTimes, Ones;
    var z10, z20 := new limb[10], new limb[10];
    FiveSquares(t0, t1, z5, Pow(z, Ones(5)));
    Multiply(z10, t0, z5, SqrTimes(Pow(z, Ones(5)), 5), Pow(z, Ones(5)));
    ExtendRun(z, 5, 5);
    Extend(z20, t0, t1, z10, 10, z10, z, 10);
    Extend(t0, t0, t1, z20, 20, z20, z, 20);
    Extend(z50, t1, t0, t0, 10, z10, z, 40);
  }

  /** From z^(2^50 - 1) to z^(2^250 - 1) in t0. */
  method To250(z50: array<limb>, t0: array<limb>, t1: array<limb>, ghost z: fe)
    requires z50.Length == 10 && t0.Length == 10 && t1.Length == 10 && |{z50, t0, t1}| == 3
    requires Holds(z50, Pow(z, Ones(50)))
    modifies t0, t1
    ensures Holds(t0, Pow(z, Ones(250)))
  {
    hide Holds, Mul, Pow, SqrTimes, Ones;
    var z100 := new limb[10];
    Extend(z100, t0, t1, z50, 50, z50, z, 50);
    Extend(t1, t1, t0, z100, 100, z100, z, 100);
    Extend(t0, t0, t1, t1, 50, z50, z, 200);
  }

  /** crecip: out = z^(p-2). */
  method CRecip(out: array<limb>, z: array<limb>)
    requires out.Length >= 10 && Fits32(z[..])
    modifies out
    ensures FeOf(out[..]) == Pow(old(FeOf(z[..])), Inversion()) && Reduced(out[..])
  {
    assert z.Length >= 10;
    hide FeOf, Mul, Pow, SqrTimes, Ones, Inversion, Bounded, Reduced;
    ghost var x := FeOf(z[..]);
    var z11, z5, z50, t0, t1 := new limb[10], new limb[10], new limb[10], new limb[10], new limb[10];
    Start(z, z11, z5, t0, t1, x);
    To50(z5, z50, t0, t1, x);
    To250(z50, t0, t1, x);
    FiveSquares(t1, t0, t0, Pow(x, Ones(250)));
    FMul(out, t1, z11);
    LastExponent(x);
  }
}

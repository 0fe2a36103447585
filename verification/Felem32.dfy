/**
 * The 32-bit field element code: ten signed limbs in radix 2^25.5 (26, 25, 26, 25, ... bits).
 * limb is C's int64_t: every expression assigned to one is shown to be in range.
 */
module Felem32 {
  import opened Arithmetic
  import opened Field25519

  type limb = x: int | -0x8000_0000_0000_0000 <= x < 0x8000_0000_0000_0000
  type s32 = x: int | -0x8000_0000 <= x < 0x8000_0000

  const TWO26: int := 0x400_0000
  const TWO25: int := 0x200_0000
  const TWO27: int := 0x800_0000
  const TWO54: nat := 0x40_0000_0000_0000

  /** (s32)x: two's-complement truncation. */
  function S32(x: int): (r: s32)
    ensures -0x8000_0000 <= x < 0x8000_0000 ==> r == x
  {
    (x + 0x8000_0000) % 0x1_0000_0000 - 0x8000_0000
  }

  /** ((limb)((s32)x)) * ((s32)y) */
  function Wide(x: limb, y: limb): int { S32(x) * S32(y) }

  ghost predicate Bounded(s: seq<limb>, n: nat, b: nat) {
    n <= |s| && forall i :: 0 <= i < n ==> -(b as int) <= s[i] <= b
  }

  /** 2^ceil(25.5 i), the weight of limb i. */
  function Weight(i: nat): nat
    decreases i
  {
    if i == 0 then 1 else if i % 2 == 1 then TWO26 * Weight(i - 1) else TWO25 * Weight(i - 1)
  }

  /** The value of the first n limbs. */
  ghost function Sum(s: seq<int>, n: nat): int
    requires n <= |s|
  {
    if n == 0 then 0 else Sum(s, n - 1) + Weight(n - 1) * s[n - 1]
  }

  ghost function FeOf(s: seq<int>): fe
    requires |s| >= 10
  {
    Fe(Sum(s, 10))
  }

  // ----- products -----

  /** A product of two odd-numbered limbs counts twice: their weights multiply to half the next one. */
  function Twice(i: nat, j: nat): nat { if i % 2 == 1 && j % 2 == 1 then 2 else 1 }

  /** The part of coefficient k of a product that comes from the first n limbs of a. */
  ghost function Convolve(a: seq<limb>, b: seq<limb>, k: nat, n: nat): int
    requires |a| >= n && |b| >= 10
    decreases n
  {
    if n == 0 then 0
    else
      var term := if n - 1 <= k < n + 9 then Twice(n - 1, k - (n - 1)) * Wide(a[n - 1], b[k - (n - 1)]) else 0;
      Convolve(a, b, k, n - 1) + term
  }

  /** The nineteen sums that fproduct stores. */
  function ProductLimb(a: seq<limb>, b: seq<limb>, k: nat): int
    requires |a| >= 10 && |b| >= 10 && k < 19
  {
    match k
    case 0 => Wide(a[0], b[0])
    case 1 => Wide(a[0], b[1]) + Wide(a[1], b[0])
    case 2 => 2 * Wide(a[1], b[1]) + Wide(a[0], b[2]) + Wide(a[2], b[0])
    case 3 => Wide(a[1], b[2]) + Wide(a[2], b[1]) + Wide(a[0], b[3]) + Wide(a[3], b[0])
    case 4 => Wide(a[2], b[2]) + 2 * (Wide(a[1], b[3]) + Wide(a[3], b[1])) + Wide(a[0], b[4]) + Wide(a[4], b[0])
    case 5 => Wide(a[2], b[3]) + Wide(a[3], b[2]) + Wide(a[1], b[4]) + Wide(a[4], b[1]) + Wide(a[0], b[5])
      + Wide(a[5], b[0])
    case 6 => 2 * (Wide(a[3], b[3]) + Wide(a[1], b[5]) + Wide(a[5], b[1])) + Wide(a[2], b[4])
      + Wide(a[4], b[2]) + Wide(a[0], b[6]) + Wide(a[6], b[0])
    case 7 => Wide(a[3], b[4]) + Wide(a[4], b[3]) + Wide(a[2], b[5]) + Wide(a[5], b[2]) + Wide(a[1], b[6])
      + Wide(a[6], b[1]) + Wide(a[0], b[7]) + Wide(a[7], b[0])
    case 8 => Wide(a[4], b[4]) + 2 * (Wide(a[3], b[5]) + Wide(a[5], b[3]) + Wide(a[1], b[7])
      + Wide(a[7], b[1])) + Wide(a[2], b[6]) + Wide(a[6], b[2]) + Wide(a[0], b[8]) + Wide(a[8], b[0])
    case 9 => Wide(a[4], b[5]) + Wide(a[5], b[4]) + Wide(a[3], b[6]) + Wide(a[6], b[3]) + Wide(a[2], b[7])
      + Wide(a[7], b[2]) + Wide(a[1], b[8]) + Wide(a[8], b[1]) + Wide(a[0], b[9]) + Wide(a[9], b[0])
    case 10 => 2 * (Wide(a[5], b[5]) + Wide(a[3], b[7]) + Wide(a[7], b[3]) + Wide(a[1], b[9])
      + Wide(a[9], b[1])) + Wide(a[4], b[6]) + Wide(a[6], b[4]) + Wide(a[2], b[8]) + Wide(a[8], b[2])
    case 11 => Wide(a[5], b[6]) + Wide(a[6], b[5]) + Wide(a[4], b[7]) + Wide(a[7], b[4]) + Wide(a[3], b[8])
      + Wide(a[8], b[3]) + Wide(a[2], b[9]) + Wide(a[9], b[2])
    case 12 => Wide(a[6], b[6]) + 2 * (Wide(a[5], b[7]) + Wide(a[7], b[5]) + Wide(a[3], b[9])
      + Wide(a[9], b[3])) + Wide(a[4], b[8]) + Wide(a[8], b[4])
    case 13 => Wide(a[6], b[7]) + Wide(a[7], b[6]) + Wide(a[5], b[8]) + Wide(a[8], b[5]) + Wide(a[4], b[9])
      + Wide(a[9], b[4])
    case 14 => 2 * (Wide(a[7], b[7]) + Wide(a[5], b[9]) + Wide(a[9], b[5])) + Wide(a[6], b[8]) + Wide(a[8], b[6])
    case 15 => Wide(a[7], b[8]) + Wide(a[8], b[7]) + Wide(a[6], b[9]) + Wide(a[9], b[6])
    case 16 => Wide(a[8], b[8]) + 2 * (Wide(a[7], b[9]) + Wide(a[9], b[7]))
    case 17 => Wide(a[8], b[9]) + Wide(a[9], b[8])
    case _ => 2 * Wide(a[9], b[9])
  }

  function ProductLimbs(a: seq<limb>, b: seq<limb>): (r: seq<int>)
    requires |a| >= 10 && |b| >= 10
    ensures |r| == 19
  {
    seq(19, k requires 0 <= k < 19 => ProductLimb(a, b, k))
  }

  /** The nineteen sums that fsquare_inner stores. */
  function SquareLimb(a: seq<limb>, k: nat): int
    requires |a| >= 10 && k < 19
  {
    match k
    case 0 => Wide(a[0], a[0])
    case 1 => 2 * Wide(a[0], a[1])
    case 2 => 2 * (Wide(a[1], a[1]) + Wide(a[0], a[2]))
    case 3 => 2 * (Wide(a[1], a[2]) + Wide(a[0], a[3]))
    case 4 => Wide(a[2], a[2]) + 4 * Wide(a[1], a[3]) + 2 * Wide(a[0], a[4])
    case 5 => 2 * (Wide(a[2], a[3]) + Wide(a[1], a[4]) + Wide(a[0], a[5]))
    case 6 => 2 * (Wide(a[3], a[3]) + Wide(a[2], a[4]) + Wide(a[0], a[6]) + 2 * Wide(a[1], a[5]))
    case 7 => 2 * (Wide(a[3], a[4]) + Wide(a[2], a[5]) + Wide(a[1], a[6]) + Wide(a[0], a[7]))
    case 8 => Wide(a[4], a[4]) + 2 * (Wide(a[2], a[6]) + Wide(a[0], a[8]) + 2 * (Wide(a[1], a[7])
      + Wide(a[3], a[5])))
    case 9 => 2 * (Wide(a[4], a[5]) + Wide(a[3], a[6]) + Wide(a[2], a[7]) + Wide(a[1], a[8]) + Wide(a[0], a[9]))
    case 10 => 2 * (Wide(a[5], a[5]) + Wide(a[4], a[6]) + Wide(a[2], a[8]) + 2 * (Wide(a[3], a[7])
      + Wide(a[1], a[9])))
    case 11 => 2 * (Wide(a[5], a[6]) + Wide(a[4], a[7]) + Wide(a[3], a[8]) + Wide(a[2], a[9]))
    case 12 => Wide(a[6], a[6]) + 2 * (Wide(a[4], a[8]) + 2 * (Wide(a[5], a[7]) + Wide(a[3], a[9])))
    case 13 => 2 * (Wide(a[6], a[7]) + Wide(a[5], a[8]) + Wide(a[4], a[9]))
    case 14 => 2 * (Wide(a[7], a[7]) + Wide(a[6], a[8]) + 2 * Wide(a[5], a[9]))
    case 15 => 2 * (Wide(a[7], a[8]) + Wide(a[6], a[9]))
    case 16 => Wide(a[8], a[8]) + 4 * Wide(a[7], a[9])
    case 17 => 2 * Wide(a[8], a[9])
    case _ => 2 * Wide(a[9], a[9])
  }

  function SquareLimbs(a: seq<limb>): (r: seq<int>)
    requires |a| >= 10
    ensures |r| == 19
  {
    seq(19, k requires 0 <= k < 19 => SquareLimb(a, k))
  }

  /** The term that limb i of a contributes to coefficient k. */
  ghost function Term(a: seq<limb>, b: seq<limb>, k: nat, i: nat): int
    requires |a| > i && |b| >= 10
  {
    if i <= k < i + 10 then Twice(i, k - i) * Wide(a[i], b[k - i]) else 0
  }

  lemma ConvolveStep(a: seq<limb>, b: seq<limb>, k: nat, n: nat)
    requires |a| > n && |b| >= 10
    ensures Convolve(a, b, k, n + 1) == Convolve(a, b, k, n) + Term(a, b, k, n)
  {
  }

  lemma TenTerms(a: seq<limb>, b: seq<limb>, k: nat)
    requires |a| >= 10 && |b| >= 10
    ensures Convolve(a, b, k, 10) ==
            Term(a, b, k, 0) + Term(a, b, k, 1) + Term(a, b, k, 2) + Term(a, b, k, 3) + Term(a, b, k, 4)
            + Term(a, b, k, 5) + Term(a, b, k, 6) + Term(a, b, k, 7) + Term(a, b, k, 8) + Term(a, b, k, 9)
  {
    assert Convolve(a, b, k, 0) == 0;
    hide Convolve, Term;
    ConvolveStep(a, b, k, 0);
    ConvolveStep(a, b, k, 1);
    ConvolveStep(a, b, k, 2);
    ConvolveStep(a, b, k, 3);
    ConvolveStep(a, b, k, 4);
    ConvolveStep(a, b, k, 5);
    ConvolveStep(a, b, k, 6);
    ConvolveStep(a, b, k, 7);
    ConvolveStep(a, b, k, 8);
    ConvolveStep(a, b, k, 9);
  }

  lemma ProductLimbsConvolve(a: seq<limb>, b: seq<limb>)
    requires |a| >= 10 && |b| >= 10
    ensures forall k :: 0 <= k < 19 ==> ProductLimbs(a, b)[k] == Convolve(a, b, k, 10)
  {
    hide Wide, Convolve, ProductLimb;
    Limbs0To4(a, b);
    Limbs5To7(a, b);
    Limbs8To9(a, b);
    Limbs10To12(a, b);
    Limbs13To18(a, b);
  }

  lemma Limbs0To4(a: seq<limb>, b: seq<limb>)
    requires |a| >= 10 && |b| >= 10
    ensures ProductLimb(a, b, 0) == Convolve(a, b, 0, 10)
    ensures ProductLimb(a, b, 1) == Convolve(a, b, 1, 10)
    ensures ProductLimb(a, b, 2) == Convolve(a, b, 2, 10)
    ensures ProductLimb(a, b, 3) == Convolve(a, b, 3, 10)
    ensures ProductLimb(a, b, 4) == Convolve(a, b, 4, 10)
  {
    hide Wide, Convolve;
    TenTerms(a, b, 0);
    TenTerms(a, b, 1);
    TenTerms(a, b, 2);
    TenTerms(a, b, 3);
    TenTerms(a, b, 4);
  }

  lemma Limbs5To7(a: seq<limb>, b: seq<limb>)
    requires |a| >= 10 && |b| >= 10
    ensures ProductLimb(a, b, 5) == Convolve(a, b, 5, 10)
    ensures ProductLimb(a, b, 6) == Convolve(a, b, 6, 10)
    ensures ProductLimb(a, b, 7) == Convolve(a, b, 7, 10)
  {
    hide Wide, Convolve;
    TenTerms(a, b, 5);
    TenTerms(a, b, 6);
    TenTerms(a, b, 7);
  }

  lemma Limbs8To9(a: seq<limb>, b: seq<limb>)
    requires |a| >= 10 && |b| >= 10
    ensures ProductLimb(a, b, 8) == Convolve(a, b, 8, 10)
    ensures ProductLimb(a, b, 9) == Convolve(a, b, 9, 10)
  {
    hide Wide, Convolve;
    TenTerms(a, b, 8);
    TenTerms(a, b, 9);
  }

  lemma Limbs10To12(a: seq<limb>, b: seq<limb>)
    requires |a| >= 10 && |b| >= 10
    ensures ProductLimb(a, b, 10) == Convolve(a, b, 10, 10)
    ensures ProductLimb(a, b, 11) == Convolve(a, b, 11, 10)
    ensures ProductLimb(a, b, 12) == Convolve(a, b, 12, 10)
  {
    hide Wide, Convolve;
    TenTerms(a, b, 10);
    TenTerms(a, b, 11);
    TenTerms(a, b, 12);
  }

  lemma Limbs13To18(a: seq<limb>, b: seq<limb>)
    requires |a| >= 10 && |b| >= 10
    ensures ProductLimb(a, b, 13) == Convolve(a, b, 13, 10)
    ensures ProductLimb(a, b, 14) == Convolve(a, b, 14, 10)
    ensures ProductLimb(a, b, 15) == Convolve(a, b, 15, 10)
    ensures ProductLimb(a, b, 16) == Convolve(a, b, 16, 10)
    ensures ProductLimb(a, b, 17) == Convolve(a, b, 17, 10)
    ensures ProductLimb(a, b, 18) == Convolve(a, b, 18, 10)
  {
    hide Wide, Convolve;
    TenTerms(a, b, 13);
    TenTerms(a, b, 14);
    TenTerms(a, b, 15);
    TenTerms(a, b, 16);
    TenTerms(a, b, 17);
    TenTerms(a, b, 18);
  }

  // ----- what the coefficients mean -----

  lemma {:induction false} WeightTimes(i: nat, j: nat)
    ensures Weight(i + j) * Twice(i, j) == Weight(i) * Weight(j)
  {
    if j > 0 {
      WeightTimes(i, j - 1);
      var radix := if j % 2 == 1 then TWO26 else TWO25;
      assert Weight(j) == radix * Weight(j - 1);
      WeightStep(i, j, Weight(i + j - 1), Weight(i) * Weight(j - 1));
      assert i + (j - 1) == i + j - 1;
      hide Weight, Twice;
      assert Weight(i) * (radix * Weight(j - 1)) == radix * (Weight(i) * Weight(j - 1)) by {
        Scale(Weight(i), radix, Weight(j - 1));
      }
    }
  }

  lemma Scale(x: int, c: int, y: int)
    ensures x * (c * y) == c * (x * y)
  {
  }

  lemma WeightStep(i: nat, j: nat, w: nat, t: nat)
    requires 0 < j && w == Weight(i + j - 1) && w * Twice(i, j - 1) == t
    ensures Weight(i + j) * Twice(i, j) == (if j % 2 == 1 then TWO26 * t else TWO25 * t)
  {
    assert Weight(i + j) == (if (i + j) % 2 == 1 then TWO26 * w else TWO25 * w);
  }

  /** Coefficients 0 to m-1, weighted and added, using the first n limbs of a. */
  ghost function Total(a: seq<limb>, b: seq<limb>, n: nat, m: nat): int
    requires |a| >= n && |b| >= 10
  {
    if m == 0 then 0 else Total(a, b, n, m - 1) + Weight(m - 1) * Convolve(a, b, m - 1, n)
  }

  ghost predicate Fits32(s: seq<limb>) { Bounded(s, 10, TWO27) }

  /** How many limbs of b the first m coefficients reach from limb n of a. */
  function Reach(n: nat, m: nat): nat { if m <= n then 0 else if m <= n + 10 then m - n else 10 }

  /** Limb n of a times the first j limbs of b. */
  ghost function Row(a: seq<limb>, b: seq<limb>, n: nat, j: nat): int
    requires |a| > n && |b| >= j
  {
    Weight(n) * a[n] * Sum(b, j)
  }

  lemma RowStep(a: seq<limb>, b: seq<limb>, n: nat, k: nat)
    requires n < 10 && Fits32(a) && Fits32(b)
    ensures Weight(k) * Convolve(a, b, k, n + 1) - Weight(k) * Convolve(a, b, k, n)
         == Row(a, b, n, Reach(n, k + 1)) - Row(a, b, n, Reach(n, k))
  {
    hide Twice, Wide, Weight, Convolve;
    ConvolveStep(a, b, k, n);
    if n <= k < n + 10 {
      RowTerm(a, b, n, k);
      Distribute(Weight(k), Convolve(a, b, k, n), Twice(n, k - n) * Wide(a[n], b[k - n]));
      Distribute(Weight(n) * a[n], Sum(b, k - n), Weight(k - n) * b[k - n]);
    }
  }

  /** Adding limb n of a to the first m coefficients adds its multiples of the limbs of b they reach. */
  lemma {:induction false} TotalRow(a: seq<limb>, b: seq<limb>, n: nat, m: nat)
    requires n < 10 && Fits32(a) && Fits32(b)
    ensures Total(a, b, n + 1, m) == Total(a, b, n, m) + Row(a, b, n, Reach(n, m))
  {
    if m > 0 {
      TotalRow(a, b, n, m - 1);
      RowStep(a, b, n, m - 1);
      hide Row, Weight, Convolve, Reach;
    }
  }

  lemma Combine(x: int, y: int, f: int)
    ensures (x + y) * f == x * f + y * f
  {
  }

  lemma Distribute(f: int, x: int, y: int)
    ensures f * (x + y) == f * x + f * y
  {
  }

  lemma RowTerm(a: seq<limb>, b: seq<limb>, n: nat, k: nat)
    requires n < 10 && n <= k < n + 10 && Fits32(a) && Fits32(b)
    ensures Weight(k) * (Twice(n, k - n) * Wide(a[n], b[k - n])) == Weight(n) * a[n] * (Weight(k - n) * b[k - n])
  {
    hide Twice, Weight;
    WeightTimes(n, k - n);
    assert n + (k - n) == k;
    assert Wide(a[n], b[k - n]) == a[n] * b[k - n];
    hide Wide;
    Rearrange(Weight(k), Twice(n, k - n), Weight(n), Weight(k - n), a[n], b[k - n]);
  }

  lemma Rearrange(w: int, t: int, u: int, v: int, x: int, y: int)
    requires w * t == u * v
    ensures w * (t * (x * y)) == u * x * (v * y)
  {
    assert w * (t * (x * y)) == (w * t) * (x * y);
    assert u * x * (v * y) == (u * v) * (x * y);
  }

  lemma {:induction false} TotalOfNothing(a: seq<limb>, b: seq<limb>, m: nat)
    requires |b| >= 10
    ensures Total(a, b, 0, m) == 0
  {
    if m > 0 {
      TotalOfNothing(a, b, m - 1);
    }
  }

  lemma {:induction false} TotalRows(a: seq<limb>, b: seq<limb>, n: nat)
    requires n <= 10 && Fits32(a) && Fits32(b)
    ensures Total(a, b, n, 19) == Sum(a, n) * Sum(b, 10)
  {
    if n == 0 {
      TotalOfNothing(a, b, 19);
    } else {
      TotalRows(a, b, n - 1);
      TotalRow(a, b, n - 1, 19);
      SumStep(a, n - 1);
      hide Sum, Weight, Total;
      Combine(Sum(a, n - 1), Weight(n - 1) * a[n - 1], Sum(b, 10));
    }
  }

  lemma {:induction false} SumOfCoefficients(s: seq<int>, a: seq<limb>, b: seq<limb>, m: nat)
    requires m <= |s| && |a| >= 10 && |b| >= 10
    requires forall k :: 0 <= k < m ==> s[k] == Convolve(a, b, k, 10)
    ensures Sum(s, m) == Total(a, b, 10, m)
  {
    if m > 0 {
      SumOfCoefficients(s, a, b, m - 1);
    }
  }

  /** The nineteen limbs represent the exact integer product. */
  lemma {:induction false} ProductValue(a: seq<limb>, b: seq<limb>)
    requires Fits32(a) && Fits32(b)
    ensures Sum(ProductLimbs(a, b), 19) == Sum(a, 10) * Sum(b, 10)
  {
    hide Convolve, ProductLimbs;
    ProductLimbsConvolve(a, b);
    SumOfCoefficients(ProductLimbs(a, b), a, b, 19);
    TotalRows(a, b, 10);
  }

  /** Squaring stores the same coefficients as multiplying an element by itself. */
  lemma SquareIsProduct(a: seq<limb>)
    requires |a| >= 10
    ensures SquareLimbs(a) == ProductLimbs(a, a)
  {
    forall k | 0 <= k < 19
      ensures SquareLimb(a, k) == ProductLimb(a, a, k)
    {
      SquareLimbIsProduct(a, k);
    }
    hide SquareLimb, ProductLimb;
  }

  lemma SquareLimbIsProduct(a: seq<limb>, k: nat)
    requires |a| >= 10 && k < 19
    ensures SquareLimb(a, k) == ProductLimb(a, a, k)
  {
    assert forall i, j :: 0 <= i < j < 10 ==> Wide(a[j], a[i]) == Wide(a[i], a[j]);
    hide Wide;
  }

  /** Fourteen times the largest product of two 27-bit limbs. */
  const WIDEST: int := 14 * 0x40_0000_0000_0000

  lemma WideBound(x: limb, y: limb)
    requires -0x800_0000 <= x <= 0x800_0000 && -0x800_0000 <= y <= 0x800_0000
    ensures -0x40_0000_0000_0000 <= Wide(x, y) <= 0x40_0000_0000_0000
  {
    assert Wide(x, y) == x * y;
    hide Wide;
    if y >= 0 {
      MulMono(x, 0x800_0000, y);
      MulMono(-0x800_0000, x, y);
    } else {
      MulMono(x, 0x800_0000, -y);
      MulMono(-0x800_0000, x, -y);
      assert x * -y == -(x * y);
    }
  }

  lemma ProductBound(a: seq<limb>, b: seq<limb>)
    requires Fits32(a) && Fits32(b)
    ensures forall k :: 0 <= k < 19 ==> -WIDEST <= ProductLimbs(a, b)[k] <= WIDEST
  {
    forall k | 0 <= k < 19
      ensures -WIDEST <= ProductLimb(a, b, k) <= WIDEST
    {
      LimbBounded(a, b, k);
    }
    hide ProductLimb;
  }

  lemma LimbBounded(a: seq<limb>, b: seq<limb>, k: nat)
    requires Fits32(a) && Fits32(b) && k < 19
    ensures -WIDEST <= ProductLimb(a, b, k) <= WIDEST
  {
    forall i, j | 0 <= i < 10 && 0 <= j < 10
      ensures -0x40_0000_0000_0000 <= Wide(a[i], b[j]) <= 0x40_0000_0000_0000
    {
      WideBound(a[i], b[j]);
    }
    hide Wide, Bounded;
  }

  // ----- the field operations, on arrays of nineteen limbs -----

  method FProduct(output: array<limb>, in2: array<limb>, in1: array<limb>)
    requires output.Length == 19 && Fits32(in2[..]) && Fits32(in1[..])
    modifies output
    ensures output[..] == ProductLimbs(old(in2[..]), old(in1[..]))
    ensures Sum(output[..], 19) == old(Sum(in2[..], 10) * Sum(in1[..], 10))
    ensures Bounded(output[..], 19, WIDEST)
  {
    hide ProductLimbs;
    ProductBound(in2[..], in1[..]);
    ProductValue(in2[..], in1[..]);
    StoreLimbs(output, ProductLimbs(in2[..], in1[..]));
  }

  method FSquareInner(output: array<limb>, in1: array<limb>)
    requires output.Length == 19 && Fits32(in1[..])
    modifies output
    ensures output[..] == ProductLimbs(old(in1[..]), old(in1[..]))
    ensures Bounded(output[..], 19, WIDEST)
  {
    hide ProductLimbs, SquareLimbs;
    ProductBound(in1[..], in1[..]);
    SquareIsProduct(in1[..]);
    StoreLimbs(output, SquareLimbs(in1[..]));
  }

  method StoreLimbs(output: array<limb>, values: seq<int>)
    requires output.Length == 19 && |values| == 19
    requires forall k :: 0 <= k < 19 ==> -WIDEST <= values[k] <= WIDEST
    modifies output
    ensures output[..] == values
  {
    forall k | 0 <= k < 19 {
      output[k] := values[k];
    }
  }

  /** output[i] += output[i + 10] * 19, by two shifts and three additions. */
  method FoldLimb(output: array<limb>, i: nat)
    requires output.Length == 19 && i < 9
    requires -WIDEST <= output[i] <= WIDEST && -WIDEST <= output[i + 10] <= WIDEST
    modifies output
    ensures output[i] == old(output[i]) + 19 * old(output[i + 10])
    ensures forall j :: 0 <= j < 19 && j != i ==> output[j] == old(output[j])
  {
    output[i] := output[i] + output[i + 10] * 16;
    output[i] := output[i] + output[i + 10] * 2;
    output[i] := output[i] + output[i + 10];
  }

  /** The largest limb that freduce_degree leaves: 280 * 2^54, a little over 2^62. */
  const LONGEST: int := 280 * 0x40_0000_0000_0000

  method FReduceDegree(output: array<limb>)
    requires output.Length == 19 && Bounded(output[..], 19, WIDEST)
    modifies output
    ensures FeOf(output[..]) == Fe(old(Sum(output[..], 19)))
    ensures Bounded(output[..], 10, LONGEST)
  {
    hide Fe, Sum, FeOf;
    ghost var t := output[..];
    FoldUpper(output);
    FoldLower(output);
    assert forall i :: 0 <= i < 9 ==> output[i] == t[i] + 19 * t[i + 10];
    DegreeFold(t, output[..]);
  }

  method FoldUpper(output: array<limb>)
    requires output.Length == 19 && Bounded(output[..], 19, WIDEST)
    modifies output
    ensures forall i :: 5 <= i < 9 ==> output[i] == old(output[i]) + 19 * old(output[i + 10])
    ensures forall i :: 0 <= i < 19 && !(5 <= i < 9) ==> output[i] == old(output[i])
  {
    FoldLimb(output, 8);
    FoldLimb(output, 7);
    FoldLimb(output, 6);
    FoldLimb(output, 5);
  }

  method FoldLower(output: array<limb>)
    requires output.Length == 19
    requires forall i :: 0 <= i < 5 || 10 <= i < 15 ==> -WIDEST <= output[i] <= WIDEST
    modifies output
    ensures forall i :: 0 <= i < 5 ==> output[i] == old(output[i]) + 19 * old(output[i + 10])
    ensures forall i :: 5 <= i < 19 ==> output[i] == old(output[i])
  {
    FoldLimb(output, 4);
    FoldLimb(output, 3);
    FoldLimb(output, 2);
    FoldLimb(output, 1);
    FoldLimb(output, 0);
  }

  lemma DegreeFold(t: seq<int>, r: seq<int>)
    requires |t| == 19 && |r| == 19
    requires forall i :: 0 <= i < 9 ==> r[i] == t[i] + 19 * t[i + 10]
    requires r[9] == t[9]
    ensures FeOf(r) == Fe(Sum(t, 19))
  {
    hide Fe, Weight, Sum;
    HighPart(t, 9);
    SumFolded(t, r, 9);
    assert Sum(r, 10) == Sum(r, 9) + Weight(9) * r[9] && Sum(t, 10) == Sum(t, 9) + Weight(9) * t[9] by {
      SumStep(r, 9);
      SumStep(t, 9);
    }
    FeAddMultiple(Sum(t, 19), -Sum(t[10..], 9));
  }

  lemma SumStep(s: seq<int>, n: nat)
    requires n < |s|
    ensures Sum(s, n + 1) == Sum(s, n) + Weight(n) * s[n]
  {
  }

  /** Limb 10 + i weighs 2^255 times limb i. */
  lemma {:induction false} HighPart(t: seq<int>, n: nat)
    requires |t| == 19 && n <= 9
    ensures Sum(t, 10 + n) == Sum(t, 10) + (P + 19) * Sum(t[10..], n)
  {
    hide Weight;
    if n > 0 {
      HighPart(t, n - 1);
      HighWeight(n - 1);
      hide Sum;
      SumStep(t, 10 + n - 1);
      SumStep(t[10..], n - 1);
      Scale(Weight(n - 1), P + 19, t[10 + n - 1]);
      assert t[10..][n - 1] == t[10 + n - 1];
    }
  }

  lemma {:induction false} HighWeight(i: nat)
    ensures Weight(10 + i) == (P + 19) * Weight(i)
  {
    if i == 0 {
      TopWeight();
    } else {
      HighWeight(i - 1);
      assert 10 + i - 1 == 10 + (i - 1);
    }
  }

  lemma TopWeight()
    ensures Weight(0) == 1 && Weight(10) == P + 19
  {
  }

  lemma {:induction false} SumFolded(t: seq<int>, r: seq<int>, n: nat)
    requires |t| == 19 && |r| == 19 && n <= 9
    requires forall i :: 0 <= i < n ==> r[i] == t[i] + 19 * t[i + 10]
    ensures Sum(r, n) == Sum(t, n) + 19 * Sum(t[10..], n)
  {
    hide Weight;
    if n > 0 {
      SumFolded(t, r, n - 1);
      var w, x, y := Weight(n - 1), t[n - 1], t[n + 9];
      assert w * (x + 19 * y) == w * x + 19 * (w * y);
    }
  }

  // ----- rounding division by shifts -----

  function U32(x: int): nat { x % 0x1_0000_0000 }

  /** All ones if the 64-bit v is negative, else zero. */
  function Sign64(v: limb): (r: s32)
    ensures r == (if v < 0 then -1 else 0)
  {
    var highword := U32((v as int) % 0x1_0000_0000_0000_0000 / 0x1_0000_0000);
    S32(highword) / 0x8000_0000
  }

  /** C's v / 2^n: the quotient rounded toward zero. */
  function Truncated(v: int, m: nat): int
    requires 0 < m
  {
    if v < 0 then -(-v / m) else v / m
  }

  /** On Dafny's integers, >> is floor division, as it is on C's two's-complement words. The sum never overflows. */
  function DivBy2To26(v: limb): (r: int)
    ensures -0x8000_0000_0000_0000 <= v + U32(Sign64(v)) / 64 < 0x8000_0000_0000_0000
    ensures r == Truncated(v, TWO26)
    ensures v - r * TWO26 > -TWO26 && v - r * TWO26 < TWO26
  {
    var roundoff := U32(Sign64(v)) / 64;
    (v + roundoff) / TWO26
  }

  function DivBy2To25(v: limb): (r: int)
    ensures -0x8000_0000_0000_0000 <= v + U32(Sign64(v)) / 128 < 0x8000_0000_0000_0000
    ensures r == Truncated(v, TWO25)
    ensures v - r * TWO25 > -TWO25 && v - r * TWO25 < TWO25
  {
    var roundoff := U32(Sign64(v)) / 128;
    (v + roundoff) / TWO25
  }

  function DivS32By2To25(v: s32): (r: int)
    ensures -0x8000_0000 <= v + U32((v as int) / 0x8000_0000) / 128 < 0x8000_0000
    ensures r == Truncated(v, TWO25)
    ensures v - r * TWO25 > -TWO25 && v - r * TWO25 < TWO25
  {
    var roundoff := U32((v as int) / 0x8000_0000) / 128;
    (v + roundoff) / TWO25
  }

  // ----- coefficient reduction -----

  /** The bound of limb i after a carry out of it: 26 and 25 bits in turn. */
  function LimbBound(i: nat): int { if i % 2 == 0 then TWO26 else TWO25 }

  /** Changing one limb changes the sum by its weight. */
  lemma {:induction false} SumUpdate(s: seq<int>, i: nat, v: int, n: nat)
    requires i < n <= |s|
    ensures Sum(s[i := v], n) == Sum(s, n) + Weight(i) * (v - s[i])
  {
    hide Weight;
    if i == n - 1 {
      SumPrefix(s, s[i := v], n - 1);
    } else {
      SumUpdate(s, i, v, n - 1);
    }
  }

  lemma {:induction false} SumPrefix(s: seq<int>, t: seq<int>, n: nat)
    requires n <= |s| && n <= |t| && forall i :: 0 <= i < n ==> s[i] == t[i]
    ensures Sum(s, n) == Sum(t, n)
  {
    if n > 0 {
      SumPrefix(s, t, n - 1);
    }
  }

  /** Moving a carry one limb up keeps the value. */
  lemma CarryKeepsSum(s: seq<int>, i: nat, over: int, n: nat)
    requires i + 1 < n <= |s|
    ensures Sum(s[i := s[i] - over * LimbBound(i)][i + 1 := s[i + 1] + over], n) == Sum(s, n)
  {
    hide Sum;
    SumUpdate(s, i, s[i] - over * LimbBound(i), n);
    SumUpdate(s[i := s[i] - over * LimbBound(i)], i + 1, s[i + 1] + over, n);
    assert Weight(i + 1) == LimbBound(i) * Weight(i);
    hide Weight;
    assert Weight(i) * (-over * LimbBound(i)) + (LimbBound(i) * Weight(i)) * over == 0;
  }

  /** One half of the loop body: the carry out of limb i. */
  method CarryLimb(output: array<limb>, i: nat)
    requires output.Length == 19 && i < 10
    requires -0x7000_0000_0000_0000 <= output[i] <= 0x7000_0000_0000_0000
    requires -0x6000_0000_0000_0000 <= output[i + 1] <= 0x6000_0000_0000_0000
    modifies output
    ensures Sum(output[..], 11) == old(Sum(output[..], 11))
    ensures -LimbBound(i) < output[i] < LimbBound(i)
    ensures output[i + 1] == old(output[i + 1]) + Truncated(old(output[i]), LimbBound(i))
    ensures forall j :: 0 <= j < 19 && j != i && j != i + 1 ==> output[j] == old(output[j])
  {
    hide Sum;
    ghost var s := output[..];
    var over := if i % 2 == 0 then DivBy2To26(output[i]) else DivBy2To25(output[i]);
    output[i] := output[i] - over * LimbBound(i);
    output[i + 1] := output[i + 1] + over;
    CarryKeepsSum(s, i, over, 11);
    assert output[..] == s[i := s[i] - over * LimbBound(i)][i + 1 := s[i + 1] + over];
  }

  lemma {:induction false} TruncatedBound(v: int, m: int, b: int)
    requires (m == TWO26 || m == TWO25) && 0 <= b && -((b + 1) * m) < v < (b + 1) * m
    ensures -b <= Truncated(v, m) <= b
  {
    if m == TWO26 {
      assert v / TWO26 <= b;
    } else {
      assert v / TWO25 <= b;
    }
  }

  /** Limbs below i are carried; limb i holds at most the carry from below on top of its own bound. */
  ghost predicate CarriedTo(s: seq<limb>, i: nat) {
    && |s| == 19 && i <= 10
    && (forall j :: 0 <= j < i ==> -LimbBound(j) < s[j] < LimbBound(j))
    && (forall j :: i < j < 10 ==> -LONGEST <= s[j] <= LONGEST)
    && (i < 10 ==> s[10] == 0 && -LONGEST - 0x40_0000_0000 <= s[i] <= LONGEST + 0x40_0000_0000)
    && (i == 10 ==> -0x40_0000_0000 <= s[10] <= 0x40_0000_0000)
  }

  /** Limbs after the whole reduction: 26 and 25 bits in turn, except that limb 2 may reach 2^26. */
  ghost predicate Reduced(s: seq<limb>) {
    && |s| >= 10
    && (forall j :: 0 <= j < 10 && j != 2 ==> -LimbBound(j) < s[j] < LimbBound(j))
    && -TWO26 <= s[2] <= TWO26
  }

  method CarryOn(output: array<limb>, i: nat)
    requires output.Length == 19 && i < 10 && CarriedTo(output[..], i)
    modifies output
    ensures CarriedTo(output[..], i + 1) && Sum(output[..], 11) == old(Sum(output[..], 11))
  {
    hide Sum, Truncated;
    TruncatedBound(output[i], LimbBound(i), 0x40_0000_0000);
    CarryLimb(output, i);
  }

  method FReduceCoefficients(output: array<limb>)
    requires output.Length == 19 && Bounded(output[..], 10, LONGEST)
    modifies output
    ensures FeOf(output[..]) == old(FeOf(output[..])) && Reduced(output[..])
  {
    hide Sum, CarriedTo, Fe, Truncated;
    ghost var s, v := output[..], Sum(output[..], 10);
    output[10] := 0;
    SumPrefix(s, output[..], 10);
    StartCarry(output[..], v);
    var i := 0;
    while i < 10
      invariant 0 <= i <= 10 && i % 2 == 0
      invariant CarriedTo(output[..], i) && Sum(output[..], 11) == v
    {
      CarryOn(output, i);
      CarryOn(output, i + 1);
      i := i + 2;
    }
    FoldTop(output, v);
  }

  lemma StartCarry(s: seq<limb>, v: int)
    requires |s| == 19 && Bounded(s, 10, LONGEST) && s[10] == 0
    ensures CarriedTo(s, 0) && Sum(s, 11) == Sum(s, 10)
  {
    SumStep(s, 10);
  }

  /** The straight-line tail: fold limb 10 back into limb 0 and settle limbs 0, 1 and 2. */
  method FoldTop(output: array<limb>, ghost v: int)
    requires output.Length == 19 && CarriedTo(output[..], 10) && Sum(output[..], 11) == v
    modifies output
    ensures FeOf(output[..]) == Fe(v) && Reduced(output[..])
  {
    hide Sum, Fe, Truncated;
    ghost var s := output[..];
    output[0] := output[0] + output[10] * 16;
    output[0] := output[0] + output[10] * 2;
    output[0] := output[0] + output[10];
    output[10] := 0;
    ghost var s1 := output[..];
    FoldedSum(s, s1);
    TruncatedBound(output[0], TWO26, 0x4_0000);
    CarryLimb(output, 0);
    CarrySecond(output);
    assert Sum(output[..], 11) == Sum(output[..], 10) by { SumStep(output[..], 10); }
    FeAddMultiple(v, -s[10]);
  }

  /** The last carry, from limb 1 into limb 2. */
  method CarrySecond(output: array<limb>)
    requires output.Length == 19 && -(TWO25 + 0x4_0000) < output[1] < TWO25 + 0x4_0000 && -TWO26 < output[2] < TWO26
    modifies output
    ensures Sum(output[..], 11) == old(Sum(output[..], 11))
    ensures -TWO25 < output[1] < TWO25 && -TWO26 <= output[2] <= TWO26
    ensures forall j :: 0 <= j < 19 && j != 1 && j != 2 ==> output[j] == old(output[j])
  {
    hide Sum, Truncated;
    TruncatedBound(output[1], TWO25, 1);
    ghost var s := output[..];
    var over32 := DivS32By2To25(S32(output[1]));
    output[1] := output[1] - over32 * TWO25;
    output[2] := output[2] + over32;
    CarryKeepsSum(s, 1, over32, 11);
    assert output[..] == s[1 := s[1] - over32 * LimbBound(1)][2 := s[2] + over32];
  }

  lemma FoldedSum(s: seq<int>, t: seq<int>)
    requires |s| == 19 && |t| == 19 && t == s[0 := s[0] + 19 * s[10]][10 := 0]
    ensures Sum(t, 11) == Sum(s, 11) - P * s[10]
  {
    hide Sum, Weight;
    var x: int := s[10];
    var s1 := s[0 := s[0] + 19 * x];
    assert s1[10] + -x == 0;
    SumChange(s, 0, 19 * x, 11);
    SumChange(s1, 10, -x, 11);
  }

  /** Limb 0 counts once, limb 10 stands for 2^255. */
  lemma SumChange(s: seq<int>, i: nat, d: int, n: nat)
    requires i < n <= |s| && (i == 0 || i == 10)
    ensures Sum(s[i := s[i] + d], n) == Sum(s, n) + if i == 0 then d else (P + 19) * d
  {
    hide Sum, Weight;
    SumUpdate(s, i, s[i] + d, n);
    TopWeight();
  }

  method FMul(output: array<limb>, in1: array<limb>, in2: array<limb>)
    requires output.Length >= 10 && Fits32(in1[..]) && Fits32(in2[..])
    modifies output
    ensures FeOf(output[..]) == Mul(old(FeOf(in1[..])), old(FeOf(in2[..]))) && Reduced(output[..])
  {
    assert |in1[..]| >= 10 && |in2[..]| >= 10;
    hide Sum, Fe, Mul, Bounded;
    ghost var x, y := Sum(in1[..], 10), Sum(in2[..], 10);
    var t := new limb[19];
    FProduct(t, in1, in2);
    FReduceDegree(t);
    FReduceCoefficients(t);
    Copy10(output, t);
    FeMul(x, y);
  }

  method FSquare(output: array<limb>, in1: array<limb>)
    requires output.Length >= 10 && Fits32(in1[..])
    modifies output
    ensures FeOf(output[..]) == Sqr(old(FeOf(in1[..]))) && Reduced(output[..])
  {
    assert |in1[..]| >= 10;
    hide Sum, Fe, Mul, Bounded, ProductLimbs;
    ghost var x := Sum(in1[..], 10);
    var t := new limb[19];
    FSquareInner(t, in1);
    ProductValue(in1[..], in1[..]);
    FReduceDegree(t);
    FReduceCoefficients(t);
    Copy10(output, t);
    FeMul(x, x);
  }

  /** memcpy(output, t, sizeof(limb) * 10) */
  method Copy10(output: array<limb>, t: array<limb>)
    requires output.Length >= 10 && t.Length == 19 && Reduced(t[..])
    modifies output
    ensures FeOf(output[..]) == old(FeOf(t[..])) && Reduced(output[..])
  {
    ghost var s := t[..];
    forall i | 0 <= i < 10 {
      output[i] := t[i];
    }
    SumPrefix(output[..], s, 10);
  }
}

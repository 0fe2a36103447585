/**
 * The 64-bit field element code: five limbs in radix 2^51, overwritten in place.
 * Machine arithmetic wraps: U64 and U128 are C's truncations, applied wherever C applies them.
 */
module Felem64 {
  import opened Arithmetic
  import opened Field25519

  const TWO51: nat := 0x8_0000_0000_0000
  const TWO64: nat := 0x1_0000_0000_0000_0000
  const TWO128: nat := 0x1_0000_0000_0000_0000_0000_0000_0000_0000

  type limb = x: int | 0 <= x < 0x1_0000_0000_0000_0000

  function U64(x: int): (r: limb)
    ensures 0 <= x < TWO64 ==> r == x
  {
    x % TWO64
  }

  function U128(x: int): (r: nat)
    ensures 0 <= x < TWO128 ==> r == x
  {
    x % TWO128
  }

  /** ((uint128_t)x) * y: a widening product, which never wraps. */
  function Wide(x: limb, y: limb): nat { x * y }

  /** x & 0x7ffffffffffff */
  function Low51(x: nat): (r: limb)
    ensures r == x % TWO51
  {
    Pow2Table();
    MaskIsMod(x, 51, TWO51);
    And(x, 0x7_ffff_ffff_ffff)
  }

  /** (limb)x & 0x7ffffffffffff, for a 128-bit x */
  function LowLimb(x: nat): (r: limb)
    ensures r == x % TWO51
  {
    hide And, U64, Low51;
    LowBitsOfTruncation(x);
    Low51(U64(x))
  }

  lemma LowBitsOfTruncation(x: nat)
    ensures U64(x) % TWO51 == x % TWO51
  {
    DivDiv(x, TWO51, 0x2000);
  }

  /** The documented limit of both operands of fmul. */
  const TWO55: nat := 0x80_0000_0000_0000
  const TWO110: nat := 0x4000_0000_0000_0000_0000_0000_0000

  /** Up to this size of all limbs every carry fits: about 1.16 * 2^54. Differences of reduced elements are smaller. */
  const BOUND: nat := 0x4a_48c3_8947_5dde
  const BOUNDSQ: nat := 0x158e_25b9_efd4_d57b_5690_cf8f_0c84  // BOUND * BOUND

  ghost predicate Bounded(s: seq<limb>, b: nat) {
    |s| == 5 && s[0] <= b && s[1] <= b && s[2] <= b && s[3] <= b && s[4] <= b
  }

  /** What the code asks of the operands of a multiplication: limbs below 2^55. */
  ghost predicate Documented(s: seq<limb>)
    ensures Bounded(s, BOUND) ==> Documented(s)
  {
    Bounded(s, TWO55 - 1)
  }

  /** The output form of every multiplication: limbs of at most 2^51. */
  ghost predicate Reduced(s: seq<limb>) { Bounded(s, TWO51) }

  ghost function Poly(x0: int, x1: int, x2: int, x3: int, x4: int): int {
    x0 + 0x8_0000_0000_0000 * x1 + 0x40_0000_0000_0000_0000_0000_0000 * x2
    + 0x200_0000_0000_0000_0000_0000_0000_0000_0000_0000 * x3
    + 0x1000_0000_0000_0000_0000_0000_0000_0000_0000_0000_0000_0000_0000 * x4
  }

  ghost function Value(s: seq<limb>): nat
    requires |s| == 5
  {
    Poly(s[0], s[1], s[2], s[3], s[4])
  }

  /** The field element that five limbs stand for. */
  ghost function FeOf(s: seq<limb>): fe
    requires |s| == 5
  {
    Fe(Value(s))
  }

  // ----- the carry chain shared by fmul and fsquare_times -----

  /** One step of a carry chain; the carry loses what lies above its 64 bits. */
  lemma CarryStep(t: nat)
    ensures t == LowLimb(t) + TWO51 * (U64(t / TWO51) + TWO64 * (t / TWO51 / TWO64))
    ensures t / TWO51 == U64(t / TWO51) + TWO64 * (t / TWO51 / TWO64)
    ensures t / TWO51 < TWO64 ==> U64(t / TWO51) == t / TWO51
  {
  }

  lemma CarryFold(w0: int, w1: int, w2: int, w3: int, w4: int,
                  s0: int, s1: int, s2: int, s3: int, s4: int,
                  c0: int, c1: int, c2: int, c3: int, c4: int)
    requires w0 == s0 + TWO51 * c0 && w1 + c0 == s1 + TWO51 * c1 && w2 + c1 == s2 + TWO51 * c2
    requires w3 + c2 == s3 + TWO51 * c3 && w4 + c3 == s4 + TWO51 * c4
    ensures Poly(s0 + 19 * c4, s1, s2, s3, s4) == Poly(w0, w1, w2, w3, w4) - c4 * P
  {
  }

  /** The carry chain without any loss: every carry, and the lowest limb with the folded carry, fits 64 bits. */
  ghost predicate CarriesFit(w0: nat, w1: nat, w2: nat, w3: nat, w4: nat) {
    var c0 := w0 / TWO51;
    var c1 := (w1 + c0) / TWO51;
    var c2 := (w2 + c1) / TWO51;
    var c3 := (w3 + c2) / TWO51;
    var c4 := (w4 + c3) / TWO51;
    c0 < TWO64 && c1 < TWO64 && c2 < TWO64 && c3 < TWO64 && w0 % TWO51 + 19 * c4 < TWO64
  }

  lemma SmallColumnsFit(w0: nat, w1: nat, w2: nat, w3: nat, w4: nat)
    requires w0 <= 77 * BOUNDSQ && w1 <= 59 * BOUNDSQ && w2 <= 41 * BOUNDSQ && w3 <= 23 * BOUNDSQ && w4 <= 5 * BOUNDSQ
    ensures CarriesFit(w0, w1, w2, w3, w4)
  {
  }

  /** What the carries lost out of columns 0 to 3 and in the fold, in units of 2^64. */
  ghost function Lost(k0: nat, k1: nat, k2: nat, k3: nat, m: nat): nat {
    m + TWO51 * k0 + 0x40_0000_0000_0000_0000_0000_0000 * k1
    + 0x200_0000_0000_0000_0000_0000_0000_0000_0000_0000 * k2
    + 0x1000_0000_0000_0000_0000_0000_0000_0000_0000_0000_0000_0000_0000 * k3
  }

  /** A loss is never a multiple of p, so it always shows in the result. */
  lemma LossShows(x: int, k0: nat, k1: nat, k2: nat, k3: nat, m: nat)
    requires k0 < 0x1_0000 && k1 < 0x1_0000 && k2 < 0x1_0000 && k3 < 0x1_0000 && m < 0x100_0000
    ensures Fe(x - TWO64 * Lost(k0, k1, k2, k3, m)) == Fe(x) <==> k0 == 0 && k1 == 0 && k2 == 0 && k3 == 0 && m == 0
  {
    var l := Lost(k0, k1, k2, k3, m);
    if Fe(x - TWO64 * l) == Fe(x) {
      var q := x / P - (x - TWO64 * l) / P;
      assert TWO64 * l == q * P;
      // 2^191 * 2^64 = 19 modulo p
      var k := 0x8000_0000_0000_0000_0000_0000_0000_0000_0000_0000_0000_0000 * q - l;
      assert 19 * l == k * P;
      SmallMultiple(19 * l, k);
      assert l == 0;
    }
  }

  lemma SmallMultiple(x: nat, k: int)
    requires x == k * P && x < P
    ensures x == 0
  {
  }

  /**
   * The carry chain on any column sums that operands within the documented limit can produce: the value is kept
   * modulo p exactly when nothing is lost, and the limbs are at most 2^51 in any case.
   */
  method Carry(w0: nat, w1: nat, w2: nat, w3: nat, w4: nat)
      returns (r0: limb, r1: limb, r2: limb, r3: limb, r4: limb)
    requires w0 <= 77 * TWO110 && w1 <= 59 * TWO110 && w2 <= 41 * TWO110 && w3 <= 23 * TWO110 && w4 <= 5 * TWO110
    ensures Fe(Poly(r0, r1, r2, r3, r4)) == Fe(Poly(w0, w1, w2, w3, w4)) <==> CarriesFit(w0, w1, w2, w3, w4)
    ensures r0 < TWO51 && r1 < TWO51 && r2 <= TWO51 && r3 < TWO51 && r4 < TWO51
  {
    hide And, U64, U128, Low51, LowLimb, Fe, Poly, Lost, CarriesFit;
    var t0, t1, t2, t3, t4 := w0, w1, w2, w3, w4;
    CarryStep(t0); r0 := LowLimb(t0); var c := U64(t0 / TWO51); ghost var c0, k0 := c, t0 / TWO51 / TWO64;
    t1 := U128(t1 + c); CarryStep(t1); r1 := LowLimb(t1); c := U64(t1 / TWO51);
      ghost var c1, k1 := c, t1 / TWO51 / TWO64;
    t2 := U128(t2 + c); CarryStep(t2); r2 := LowLimb(t2); c := U64(t2 / TWO51);
      ghost var c2, k2 := c, t2 / TWO51 / TWO64;
    t3 := U128(t3 + c); CarryStep(t3); r3 := LowLimb(t3); c := U64(t3 / TWO51); ghost var c3 := c;
    t4 := U128(t4 + c); CarryStep(t4); r4 := LowLimb(t4); c := U64(t4 / TWO51); ghost var c4 := c;
    ghost var l0, m := r0, (r0 + 19 * c4) / TWO64;
    LossyFold(w0, w1, w2, w3, w4, r0, r1, r2, r3, r4, c0, c1, c2, c3, c4, k0, k1, k2, 0, m);
    r0, r1, r2 := CarryTop(r0, r1, r2, r3, r4, c);
    FeAddMultiple(Poly(w0, w1, w2, w3, w4) - TWO64 * Lost(k0, k1, k2, 0, m), -c4);
    LossShows(Poly(w0, w1, w2, w3, w4), k0, k1, k2, 0, m);
    ChainFits(w0, w1, w2, w3, w4, l0, c0, c1, c2, c3, c4, k0, k1, k2, 0, m);
  }

  lemma ChainFits(w0: nat, w1: nat, w2: nat, w3: nat, w4: nat, l0: int,
                  c0: limb, c1: limb, c2: limb, c3: limb, c4: nat, k0: nat, k1: nat, k2: nat, k3: nat, m: nat)
    requires w0 / TWO51 == c0 + TWO64 * k0 && (w1 + c0) / TWO51 == c1 + TWO64 * k1
      && (w2 + c1) / TWO51 == c2 + TWO64 * k2
    requires (w3 + c2) / TWO51 == c3 + TWO64 * k3 && (w4 + c3) / TWO51 == c4
    requires l0 == w0 % TWO51 && m == (l0 + 19 * c4) / TWO64
    ensures CarriesFit(w0, w1, w2, w3, w4) <==> k0 == 0 && k1 == 0 && k2 == 0 && k3 == 0 && m == 0
  {
  }

  lemma LossyFold(w0: int, w1: int, w2: int, w3: int, w4: int,
                  s0: int, s1: int, s2: int, s3: int, s4: int,
                  c0: int, c1: int, c2: int, c3: int, c4: int, k0: nat, k1: nat, k2: nat, k3: nat, m: nat)
    requires w0 == s0 + TWO51 * (c0 + TWO64 * k0) && w1 + c0 == s1 + TWO51 * (c1 + TWO64 * k1)
    requires w2 + c1 == s2 + TWO51 * (c2 + TWO64 * k2) && w3 + c2 == s3 + TWO51 * (c3 + TWO64 * k3)
    requires w4 + c3 == s4 + TWO51 * c4
    ensures Poly(s0 + 19 * c4 - TWO64 * m, s1, s2, s3, s4)
         == Poly(w0, w1, w2, w3, w4) - c4 * P - TWO64 * Lost(k0, k1, k2, k3, m)
  {
    var d0, d1, d2, d3 := c0 + TWO64 * k0, c1 + TWO64 * k1, c2 + TWO64 * k2, c3 + TWO64 * k3;
    CarryFold(w0, w1 - TWO64 * k0, w2 - TWO64 * k1, w3 - TWO64 * k2, w4 - TWO64 * k3,
      s0, s1, s2, s3, s4, d0, d1, d2, d3, c4);
  }

  /** The last lines of the chain: the carry out of the top limb re-enters at the bottom times 19. */
  method CarryTop(s0: limb, s1: limb, s2: limb, ghost s3: limb, ghost s4: limb, carry: limb)
      returns (r0: limb, r1: limb, r2: limb)
    requires s0 < TWO51 && s1 < TWO51 && s2 < TWO51
    ensures Poly(r0, r1, r2, s3, s4) == Poly(s0 + 19 * carry - TWO64 * ((s0 + 19 * carry) / TWO64), s1, s2, s3, s4)
    ensures r0 < TWO51 && r1 < TWO51 && r2 <= TWO51
  {
    hide And, Low51, Poly, U64;
    FoldWraps(s0, carry);
    ghost var x := U64(s0 + U64(carry * 19));
    r0 := U64(s0 + U64(carry * 19)); var c := r0 / TWO51; r0 := Low51(r0);
    r1 := U64(s1 + c); c := r1 / TWO51; r1 := Low51(r1);
    r2 := U64(s2 + c);
    CarryTwice(x, s1, s2, s3, s4, r0, r1, r2, x / TWO51, c);
  }

  /** The folded carry wraps twice: in the product by 19 and in the sum. */
  lemma FoldWraps(s: limb, c: limb)
    ensures U64(s + U64(c * 19)) == s + 19 * c - TWO64 * ((s + 19 * c) / TWO64)
  {
    ModAddMultiple(s + U64(c * 19), c * 19 / TWO64, TWO64);
  }

  lemma CarryTwice(x: int, s1: int, s2: int, s3: int, s4: int, r0: int, r1: int, r2: int, c: int, d: int)
    requires x == r0 + TWO51 * c && s1 + c == r1 + TWO51 * d && r2 == s2 + d
    ensures Poly(r0, r1, r2, s3, s4) == Poly(x, s1, s2, s3, s4)
  {
  }

  // ----- multiplication -----

  lemma ProductBound(r: int, s: int, b: nat)
    requires 0 <= r <= b && 0 <= s <= b
    ensures 0 <= r * s <= b * b
  {
    MulMono(r, b, s);
    MulMono(s, b, b);
  }

  lemma RowBounds(r: limb, s0: limb, s1: limb, s2: limb, s3: limb, s4: limb, b: nat)
    requires r <= b && s0 <= b && s1 <= b && s2 <= b && s3 <= b && s4 <= b
    ensures Wide(r, s0) <= b * b && Wide(r, s1) <= b * b && Wide(r, s2) <= b * b
    ensures Wide(r, s3) <= b * b && Wide(r, s4) <= b * b
    ensures r * Poly(s0, s1, s2, s3, s4) == Poly(Wide(r, s0), Wide(r, s1), Wide(r, s2), Wide(r, s3), Wide(r, s4))
  {
    RowValue(r, s0, s1, s2, s3, s4);
    hide Poly;
    ProductBound(r, s0, b);
    ProductBound(r, s1, b);
    ProductBound(r, s2, b);
    ProductBound(r, s3, b);
    ProductBound(r, s4, b);
  }

  lemma RowValue(r: limb, s0: limb, s1: limb, s2: limb, s3: limb, s4: limb)
    ensures r * Poly(s0, s1, s2, s3, s4) == Poly(Wide(r, s0), Wide(r, s1), Wide(r, s2), Wide(r, s3), Wide(r, s4))
  {
  }

  /** Scaling a factor scales the product. */
  lemma WideScaled(d: limb, k: nat, r: limb, s: limb)
    requires d == r * k
    ensures Wide(d, s) == k * Wide(r, s)
    ensures Wide(s, d) == k * Wide(s, r)
  {
  }

  lemma WideComm(r: limb, s: limb)
    ensures Wide(r, s) == Wide(s, r)
  {
  }

  /** The schoolbook product, with the high half folded down by 2^255 = 19 (mod p). */
  lemma SchoolbookFold(r0: int, r1: int, r2: int, r3: int, r4: int, s: int,
                       a0: int, a1: int, a2: int, a3: int, a4: int, b0: int, b1: int, b2: int, b3: int, b4: int,
                       c0: int, c1: int, c2: int, c3: int, c4: int, d0: int, d1: int, d2: int, d3: int, d4: int,
                       e0: int, e1: int, e2: int, e3: int, e4: int)
    requires r0 * s == Poly(a0, a1, a2, a3, a4) && r1 * s == Poly(b0, b1, b2, b3, b4)
    requires r2 * s == Poly(c0, c1, c2, c3, c4) && r3 * s == Poly(d0, d1, d2, d3, d4)
    requires r4 * s == Poly(e0, e1, e2, e3, e4)
    ensures Fe(Poly(r0, r1, r2, r3, r4) * s)
         == Fe(Poly(a0 + 19 * e1 + 19 * b4 + 19 * c3 + 19 * d2,
                    a1 + b0 + 19 * e2 + 19 * c4 + 19 * d3,
                    a2 + c0 + b1 + 19 * e3 + 19 * d4,
                    a3 + d0 + b2 + c1 + 19 * e4,
                    a4 + e0 + d1 + b3 + c2))
  {
    hide Fe;
    var high := Poly(e1 + b4 + c3 + d2, e2 + c4 + d3, e3 + d4, e4, 0);
    var low := Poly(a0 + 19 * e1 + 19 * b4 + 19 * c3 + 19 * d2,
                    a1 + b0 + 19 * e2 + 19 * c4 + 19 * d3,
                    a2 + c0 + b1 + 19 * e3 + 19 * d4,
                    a3 + d0 + b2 + c1 + 19 * e4,
                    a4 + e0 + d1 + b3 + c2);
    assert Poly(r0, r1, r2, r3, r4) * s == Poly(r0 * s, r1 * s, r2 * s, r3 * s, r4 * s);
    assert Poly(r0 * s, r1 * s, r2 * s, r3 * s, r4 * s) == low + high * P;
    FeAddMultiple(low, high);
  }

  /** r_i times the limb of s that belongs to column k, with the factor 19 where the column wraps around. */
  ghost function Term(r: seq<limb>, s: seq<limb>, i: nat, k: nat): nat
    requires |r| == |s| == 5 && i < 5 && k < 5
  {
    if i <= k then Wide(r[i], s[k - i]) else 19 * Wide(r[i], s[k + 5 - i])
  }

  /** Column k of the product of two polynomials modulo x^5 = 19. */
  ghost function Column(r: seq<limb>, s: seq<limb>, k: nat): nat
    requires |r| == |s| == 5 && k < 5
  {
    Term(r, s, 0, k) + Term(r, s, 1, k) + Term(r, s, 2, k) + Term(r, s, 3, k) + Term(r, s, 4, k)
  }

  /** No carry of this product outgrows 64 bits. */
  ghost predicate ProductFits(r: seq<limb>, s: seq<limb>)
    requires |r| == |s| == 5
  {
    CarriesFit(Column(r, s, 0), Column(r, s, 1), Column(r, s, 2), Column(r, s, 3), Column(r, s, 4))
  }

  /** Operands up to BOUND are safe. */
  lemma BoundedFits(r: seq<limb>, s: seq<limb>)
    requires Bounded(r, BOUND) && Bounded(s, BOUND)
    ensures ProductFits(r, s)
  {
    hide Wide, CarriesFit;
    RowBounds(r[0], s[0], s[1], s[2], s[3], s[4], BOUND);
    RowBounds(r[1], s[0], s[1], s[2], s[3], s[4], BOUND);
    RowBounds(r[2], s[0], s[1], s[2], s[3], s[4], BOUND);
    RowBounds(r[3], s[0], s[1], s[2], s[3], s[4], BOUND);
    RowBounds(r[4], s[0], s[1], s[2], s[3], s[4], BOUND);
    SmallColumnsFit(Column(r, s, 0), Column(r, s, 1), Column(r, s, 2), Column(r, s, 3), Column(r, s, 4));
  }

  function Equal(x: limb): (s: seq<limb>)
    ensures |s| == 5
  {
    [x, x, x, x, x]
  }

  lemma EqualColumns(x: limb)
    ensures var e, w := Equal(x), Wide(x, x);
            && Column(e, e, 0) == 77 * w && Column(e, e, 1) == 59 * w && Column(e, e, 2) == 41 * w
            && Column(e, e, 3) == 23 * w && Column(e, e, 4) == 5 * w
  {
    hide Wide;
  }

  /** Within the documented limit of 2^55 there are operands that are not: the largest, and some just above BOUND. */
  lemma DocumentedLimitFails()
    ensures BOUND < 20909152937375483 < TWO55 && 20909152937375483 - BOUND < 2_000_000
    ensures !ProductFits(Equal(TWO55 - 1), Equal(TWO55 - 1))
    ensures !ProductFits(Equal(20909152937375483), Equal(20909152937375483))
  {
    hide Column;
    EqualColumns(TWO55 - 1);
    EqualColumns(20909152937375483);
    LargestCarries();
    NearestCarries();
  }

  lemma LargestCarries()
    ensures var w := Wide(TWO55 - 1, TWO55 - 1); !CarriesFit(77 * w, 59 * w, 41 * w, 23 * w, 5 * w)
  {
  }

  lemma NearestCarries()
    ensures var w := Wide(20909152937375483, 20909152937375483); !CarriesFit(77 * w, 59 * w, 41 * w, 23 * w, 5 * w)
  {
  }

  /**
   * fmul, for all operands within its documented limit: the result is their product exactly when no carry
   * outgrows 64 bits, which holds up to BOUND. The limbs of the result are at most 2^51 in any case.
   */
  method FMul(output: array<limb>, in2: array<limb>, in1: array<limb>)
    requires output.Length == 5 && Documented(in2[..]) && Documented(in1[..])
    modifies output
    ensures FeOf(output[..]) == Mul(old(FeOf(in2[..])), old(FeOf(in1[..]))) <==> old(ProductFits(in1[..], in2[..]))
    ensures old(Bounded(in2[..], BOUND) && Bounded(in1[..], BOUND)) ==> old(ProductFits(in1[..], in2[..]))
    ensures Reduced(output[..]) && Bounded(output[..], BOUND)
  {
    hide Fe, Mul, Poly, U64, U128, Column, CarriesFit;
    var r0, r1, r2, r3, r4 := in1[0], in1[1], in1[2], in1[3], in1[4];
    var s0, s1, s2, s3, s4 := in2[0], in2[1], in2[2], in2[3], in2[4];
    assert in1[..] == [r0, r1, r2, r3, r4] && in2[..] == [s0, s1, s2, s3, s4];
    if Bounded(in2[..], BOUND) && Bounded(in1[..], BOUND) {
      BoundedFits(in1[..], in2[..]);
    }
    var t0, t1, t2, t3, t4 := Schoolbook(r0, r1, r2, r3, r4, s0, s1, s2, s3, s4);
    r0, r1, r2, r3, r4 := Carry(t0, t1, t2, t3, t4);
    output[0] := r0;
    output[1] := r1;
    output[2] := r2;
    output[3] := r3;
    output[4] := r4;
    assert FeOf(output[..]) == Fe(Poly(r0, r1, r2, r3, r4));
  }

  lemma ColumnTerms(a0: limb, a1: limb, a2: limb, a3: limb, a4: limb, s0: limb, s1: limb, s2: limb, s3: limb, s4: limb)
    ensures var a, s := [a0, a1, a2, a3, a4], [s0, s1, s2, s3, s4];
            && Column(a, s, 0) == Wide(a0, s0) + 19 * (Wide(a1, s4) + Wide(a2, s3) + Wide(a3, s2) + Wide(a4, s1))
            && Column(a, s, 1) == Wide(a0, s1) + Wide(a1, s0) + 19 * (Wide(a2, s4) + Wide(a3, s3) + Wide(a4, s2))
            && Column(a, s, 2) == Wide(a0, s2) + Wide(a1, s1) + Wide(a2, s0) + 19 * (Wide(a3, s4) + Wide(a4, s3))
            && Column(a, s, 3) == Wide(a0, s3) + Wide(a1, s2) + Wide(a2, s1) + Wide(a3, s0) + 19 * Wide(a4, s4)
            && Column(a, s, 4) == Wide(a0, s4) + Wide(a1, s3) + Wide(a2, s2) + Wide(a3, s1) + Wide(a4, s0)
  {
    hide Wide;
  }

  /** The five 128-bit column sums of a product, before carrying. */
  method Schoolbook(a0: limb, a1: limb, a2: limb, a3: limb, a4: limb, s0: limb, s1: limb, s2: limb, s3: limb, s4: limb)
      returns (t0: nat, t1: nat, t2: nat, t3: nat, t4: nat)
    requires a0 < TWO55 && a1 < TWO55 && a2 < TWO55 && a3 < TWO55 && a4 < TWO55
    requires s0 < TWO55 && s1 < TWO55 && s2 < TWO55 && s3 < TWO55 && s4 < TWO55
    ensures var a, s := [a0, a1, a2, a3, a4], [s0, s1, s2, s3, s4];
            t0 == Column(a, s, 0) && t1 == Column(a, s, 1) && t2 == Column(a, s, 2) && t3 == Column(a, s, 3)
              && t4 == Column(a, s, 4)
    ensures t0 <= 77 * TWO110 && t1 <= 59 * TWO110 && t2 <= 41 * TWO110 && t3 <= 23 * TWO110 && t4 <= 5 * TWO110
    ensures Fe(Poly(t0, t1, t2, t3, t4)) == Mul(Fe(Poly(s0, s1, s2, s3, s4)), Fe(Poly(a0, a1, a2, a3, a4)))
  {
    hide Fe, Mul, Poly, U64, U128, Wide, Column;
    ColumnTerms(a0, a1, a2, a3, a4, s0, s1, s2, s3, s4);
    RowBounds(a0, s0, s1, s2, s3, s4, TWO55);
    RowBounds(a1, s0, s1, s2, s3, s4, TWO55);
    RowBounds(a2, s0, s1, s2, s3, s4, TWO55);
    RowBounds(a3, s0, s1, s2, s3, s4, TWO55);
    RowBounds(a4, s0, s1, s2, s3, s4, TWO55);
    var r0, r1, r2, r3, r4 := a0, a1, a2, a3, a4;
    t0 := U128(Wide(r0, s0));
    t1 := U128(Wide(r0, s1) + Wide(r1, s0));
    t2 := U128(Wide(r0, s2) + Wide(r2, s0) + Wide(r1, s1));
    t3 := U128(Wide(r0, s3) + Wide(r3, s0) + Wide(r1, s2) + Wide(r2, s1));
    t4 := U128(Wide(r0, s4) + Wide(r4, s0) + Wide(r3, s1) + Wide(r1, s3) + Wide(r2, s2));
    r4 := U64(r4 * 19);
    r1 := U64(r1 * 19);
    r2 := U64(r2 * 19);
    r3 := U64(r3 * 19);
    NineteenFold(a1, a2, a3, a4, s1, s2, s3, s4);
    t0 := U128(t0 + (Wide(r4, s1) + Wide(r1, s4) + Wide(r2, s3) + Wide(r3, s2)));
    t1 := U128(t1 + (Wide(r4, s2) + Wide(r2, s4) + Wide(r3, s3)));
    t2 := U128(t2 + (Wide(r4, s3) + Wide(r3, s4)));
    t3 := U128(t3 + Wide(r4, s4));
    SchoolbookFold(a0, a1, a2, a3, a4, Poly(s0, s1, s2, s3, s4),
      Wide(a0, s0), Wide(a0, s1), Wide(a0, s2), Wide(a0, s3), Wide(a0, s4),
      Wide(a1, s0), Wide(a1, s1), Wide(a1, s2), Wide(a1, s3), Wide(a1, s4),
      Wide(a2, s0), Wide(a2, s1), Wide(a2, s2), Wide(a2, s3), Wide(a2, s4),
      Wide(a3, s0), Wide(a3, s1), Wide(a3, s2), Wide(a3, s3), Wide(a3, s4),
      Wide(a4, s0), Wide(a4, s1), Wide(a4, s2), Wide(a4, s3), Wide(a4, s4));
    FeMul(Poly(a0, a1, a2, a3, a4), Poly(s0, s1, s2, s3, s4));
    MulComm(Fe(Poly(a0, a1, a2, a3, a4)), Fe(Poly(s0, s1, s2, s3, s4)));
  }

  lemma NineteenFold(a1: limb, a2: limb, a3: limb, a4: limb, s1: limb, s2: limb, s3: limb, s4: limb)
    requires a1 < TWO55 && a2 < TWO55 && a3 < TWO55 && a4 < TWO55
    ensures Wide(U64(a4 * 19), s1) == 19 * Wide(a4, s1) && Wide(U64(a4 * 19), s2) == 19 * Wide(a4, s2)
    ensures Wide(U64(a4 * 19), s3) == 19 * Wide(a4, s3) && Wide(U64(a4 * 19), s4) == 19 * Wide(a4, s4)
    ensures Wide(U64(a3 * 19), s2) == 19 * Wide(a3, s2) && Wide(U64(a3 * 19), s3) == 19 * Wide(a3, s3)
    ensures Wide(U64(a3 * 19), s4) == 19 * Wide(a3, s4) && Wide(U64(a1 * 19), s4) == 19 * Wide(a1, s4)
    ensures Wide(U64(a2 * 19), s3) == 19 * Wide(a2, s3) && Wide(U64(a2 * 19), s4) == 19 * Wide(a2, s4)
  {
    hide U64, Wide;
    WideScaled(U64(a4 * 19), 19, a4, s1);
    WideScaled(U64(a4 * 19), 19, a4, s2);
    WideScaled(U64(a4 * 19), 19, a4, s3);
    WideScaled(U64(a4 * 19), 19, a4, s4);
    WideScaled(U64(a3 * 19), 19, a3, s2);
    WideScaled(U64(a3 * 19), 19, a3, s3);
    WideScaled(U64(a3 * 19), 19, a3, s4);
    WideScaled(U64(a2 * 19), 19, a2, s3);
    WideScaled(U64(a2 * 19), 19, a2, s4);
    WideScaled(U64(a1 * 19), 19, a1, s4);
  }

  // ----- repeated squaring -----

  /** How often a do-while over a wrapping 64-bit counter runs its body. */
  function DoWhileTurns(count: limb): nat { if count == 0 then TWO64 else count }

  /**
   * fsquare_times within the documented limit: in^(2^turns) if the first squaring's carries fit 64 bits, and for a
   * single turn exactly then. From the second turn on they always fit.
   */
  method FSquareTimes(output: array<limb>, in1: array<limb>, count: limb)
    requires output.Length == 5 && Documented(in1[..])
    modifies output
    ensures old(ProductFits(in1[..], in1[..])) ==>
      FeOf(output[..]) == SqrTimes(old(FeOf(in1[..])), DoWhileTurns(count))
    ensures count == 1 ==>
      (FeOf(output[..]) == SqrTimes(old(FeOf(in1[..])), 1) <==> old(ProductFits(in1[..], in1[..])))
    ensures old(Bounded(in1[..], BOUND)) ==> old(ProductFits(in1[..], in1[..]))
    ensures Reduced(output[..]) && Bounded(output[..], BOUND)
  {
    hide Fe, Mul, Poly, U128, CarriesFit, Column, SqrTimes;
    var r0: limb, r1: limb, r2: limb, r3: limb, r4: limb := in1[0], in1[1], in1[2], in1[3], in1[4];
    assert in1[..] == [r0, r1, r2, r3, r4];
    if Bounded(in1[..], BOUND) {
      BoundedFits(in1[..], in1[..]);
    }
    ghost var start, fits := FeOf(in1[..]), ProductFits(in1[..], in1[..]);
    ghost var in0 := [r0, r1, r2, r3, r4];
    var left := count;
    ghost var turns := 0;
    NoSquares(start);
    while true
      invariant turns + DoWhileTurns(left) == DoWhileTurns(count)
      invariant turns == 0 ==> [r0, r1, r2, r3, r4] == in0 && Fe(Poly(r0, r1, r2, r3, r4)) == start
      invariant turns > 0 ==> Bounded([r0, r1, r2, r3, r4], TWO51)
      invariant fits ==> Fe(Poly(r0, r1, r2, r3, r4)) == SqrTimes(start, turns)
      invariant r0 < TWO55 && r1 < TWO55 && r2 < TWO55 && r3 < TWO55 && r4 < TWO55
      decreases DoWhileTurns(left)
    {
      var t0, t1, t2, t3, t4 := SquareColumns(r0, r1, r2, r3, r4);
      if turns > 0 {
        BoundedFits([r0, r1, r2, r3, r4], [r0, r1, r2, r3, r4]);
      }
      NextSquare(start, turns);
      r0, r1, r2, r3, r4 := Carry(t0, t1, t2, t3, t4);
      turns := turns + 1;
      left := U64(left as int - 1);
      if left == 0 {
        break;
      }
      assert turns != DoWhileTurns(count);
    }
    output[0] := r0;
    output[1] := r1;
    output[2] := r2;
    output[3] := r3;
    output[4] := r4;
    assert FeOf(output[..]) == Fe(Poly(r0, r1, r2, r3, r4));
  }

  lemma NoSquares(x: fe)
    ensures SqrTimes(x, 0) == x && SqrTimes(x, 1) == Sqr(x)
  {
  }

  lemma NextSquare(x: fe, k: nat)
    ensures SqrTimes(x, k + 1) == Sqr(SqrTimes(x, k))
  {
  }

  /** The column sums of a square, with symmetric terms merged into doubled factors. */
  method SquareColumns(r0: limb, r1: limb, r2: limb, r3: limb, r4: limb)
      returns (t0: nat, t1: nat, t2: nat, t3: nat, t4: nat)
    requires r0 < TWO55 && r1 < TWO55 && r2 < TWO55 && r3 < TWO55 && r4 < TWO55
    ensures var r := [r0, r1, r2, r3, r4];
            && t0 == Column(r, r, 0) && t1 == Column(r, r, 1) && t2 == Column(r, r, 2) && t3 == Column(r, r, 3)
            && t4 == Column(r, r, 4)
    ensures t0 <= 77 * TWO110 && t1 <= 59 * TWO110 && t2 <= 41 * TWO110 && t3 <= 23 * TWO110 && t4 <= 5 * TWO110
    ensures Fe(Poly(t0, t1, t2, t3, t4)) == Sqr(Fe(Poly(r0, r1, r2, r3, r4)))
  {
    hide Fe, Mul, Poly, U64, U128, Wide, Column;
    ColumnTerms(r0, r1, r2, r3, r4, r0, r1, r2, r3, r4);
    RowBounds(r0, r0, r1, r2, r3, r4, TWO55);
    RowBounds(r1, r0, r1, r2, r3, r4, TWO55);
    RowBounds(r2, r0, r1, r2, r3, r4, TWO55);
    RowBounds(r3, r0, r1, r2, r3, r4, TWO55);
    RowBounds(r4, r0, r1, r2, r3, r4, TWO55);
    var d0 := U64(r0 * 2);
    var d1 := U64(r1 * 2);
    var d2 := U64(U64(r2 * 2) * 19);
    var d419 := U64(r4 * 19);
    var d4 := U64(d419 * 2);
    var r319 := U64(r3 * 19);
    Doubled(r0, r1, r2, r3, r4, d0, d1, d2, d4);
    WideScaled(r319, 19, r3, r3);
    WideScaled(d419, 19, r4, r4);
    t0 := U128(Wide(r0, r0) + Wide(d4, r1) + Wide(d2, r3));
    t1 := U128(Wide(d0, r1) + Wide(d4, r2) + Wide(r3, r319));
    t2 := U128(Wide(d0, r2) + Wide(r1, r1) + Wide(d4, r3));
    t3 := U128(Wide(d0, r3) + Wide(d1, r2) + Wide(r4, d419));
    t4 := U128(Wide(d0, r4) + Wide(d1, r3) + Wide(r2, r2));
    SchoolbookFold(r0, r1, r2, r3, r4, Poly(r0, r1, r2, r3, r4),
      Wide(r0, r0), Wide(r0, r1), Wide(r0, r2), Wide(r0, r3), Wide(r0, r4),
      Wide(r1, r0), Wide(r1, r1), Wide(r1, r2), Wide(r1, r3), Wide(r1, r4),
      Wide(r2, r0), Wide(r2, r1), Wide(r2, r2), Wide(r2, r3), Wide(r2, r4),
      Wide(r3, r0), Wide(r3, r1), Wide(r3, r2), Wide(r3, r3), Wide(r3, r4),
      Wide(r4, r0), Wide(r4, r1), Wide(r4, r2), Wide(r4, r3), Wide(r4, r4));
    FeMul(Poly(r0, r1, r2, r3, r4), Poly(r0, r1, r2, r3, r4));
  }

  lemma Doubled(r0: limb, r1: limb, r2: limb, r3: limb, r4: limb, d0: limb, d1: limb, d2: limb, d4: limb)
    requires d0 == 2 * r0 && d1 == 2 * r1 && d2 == 38 * r2 && d4 == 38 * r4
    ensures Wide(d4, r1) == 19 * Wide(r4, r1) + 19 * Wide(r1, r4)
    ensures Wide(d4, r2) == 19 * Wide(r4, r2) + 19 * Wide(r2, r4)
    ensures Wide(d4, r3) == 19 * Wide(r4, r3) + 19 * Wide(r3, r4)
    ensures Wide(d2, r3) == 19 * Wide(r2, r3) + 19 * Wide(r3, r2)
    ensures Wide(d0, r1) == Wide(r0, r1) + Wide(r1, r0) && Wide(d0, r2) == Wide(r0, r2) + Wide(r2, r0)
    ensures Wide(d0, r3) == Wide(r0, r3) + Wide(r3, r0) && Wide(d0, r4) == Wide(r0, r4) + Wide(r4, r0)
    ensures Wide(d1, r2) == Wide(r1, r2) + Wide(r2, r1) && Wide(d1, r3) == Wide(r1, r3) + Wide(r3, r1)
  {
    hide Wide;
    WideScaled(d4, 38, r4, r1); WideComm(r4, r1);
    WideScaled(d4, 38, r4, r2); WideComm(r4, r2);
    WideScaled(d4, 38, r4, r3); WideComm(r4, r3);
    WideScaled(d2, 38, r2, r3); WideComm(r2, r3);
    WideScaled(d0, 2, r0, r1); WideComm(r0, r1);
    WideScaled(d0, 2, r0, r2); WideComm(r0, r2);
    WideScaled(d0, 2, r0, r3); WideComm(r0, r3);
    WideScaled(d0, 2, r0, r4); WideComm(r0, r4);
    WideScaled(d1, 2, r1, r2); WideComm(r1, r2);
    WideScaled(d1, 2, r1, r3); WideComm(r1, r3);
  }

  // ----- sums, differences and small multiples -----

  method FSum(output: array<limb>, in1: array<limb>)
    requires output.Length == 5 && in1.Length == 5
    requires forall i :: 0 <= i < 5 ==> output[i] + in1[i] < TWO64
    modifies output
    ensures FeOf(output[..]) == Add(old(FeOf(output[..])), old(FeOf(in1[..])))
    ensures forall i :: 0 <= i < 5 ==> output[i] == old(output[i] + in1[i])
  {
    hide U64, Fe, Add, Poly;
    ghost var x, y := output[..], in1[..];
    output[0] := U64(output[0] + in1[0]);
    output[1] := U64(output[1] + in1[1]);
    output[2] := U64(output[2] + in1[2]);
    output[3] := U64(output[3] + in1[3]);
    output[4] := U64(output[4] + in1[4]);
    FeAddSub(Value(x), Value(y));
    PolyAdd(x[0], x[1], x[2], x[3], x[4], y[0], y[1], y[2], y[3], y[4]);
  }

  lemma PolyAdd(x0: int, x1: int, x2: int, x3: int, x4: int, y0: int, y1: int, y2: int, y3: int, y4: int)
    ensures Poly(x0 + y0, x1 + y1, x2 + y2, x3 + y3, x4 + y4) == Poly(x0, x1, x2, x3, x4) + Poly(y0, y1, y2, y3, y4)
  {
  }

  /** output = in - output, offset by 8p so that no limb goes below zero. */
  method FDifferenceBackwards(output: array<limb>, in1: array<limb>)
    requires output.Length == 5 && in1.Length == 5
    requires forall i :: 0 <= i < 5 ==> output[i] < 0x10_0000_0000_0000 && in1[i] < TWO64 - 0x40_0000_0000_0000
    modifies output
    ensures FeOf(output[..]) == Sub(old(FeOf(in1[..])), old(FeOf(output[..])))
    ensures forall i :: 0 <= i < 5 ==> output[i] <= old(in1[i]) + 0x40_0000_0000_0000 - 8
  {
    hide U64, Fe, Sub;
    var two54m152 := 0x40_0000_0000_0000 - 152;
    var two54m8 := 0x40_0000_0000_0000 - 8;
    ghost var x, y := Value(in1[..]), Value(output[..]);
    output[0] := U64(in1[0] + two54m152 - output[0]);
    output[1] := U64(in1[1] + two54m8 - output[1]);
    output[2] := U64(in1[2] + two54m8 - output[2]);
    output[3] := U64(in1[3] + two54m8 - output[3]);
    output[4] := U64(in1[4] + two54m8 - output[4]);
    FeAddSub(x, y);
    assert Value(output[..]) == x - y + 8 * P;
    FeAddMultiple(x - y, 8);
  }

  /** (2^64 - 1)^2, the largest widening product */
  const LARGEST: nat := 0xffff_ffff_ffff_fffe_0000_0000_0000_0001

  /** No carry of this multiple outgrows 64 bits. */
  ghost predicate ScaleFits(x: seq<limb>, k: limb)
    requires |x| == 5
  {
    CarriesFit(Wide(x[0], k), Wide(x[1], k), Wide(x[2], k), Wide(x[3], k), Wide(x[4], k))
  }

  /** For all limbs and scalars: the multiple, exactly when no carry outgrows 64 bits. */
  method FScalarProduct(output: array<limb>, in1: array<limb>, scalar: limb)
    requires output.Length == 5 && in1.Length == 5
    modifies output
    ensures FeOf(output[..]) == Mul(old(FeOf(in1[..])), scalar) <==> old(ScaleFits(in1[..], scalar))
    ensures output[1] < TWO51 && output[2] < TWO51 && output[3] < TWO51 && output[4] < TWO51
    ensures scalar < 0x1_0000_0000 && old(Documented(in1[..])) ==>
      old(ScaleFits(in1[..], scalar)) && output[0] < TWO51 + 19 * (16 * scalar + 1)
  {
    hide Fe, Mul, Poly, CarriesFit, Wide;
    var x0, x1, x2, x3, x4 := in1[0], in1[1], in1[2], in1[3], in1[4];
    assert FeOf(in1[..]) == Fe(Poly(x0, x1, x2, x3, x4));
    var s0, s1, s2, s3, s4 := ScaleLimbs(x0, x1, x2, x3, x4, scalar);
    output[0] := s0;
    output[1] := s1;
    output[2] := s2;
    output[3] := s3;
    output[4] := s4;
    assert FeOf(output[..]) == Fe(Poly(s0, s1, s2, s3, s4));
  }

  method ScaleLimbs(x0: limb, x1: limb, x2: limb, x3: limb, x4: limb, scalar: limb)
      returns (s0: limb, s1: limb, s2: limb, s3: limb, s4: limb)
    ensures Fe(Poly(s0, s1, s2, s3, s4)) == Mul(Fe(Poly(x0, x1, x2, x3, x4)), scalar) <==>
            CarriesFit(Wide(x0, scalar), Wide(x1, scalar), Wide(x2, scalar), Wide(x3, scalar), Wide(x4, scalar))
    ensures s1 < TWO51 && s2 < TWO51 && s3 < TWO51 && s4 < TWO51
    ensures scalar < 0x1_0000_0000 && x0 < TWO55 && x1 < TWO55 && x2 < TWO55 && x3 < TWO55 && x4 < TWO55 ==>
      && CarriesFit(Wide(x0, scalar), Wide(x1, scalar), Wide(x2, scalar), Wide(x3, scalar), Wide(x4, scalar))
      && s0 < TWO51 + 19 * (16 * scalar + 1)
  {
    hide Fe, Mul, Poly, Wide, CarriesFit, TopCarry;
    ScalarBounds(x0, x1, x2, x3, x4, scalar);
    s0, s1, s2, s3, s4 := ScaleChain(Wide(x0, scalar), Wide(x1, scalar), Wide(x2, scalar), Wide(x3, scalar),
      Wide(x4, scalar));
    if scalar < 0x1_0000_0000 {
      SmallScale(Wide(x0, scalar), Wide(x1, scalar), Wide(x2, scalar), Wide(x3, scalar), Wide(x4, scalar), scalar);
    }
    FeMul(Poly(x0, x1, x2, x3, x4), scalar);
    FeSmall(scalar);
  }

  /** The last carry of the chain, if nothing is lost. */
  ghost function TopCarry(w0: nat, w1: nat, w2: nat, w3: nat, w4: nat): nat {
    (w4 + (w3 + (w2 + (w1 + w0 / TWO51) / TWO51) / TWO51) / TWO51) / TWO51
  }

  /** The carry chain on the five widening products. */
  method ScaleChain(w0: nat, w1: nat, w2: nat, w3: nat, w4: nat)
      returns (s0: limb, s1: limb, s2: limb, s3: limb, s4: limb)
    requires w0 <= LARGEST && w1 <= LARGEST && w2 <= LARGEST && w3 <= LARGEST && w4 <= LARGEST
    ensures Fe(Poly(s0, s1, s2, s3, s4)) == Fe(Poly(w0, w1, w2, w3, w4)) <==> CarriesFit(w0, w1, w2, w3, w4)
    ensures CarriesFit(w0, w1, w2, w3, w4) ==> s0 == w0 % TWO51 + 19 * TopCarry(w0, w1, w2, w3, w4)
    ensures s1 < TWO51 && s2 < TWO51 && s3 < TWO51 && s4 < TWO51
  {
    hide U64, U128, Low51, LowLimb, Fe, Poly, CarriesFit, Lost, TopCarry;
    var a := U128(w0); CarryStep(a);
    s0 := LowLimb(a); ghost var c0, k0 := U64(a / TWO51), a / TWO51 / TWO64;
    a := U128(w1 + U64(a / TWO51)); CarryStep(a);
    s1 := LowLimb(a); ghost var c1, k1 := U64(a / TWO51), a / TWO51 / TWO64;
    a := U128(w2 + U64(a / TWO51)); CarryStep(a);
    s2 := LowLimb(a); ghost var c2, k2 := U64(a / TWO51), a / TWO51 / TWO64;
    a := U128(w3 + U64(a / TWO51)); CarryStep(a);
    s3 := LowLimb(a); ghost var c3, k3 := U64(a / TWO51), a / TWO51 / TWO64;
    a := U128(w4 + U64(a / TWO51)); CarryStep(a);
    s4 := LowLimb(a); ghost var c4: nat := a / TWO51;
    ghost var l0, m := s0, (s0 + 19 * c4) / TWO64;
    s0 := U64(s0 + U128(a / TWO51 * 19));
    FoldLoses(l0, c4);
    LossyFold(w0, w1, w2, w3, w4, l0, s1, s2, s3, s4, c0, c1, c2, c3, c4, k0, k1, k2, k3, m);
    FeAddMultiple(Poly(w0, w1, w2, w3, w4) - TWO64 * Lost(k0, k1, k2, k3, m), -(c4 as int));
    LossShows(Poly(w0, w1, w2, w3, w4), k0, k1, k2, k3, m);
    ChainFits(w0, w1, w2, w3, w4, l0, c0, c1, c2, c3, c4, k0, k1, k2, k3, m);
    ChainTop(w0, w1, w2, w3, w4, c0, c1, c2, c3, c4, k0, k1, k2, k3);
  }

  lemma ChainTop(w0: nat, w1: nat, w2: nat, w3: nat, w4: nat,
                 c0: limb, c1: limb, c2: limb, c3: limb, c4: nat, k0: nat, k1: nat, k2: nat, k3: nat)
    requires w0 / TWO51 == c0 + TWO64 * k0 && (w1 + c0) / TWO51 == c1 + TWO64 * k1
      && (w2 + c1) / TWO51 == c2 + TWO64 * k2
    requires (w3 + c2) / TWO51 == c3 + TWO64 * k3 && (w4 + c3) / TWO51 == c4
    ensures k0 == 0 && k1 == 0 && k2 == 0 && k3 == 0 ==> TopCarry(w0, w1, w2, w3, w4) == c4
  {
  }

  lemma SmallScale(w0: nat, w1: nat, w2: nat, w3: nat, w4: nat, k: limb)
    requires k < 0x1_0000_0000
    ensures w0 <= TWO55 * k && w1 <= TWO55 * k && w2 <= TWO55 * k && w3 <= TWO55 * k && w4 <= TWO55 * k ==>
      CarriesFit(w0, w1, w2, w3, w4) && TopCarry(w0, w1, w2, w3, w4) <= 16 * k
  {
  }

  lemma FoldLoses(s: limb, c: nat)
    ensures s + 19 * c < TWO128 ==> U64(s + c * 19) == s + 19 * c - TWO64 * ((s + 19 * c) / TWO64)
  {
  }

  lemma ScalarBounds(x0: limb, x1: limb, x2: limb, x3: limb, x4: limb, k: limb)
    ensures Wide(x0, k) <= LARGEST && Wide(x1, k) <= LARGEST
    ensures Wide(x2, k) <= LARGEST && Wide(x3, k) <= LARGEST
    ensures Wide(x4, k) <= LARGEST
    ensures x0 < TWO55 && x1 < TWO55 && x2 < TWO55 && x3 < TWO55 && x4 < TWO55 ==>
      && Wide(x0, k) <= TWO55 * k && Wide(x1, k) <= TWO55 * k && Wide(x2, k) <= TWO55 * k
      && Wide(x3, k) <= TWO55 * k && Wide(x4, k) <= TWO55 * k
    ensures Poly(x0, x1, x2, x3, x4) * k == Poly(Wide(x0, k), Wide(x1, k), Wide(x2, k), Wide(x3, k), Wide(x4, k))
  {
    ScalarBound(x0, k);
    ScalarBound(x1, k);
    ScalarBound(x2, k);
    ScalarBound(x3, k);
    ScalarBound(x4, k);
    RowValue(k, x0, x1, x2, x3, x4);
    WideComm(k, x0);
    WideComm(k, x1);
    WideComm(k, x2);
    WideComm(k, x3);
    WideComm(k, x4);
    hide Wide, Poly;
  }

  lemma ScalarBound(x: limb, k: limb)
    ensures Wide(x, k) <= LARGEST
    ensures x < TWO55 ==> Wide(x, k) <= TWO55 * k
  {
    MulMono(x, TWO64 - 1, k);
    MulMono(k, TWO64 - 1, TWO64 - 1);
    if x < TWO55 {
      MulMono(x, TWO55, k);
    }
  }
}

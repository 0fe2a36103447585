/** The 64-bit Curve25519 code: Montgomery step, constant-time swap, scalar multiplication, inversion. */
module Curve25519c64 {
  import opened Arithmetic
  import opened Field25519
  import opened Felem64
  import opened Encoding64
  import opened Rfc7748
  import opened InversionChain
  import opened LeadingZero

  // ----- bounds of sums and differences -----

  /** FSum and FDifferenceBackwards on multiplication outputs give multiplication inputs. */
  lemma SumOfReduced(x: seq<limb>, y: seq<limb>, s: seq<limb>)
    requires Reduced(x) && Reduced(y) && |s| == 5
    requires forall i :: 0 <= i < 5 ==> s[i] == x[i] + y[i]
    ensures Bounded(s, BOUND)
  {
  }

  lemma DifferenceOfReduced(y: seq<limb>, s: seq<limb>)
    requires Reduced(y) && |s| == 5
    requires forall i :: 0 <= i < 5 ==> s[i] <= y[i] + 0x40_0000_0000_0000 - 8
    ensures Bounded(s, BOUND)
  {
  }

  lemma ScaledSum(x: seq<limb>, y: seq<limb>, s: seq<limb>)
    requires Bounded(x, 0xF_0000_0000_0000) && Reduced(y) && |s| == 5
    requires forall i :: 0 <= i < 5 ==> s[i] == x[i] + y[i]
    ensures Bounded(s, BOUND)
  {
  }

  /** The first four lines of fmonty on one pair: x' = x + z and z' = x - z. */
  method SumAndDifference(x: array<limb>, z: array<limb>)
    requires x.Length == 5 && z.Length == 5 && x != z && Reduced(x[..]) && Reduced(z[..])
    modifies x, z
    ensures Bounded(x[..], BOUND) && Bounded(z[..], BOUND)
    ensures FeOf(x[..]) == old(Add(FeOf(x[..]), FeOf(z[..])))
    ensures FeOf(z[..]) == old(Sub(FeOf(x[..]), FeOf(z[..])))
  {
    hide FeOf, Add, Sub;
    var origx := new limb[5](i requires 0 <= i < 5 reads x => x[i]);
    assert origx[..] == x[..];
    FSum(x, z);
    SumOfReduced(origx[..], z[..], x[..]);
    FDifferenceBackwards(z, origx);
    DifferenceOfReduced(origx[..], z[..]);
  }

  method FMonty(x2: array<limb>, z2: array<limb>, x3: array<limb>, z3: array<limb>,
                x: array<limb>, z: array<limb>, xprime: array<limb>, zprime: array<limb>, qmqp: array<limb>)
    requires x2.Length == 5 && z2.Length == 5 && x3.Length == 5 && z3.Length == 5
    requires x != z && x != xprime && x != zprime && z != xprime && z != zprime && xprime != zprime
    requires x3 != x && x3 != z && z3 != x && z3 != z && x3 != z3 && x2 != x3 && x2 != z3 && z2 != x2 && z2 != x3
      && z2 != z3
    requires qmqp != x && qmqp != z && qmqp != xprime && qmqp != zprime && qmqp != x3
    requires Reduced(x[..]) && Reduced(z[..]) && Reduced(xprime[..]) && Reduced(zprime[..]) && Reduced(qmqp[..])
    modifies x2, z2, x3, z3, x, z, xprime, zprime
    ensures Reduced(x2[..]) && Reduced(z2[..]) && Reduced(x3[..]) && Reduced(z3[..])
    ensures Ladder(Point(FeOf(x2[..]), FeOf(z2[..])), Point(FeOf(x3[..]), FeOf(z3[..])))
         == Step(old(FeOf(qmqp[..])),
           old(Ladder(Point(FeOf(x[..]), FeOf(z[..])), Point(FeOf(xprime[..]), FeOf(zprime[..])))))
  {
    hide FeOf, Add, Sub, Mul, Bounded, DoWhileTurns;
    ReducedIsBounded(x[..]);
    ReducedIsBounded(z[..]);
    ReducedIsBounded(xprime[..]);
    ReducedIsBounded(zprime[..]);
    ReducedIsBounded(qmqp[..]);
    ghost var q, r := Point(FeOf(x[..]), FeOf(z[..])), Point(FeOf(xprime[..]), FeOf(zprime[..]));
    ghost var x1 := FeOf(qmqp[..]);
    SumAndDifference(x, z);
    SumAndDifference(xprime, zprime);
    DifferentialAddition(x3, z3, x, z, xprime, zprime, qmqp);
    Doubling(x2, z2, x, z);
    StepOrder(x1, q, r);
  }

  /** The code's operand orders against those of section 5 of RFC 7748. */
  lemma StepOrder(x1: fe, q: Point, r: Point)
    ensures var a, b := Add(q.x, q.z), Sub(q.x, q.z);
            var cb, da := Mul(Add(r.x, r.z), b), Mul(a, Sub(r.x, r.z));
            DiffAdd(x1, q, r) == Point(Sqr(Add(cb, da)), Mul(Sqr(Sub(cb, da)), x1))
    ensures var aa, bb := Sqr(Add(q.x, q.z)), Sqr(Sub(q.x, q.z));
            var e := Sub(aa, bb);
            Double(q) == Point(Mul(aa, bb), Mul(e, Add(Mul(e, A24), aa)))
  {
    var a, b := Add(q.x, q.z), Sub(q.x, q.z);
    var cb, da := Mul(Add(r.x, r.z), b), Mul(a, Sub(r.x, r.z));
    AddComm(cb, da);
    SqrOfNegation(cb, da);
    hide Mul, Add, Sub;
    MulComm(a, Sub(r.x, r.z));
    MulComm(Sqr(Sub(cb, da)), x1);
    var aa, bb := Sqr(a), Sqr(b);
    var e := Sub(aa, bb);
    MulComm(e, A24);
    AddComm(Mul(e, A24), aa);
  }

  lemma AddComm(x: fe, y: fe)
    ensures Add(x, y) == Add(y, x)
  {
  }

  lemma SqrOfNegation(x: fe, y: fe)
    ensures Sqr(Sub(x, y)) == Sqr(Sub(y, x))
  {
    FeMul(x - y, x - y);
    FeMul(y - x, y - x);
    assert (x - y) * (x - y) == (y - x) * (y - x);
  }

  lemma ReducedIsBounded(s: seq<limb>)
    requires Reduced(s)
    ensures |s| == 5 && Bounded(s, BOUND)
    ensures forall i :: 0 <= i < 5 ==> s[i] <= TWO51
  {
  }

  /** The Q + Q' half of fmonty. */
  method DifferentialAddition(x3: array<limb>, z3: array<limb>, x: array<limb>, z: array<limb>,
                              xprime: array<limb>, zprime: array<limb>, qmqp: array<limb>)
    requires x3.Length == 5 && z3.Length == 5 && x3 != z3 && x3 != qmqp
    requires Bounded(x[..], BOUND) && Bounded(z[..], BOUND) && Bounded(xprime[..], BOUND) && Bounded(zprime[..], BOUND)
    requires Bounded(qmqp[..], BOUND)
    modifies x3, z3
    ensures Reduced(x3[..]) && Reduced(z3[..])
    ensures var cb := old(Mul(FeOf(xprime[..]), FeOf(z[..])));
            var da := old(Mul(FeOf(x[..]), FeOf(zprime[..])));
            FeOf(x3[..]) == Sqr(Add(cb, da)) && FeOf(z3[..]) == Mul(Sqr(Sub(cb, da)), old(FeOf(qmqp[..])))
  {
    hide FeOf, Add, Sub, Mul, Bounded, ProductFits;
    var xxprime, zzprime, zzzprime := new limb[5], new limb[5], new limb[5];
    FMul(xxprime, xprime, z);
    FMul(zzprime, x, zprime);
    SumAndDifference(xxprime, zzprime);
    FSquareTimes(x3, xxprime, 1);
    FSquareTimes(zzzprime, zzprime, 1);
    ReducedIsBounded(zzzprime[..]);
    FMul(z3, zzzprime, qmqp);
  }

  /** The 2Q half of fmonty. */
  method Doubling(x2: array<limb>, z2: array<limb>, x: array<limb>, z: array<limb>)
    requires x2.Length == 5 && z2.Length == 5 && x2 != z2
    requires Bounded(x[..], BOUND) && Bounded(z[..], BOUND)
    modifies x2, z2
    ensures Reduced(x2[..]) && Reduced(z2[..])
    ensures var aa := old(Sqr(FeOf(x[..])));
            var bb := old(Sqr(FeOf(z[..])));
            var e := Sub(aa, bb);
            FeOf(x2[..]) == Mul(aa, bb) && FeOf(z2[..]) == Mul(e, Add(Mul(e, A24), aa))
  {
    hide FeOf, Add, Sub, Mul, ScaleFits, ProductFits, Bounded;
    var xx, zz, zzz := new limb[5], new limb[5], new limb[5];
    FSquareTimes(xx, x, 1);
    FSquareTimes(zz, z, 1);
    ReducedIsBounded(xx[..]);
    ReducedIsBounded(zz[..]);
    FMul(x2, xx, zz);
    FDifferenceBackwards(zz, xx);
    DifferenceOfReduced(xx[..], zz[..]);
    FScalarProduct(zzz, zz, 121665);
    ghost var scaled := zzz[..];
    FSum(zzz, xx);
    ScaledSum(scaled, xx[..], zzz[..]);
    FMul(z2, zz, zzz);
  }

  // ----- constant-time swap -----

  function XorLimb(x: limb, y: limb): limb {
    Pow2Table();
    XorBound(x, y, 64);
    Xor(x, y)
  }

  function AndLimb(x: limb, y: limb): limb {
    AndAtMost(x, y);
    And(x, y)
  }

  /** The mask -iswap keeps all bits or none, so the two XORs swap or do nothing. */
  lemma MaskedXor(a: limb, b: limb, iswap: limb)
    requires iswap <= 1
    ensures var x := AndLimb(U64(-(iswap as int)), XorLimb(a, b));
            XorLimb(a, x) == (if iswap == 1 then b else a) && XorLimb(b, x) == (if iswap == 1 then a else b)
  {
    assert U64(-1) == TWO64 - 1 && U64(0) == 0;
    hide Xor, And, U64;
    if iswap == 1 {
      AllOnes(XorLimb(a, b));
      XorCancel(a, b);
    } else {
      NoOnes(XorLimb(a, b));
      XorZero(a);
      XorZero(b);
    }
  }

  lemma AllOnes(d: limb)
    ensures And(TWO64 - 1, d) == d
  {
    Pow2Table();
    hide Pow2, And;
    AndComm(TWO64 - 1, d);
    MaskIsMod(d, 64, TWO64);
  }

  lemma NoOnes(d: nat)
    ensures And(0, d) == 0
  {
  }

  lemma XorZero(x: nat)
    ensures Xor(x, 0) == x
  {
  }

  method SwapConditional(a: array<limb>, b: array<limb>, iswap: limb)
    requires a.Length == 5 && b.Length == 5 && a != b && iswap <= 1
    modifies a, b
    ensures a[..] == (if iswap == 1 then old(b[..]) else old(a[..]))
    ensures b[..] == (if iswap == 1 then old(a[..]) else old(b[..]))
  {
    hide U64, AndLimb, XorLimb;
    var swap := U64(-(iswap as int));
    for i := 0 to 5
      invariant forall j :: 0 <= j < i ==> a[j] == (if iswap == 1 then old(b[j]) else old(a[j]))
      invariant forall j :: 0 <= j < i ==> b[j] == (if iswap == 1 then old(a[j]) else old(b[j]))
      invariant forall j :: i <= j < 5 ==> a[j] == old(a[j]) && b[j] == old(b[j])
    {
      MaskedXor(a[i], b[i], iswap);
      var x := AndLimb(swap, XorLimb(a[i], b[i]));
      a[i] := XorLimb(a[i], x);
      b[i] := XorLimb(b[i], x);
    }
  }

  // ----- the ladder loop -----

  /** The eight pointers of cmult: current and next coordinates of nQ and of (n+1)Q. */
  datatype Pointers = Pointers(nqx: array<limb>, nqz: array<limb>, nqpqx: array<limb>, nqpqz: array<limb>,
                               nqx2: array<limb>, nqz2: array<limb>, nqpqx2: array<limb>, nqpqz2: array<limb>)
  {
    function Arrays(): set<object> { {nqx, nqz, nqpqx, nqpqz, nqx2, nqz2, nqpqx2, nqpqz2} }

    ghost predicate FiveLimbs() {
      && nqx.Length == 5 && nqz.Length == 5 && nqpqx.Length == 5 && nqpqz.Length == 5
      && nqx2.Length == 5 && nqz2.Length == 5 && nqpqx2.Length == 5 && nqpqz2.Length == 5
    }

    /** The eight arrays and q are nine different five-limb arrays. */
    ghost predicate Distinct(q: array<limb>) {
      FiveLimbs() && q.Length == 5 && |Arrays() + {q}| == 9
    }

    ghost predicate Usable()
      reads nqx, nqz, nqpqx, nqpqz
    {
      Reduced(nqx[..]) && Reduced(nqz[..]) && Reduced(nqpqx[..]) && Reduced(nqpqz[..])
    }

    /** The two projective points held in the current arrays. */
    ghost function State(): Ladder
      requires FiveLimbs()
      reads nqx, nqz, nqpqx, nqpqz
    {
      Ladder(Point(FeOf(nqx[..]), FeOf(nqz[..])), Point(FeOf(nqpqx[..]), FeOf(nqpqz[..])))
    }

    /** The pointer swaps at the end of a turn. */
    function Swapped(): Pointers { Pointers(nqx2, nqz2, nqpqx2, nqpqz2, nqx, nqz, nqpqx, nqpqz) }
  }

  /** One turn of the inner loop of cmult: swap, step, swap back, exchange the pointers. */
  method LadderTurn(w: Pointers, bit: limb, q: array<limb>) returns (w': Pointers)
    requires bit <= 1 && w.FiveLimbs() && w.Distinct(q) && w.Usable() && Reduced(q[..])
    modifies w.Arrays()
    ensures w'.FiveLimbs() && w'.Distinct(q) && w'.Usable() && w'.Arrays() == w.Arrays() && q[..] == old(q[..])
    ensures w'.State() == CSwap(bit == 1, Step(FeOf(q[..]), CSwap(bit == 1, old(w.State()))))
  {
    hide FeOf, Step, Bounded, ProductFits;
    SwapConditional(w.nqx, w.nqpqx, bit);
    SwapConditional(w.nqz, w.nqpqz, bit);
    FMonty(w.nqx2, w.nqz2, w.nqpqx2, w.nqpqz2, w.nqx, w.nqz, w.nqpqx, w.nqpqz, q);
    SwapConditional(w.nqx2, w.nqpqx2, bit);
    SwapConditional(w.nqz2, w.nqpqz2, bit);
    w' := w.Swapped();
    assert w'.Arrays() == w.Arrays();
  }

  /** byte >> 7 after j left shifts is the scalar bit the ladder has reached. */
  lemma ScalarBit(n: seq<byte>, i: nat, j: nat, shifted: byte)
    requires |n| == 32 && i < 32 && j < 8 && shifted == n[31 - i] * Pow2(j) % 256
    ensures (shifted / 128 == 1) == BitAt(LE(n), 255 - (8 * i + j))
  {
    hide LE, Pow2;
    var m, r := 31 - i, 7 - j;
    TopBit(n[m], j, shifted);
    ByteAt(n, m);
    BitOfLowByte(LE(n) / Pow2(8 * m), r);
    DivDivPow2(LE(n), 8 * m, r);
    assert 8 * m + r == 255 - (8 * i + j);
  }

  lemma ByteAt(n: seq<byte>, m: nat)
    requires m < |n|
    ensures n[m] == LE(n) / Pow2(8 * m) % 256
  {
    hide LE, Pow2;
    LESlice(n, m, 1);
    LESingle(n[m]);
    assert n[m..m + 1] == [n[m]];
    Pow2Table();
  }

  lemma DivDivPow2(x: nat, a: nat, b: nat)
    ensures x / Pow2(a) / Pow2(b) == x / Pow2(a + b)
  {
    DivDiv(x, Pow2(a), Pow2(b));
    Pow2Add(a, b);
  }

  lemma TopBit(b: byte, j: nat, shifted: byte)
    requires j < 8 && shifted == b * Pow2(j) % 256
    ensures shifted / 128 == b / Pow2(7 - j) % 2
  {
    Pow2Table();
    assert Pow2(7) == 128;
    Pow2Double(7 - j);
    hide Pow2;
    Pow2Add(j, 8 - j);
    Pow2Add(j, 7 - j);
    TopBitArithmetic(b, Pow2(j), Pow2(7 - j));
  }

  lemma TopBitArithmetic(b: nat, m: nat, h: nat)
    requires 0 < m && 0 < h && m * h == 128
    ensures b * m % 256 / 128 == b / h % 2
  {
    var y := b * m;
    assert m * (2 * h) == 256;
    DivModUnique(y, m, b, 0);
    DivDiv(y, m, 2 * h);
    DivDiv(y % 256, m, h);
    DivDiv(b, h, 2);
  }

  lemma BitOfLowByte(y: nat, r: nat)
    requires r < 8
    ensures y % 256 / Pow2(r) % 2 == y / Pow2(r) % 2
  {
    hide Pow2;
    assert Pow2(8) == 256 by { Pow2Table(); }
    Pow2Add(r, 8 - r);
    Pow2Double(7 - r);
    LowQuotient(y, Pow2(r), Pow2(7 - r));
  }

  lemma LowQuotient(y: nat, a: nat, b: nat)
    requires 0 < a && 0 < b && a * (2 * b) == 256
    ensures y % 256 / a % 2 == y / a % 2
  {
    DivDiv(y, a, 2 * b);
    DivDiv(y / a, 2, b);
  }

  lemma Pow2Double(k: nat)
    ensures Pow2(k + 1) == 2 * Pow2(k)
  {
  }

  /** limb a[5] = {x} */
  method NewElement(x: limb) returns (a: array<limb>)
    requires x <= 1
    ensures fresh(a) && a.Length == 5 && Reduced(a[..]) && FeOf(a[..]) == x
  {
    hide FeOf;
    a := new limb[5](i => if i == 0 then x else 0);
    assert a[..] == [x, 0, 0, 0, 0];
    SmallElement(x);
  }

  lemma SmallElement(x: limb)
    requires x <= 1
    ensures Reduced([x, 0, 0, 0, 0]) && FeOf([x, 0, 0, 0, 0]) == x
  {
  }

  /** memcpy of one element */
  method CopyElement(target: array<limb>, source: array<limb>)
    requires target.Length == 5 && source.Length == 5
    modifies target
    ensures target[..] == old(source[..])
  {
    forall i | 0 <= i < 5 {
      target[i] := source[i];
    }
  }

  method StartPointers(q: array<limb>) returns (w: Pointers)
    requires Reduced(q[..])
    ensures fresh(w.Arrays()) && w.FiveLimbs() && w.Distinct(q) && w.Usable() && w.State() == Start(FeOf(q[..]))
  {
    hide FeOf, Bounded, ProductFits;
    ReducedIsBounded(q[..]);
    var a := NewElement(0);
    var b := NewElement(1);
    var c := NewElement(1);
    var d := NewElement(0);
    var e := NewElement(0);
    var f := NewElement(1);
    var g := NewElement(0);
    var h := NewElement(1);
    CopyElement(a, q);
    w := Pointers(c, d, a, b, g, h, e, f);
  }

  method CMult(resultx: array<limb>, resultz: array<limb>, n: array<byte>, q: array<limb>)
    requires resultx.Length == 5 && resultz.Length == 5 && n.Length == 32 && resultx != resultz
    requires Reduced(q[..])
    modifies resultx, resultz
    ensures Reduced(resultx[..]) && Reduced(resultz[..])
    ensures Point(FeOf(resultx[..]), FeOf(resultz[..])) == Eager(old(FeOf(q[..])), LE(n[..]), 256, 0).two
  {
    hide FeOf, Step, Bounded, Pow2, LE, BitAt, Pointers.Distinct;
    ReducedIsBounded(q[..]);
    ghost var u, k := FeOf(q[..]), LE(n[..]);
    var w := StartPointers(q);
    for i := 0 to 32
      invariant fresh(w.Arrays()) && w.FiveLimbs() && w.Distinct(q) && w.Usable()
      invariant q[..] == old(q[..])
      invariant w.State() == Eager(u, k, 256, 256 - 8 * i)
    {
      w := LadderByte(w, n[31 - i], q, i, n[..]);
    }
    ReducedIsBounded(w.nqx[..]);
    ReducedIsBounded(w.nqz[..]);
    CopyElement(resultx, w.nqx);
    CopyElement(resultz, w.nqz);
  }

  /** The inner loop of cmult: eight bits of one scalar byte, the highest first. */
  method LadderByte(w0: Pointers, byte0: byte, q: array<limb>, ghost i: nat, ghost n: seq<byte>) returns (w: Pointers)
    requires |n| == 32 && i < 32 && byte0 == n[31 - i]
    requires w0.FiveLimbs() && w0.Distinct(q) && w0.Usable() && Reduced(q[..]) && |q[..]| == 5
    requires w0.State() == Eager(FeOf(q[..]), LE(n), 256, 256 - 8 * i)
    modifies w0.Arrays()
    ensures w.Arrays() == w0.Arrays() && w.FiveLimbs() && w.Distinct(q) && w.Usable() && q[..] == old(q[..])
    ensures w.State() == Eager(old(FeOf(q[..])), LE(n), 256, 256 - 8 * i - 8)
  {
    hide FeOf, Step, Bounded, Pow2, LE, BitAt, Pointers.Distinct, Pointers.FiveLimbs, Pointers.Usable, Pointers.State;
    hide Pointers.Arrays;
    ghost var k, u := LE(n), FeOf(q[..]);
    w := w0;
    var byte := byte0;
    FirstShift(byte);
    for j := 0 to 8
      invariant w.Arrays() == w0.Arrays() && w.FiveLimbs() && w.Distinct(q) && w.Usable()
      invariant q[..] == old(q[..])
      invariant w.State() == Eager(u, k, 256, 256 - 8 * i - j)
      invariant byte == byte0 * Pow2(j) % 256
    {
      var bit := byte / 128;
      ScalarBit(n, i, j, byte);
      NextShift(byte0, j, byte);
      w := LadderTurn(w, bit, q);
      byte := (byte as int) * 2 % 256;
    }
  }

  lemma FirstShift(b: byte)
    ensures b == b * Pow2(0) % 256
  {
  }

  lemma NextShift(b: byte, j: nat, shifted: byte)
    requires shifted == b * Pow2(j) % 256
    ensures shifted * 2 % 256 == b * Pow2(j + 1) % 256
  {
    Pow2Double(j);
    Doubling256(b * Pow2(j));
    assert b * (2 * Pow2(j)) == 2 * (b * Pow2(j));
  }

  lemma Doubling256(x: nat)
    ensures x % 256 * 2 % 256 == 2 * x % 256
  {
    var q, r := x / 256, x % 256;
    assert 2 * x == r * 2 + (2 * q) * 256;
    ModAddMultiple(r * 2, 2 * q, 256);
  }

  // ----- inversion -----

  /** fsquare_times then fmul: the repeated pair of the chain, on elements that are runs of ones. */
  method SquareAndMultiply(dst: array<limb>, t0: array<limb>, src: array<limb>, count: limb, factor: array<limb>,
                           ghost z: fe, ghost a: nat)
    requires dst.Length == 5 && t0.Length == 5 && 0 < count && t0 != factor
    requires src.Length == 5 && Bounded(src[..], BOUND) && FeOf(src[..]) == Pow(z, Ones(a))
    requires factor.Length == 5 && Bounded(factor[..], BOUND) && FeOf(factor[..]) == Pow(z, Ones(count))
    modifies dst, t0
    ensures Bounded(dst[..], BOUND) && FeOf(dst[..]) == Pow(z, Ones(a + count))
  {
    hide FeOf, Mul, Pow, SqrTimes, Ones, Bounded, ProductFits;
    FSquareTimes(t0, src, count);
    FMul(dst, t0, factor);
    ExtendRun(z, a, count);
  }

  /** The start of the chain: a = z^11, b = z^31. */
  method StartChain(a: array<limb>, b: array<limb>, t0: array<limb>, z: array<limb>)
    requires a.Length == 5 && b.Length == 5 && t0.Length == 5 && |{a, b, t0, z}| == 4
    requires z.Length == 5 && Bounded(z[..], BOUND)
    modifies a, b, t0
    ensures Bounded(a[..], BOUND) && FeOf(a[..]) == Pow(FeOf(z[..]), 11)
    ensures Bounded(b[..], BOUND) && FeOf(b[..]) == Pow(FeOf(z[..]), Ones(5))
  {
    hide FeOf, Mul, Pow, SqrTimes, Ones, Bounded, ProductFits;
    FSquareTimes(a, z, 1);
    FSquareTimes(t0, a, 2);
    FMul(b, t0, z);
    FMul(a, b, a);
    FSquareTimes(t0, a, 1);
    FMul(b, t0, b);
    FirstExponents(FeOf(z[..]));
  }

  /** From z^(2^5 - 1) to z^(2^50 - 1), both in b. */
  method ChainTo50(b: array<limb>, c: array<limb>, t0: array<limb>, ghost z: fe)
    requires b.Length == 5 && c.Length == 5 && t0.Length == 5 && |{b, c, t0}| == 3
    requires Bounded(b[..], BOUND) && FeOf(b[..]) == Pow(z, Ones(5))
    modifies b, c, t0
    ensures Bounded(b[..], BOUND) && FeOf(b[..]) == Pow(z, Ones(50))
  {
    hide FeOf, Mul, Pow, SqrTimes, Ones, Bounded, ProductFits;
    SquareAndMultiply(b, t0, b, 5, b, z, 5);
    SquareAndMultiply(c, t0, b, 10, b, z, 10);
    SquareAndMultiply(t0, t0, c, 20, c, z, 20);
    SquareAndMultiply(b, t0, t0, 10, b, z, 40);
  }

  /** From z^(2^50 - 1) in b to z^(2^250 - 1) in t0. */
  method ChainTo250(b: array<limb>, c: array<limb>, t0: array<limb>, ghost z: fe)
    requires b.Length == 5 && c.Length == 5 && t0.Length == 5 && |{b, c, t0}| == 3
    requires Bounded(b[..], BOUND) && FeOf(b[..]) == Pow(z, Ones(50))
    modifies c, t0
    ensures Bounded(t0[..], BOUND) && FeOf(t0[..]) == Pow(z, Ones(250))
  {
    hide FeOf, Mul, Pow, SqrTimes, Ones, Bounded, ProductFits;
    SquareAndMultiply(c, t0, b, 50, b, z, 50);
    SquareAndMultiply(t0, t0, c, 100, c, z, 100);
    SquareAndMultiply(t0, t0, t0, 50, b, z, 200);
  }

  /** out = z^(p-2). out may be any array, including z. */
  method CRecip(out: array<limb>, z: array<limb>)
    requires out.Length == 5 && Bounded(z[..], BOUND)
    modifies out
    ensures FeOf(out[..]) == Pow(old(FeOf(z[..])), Inversion())
    ensures Reduced(out[..])
  {
    assert |z[..]| == 5;
    hide FeOf, Mul, Pow, SqrTimes, Ones, Inversion, Bounded, ProductFits;
    ghost var x := FeOf(z[..]);
    var a, t0, b, c := new limb[5], new limb[5], new limb[5], new limb[5];
    StartChain(a, b, t0, z);
    ChainTo50(b, c, t0, x);
    ChainTo250(b, c, t0, x);
    FSquareTimes(t0, t0, 5);
    FMul(out, t0, a);
    LastExponent(x);
  }

  // ----- the public function -----

  /** A null base point stands for the 32 bytes 9, 0, ..., 0. */
  ghost function BasePoint(basepoint: array?<byte>): seq<byte>
    reads basepoint
  {
    if basepoint == null then [9] + seq(31, i => 0) else basepoint[..]
  }

  /**
   * The shared-secret function: the 256-bit ladder on the clamped scalar and the decoded coordinate,
   * divided out and written canonically. It is X25519 of section 5 of RFC 7748 whenever (4u)^(p-1) = 1,
   * which for a prime p is every u that is not 0 modulo p.
   */
  method Curve25519Donna(mypublic: array<byte>, secret: array<byte>, basepoint: array?<byte>)
    requires mypublic.Length == 32 && secret.Length == 32 && (basepoint != null ==> basepoint.Length == 32)
    modifies mypublic
    ensures var k := LE(Clamp(old(secret[..])));
            var u := Fe(DecodeU(old(BasePoint(basepoint))));
            && mypublic[..] == LEBytes(Affine(Eager(u, k, 256, 0).two), 32)
            && (u == 0 || Pow(Fe(4 * u), P - 1) == 1 ==> mypublic[..] == LEBytes(X25519(k, u), 32))
  {
    hide FeOf, Mul, Pow, Pow2, Inversion, LE, Step, LEBytes, Bounded, Eager, Or, And, DecodeU;
    ghost var s, base := secret[..], BasePoint(basepoint);
    var point := new byte[32](i => if i == 0 then 9 else 0);
    if basepoint != null {
      point := basepoint;
    }
    assert point[..] == base;
    var e := new byte[32](i requires 0 <= i < 32 reads secret => secret[i]);
    assert e[..] == s;
    e[0] := AndByte(e[0], 248);
    e[31] := AndByte(e[31], 127);
    e[31] := OrByte(e[31], 64);
    assert e[..] == Clamp(s);
    var bp, x, z, zmone := new limb[5], new limb[5], new limb[5], new limb[5];
    FExpand(bp, point);
    DecodedElement(bp[..], base);
    CMult(x, z, e, bp);
    ReducedIsBounded(x[..]);
    ReducedIsBounded(z[..]);
    CRecip(zmone, z);
    ReducedIsBounded(zmone[..]);
    FMul(z, x, zmone);
    ReducedIsBounded(z[..]);
    FContract(mypublic, z);
    MatchesStandard(s, Fe(DecodeU(base)));
  }

  lemma DecodedElement(x: seq<limb>, b: seq<byte>)
    requires Bounded(x, TWO51 - 1) && Value(x) == DecodeU(b)
    ensures |x| == 5 && Reduced(x) && FeOf(x) == Fe(DecodeU(b))
  {
  }

  lemma MatchesStandard(secret: seq<byte>, u: fe)
    requires |secret| == 32
    ensures var k := LE(Clamp(secret));
            u == 0 || Pow(Fe(4 * u), P - 1) == 1 ==> Affine(Eager(u, k, 256, 0).two) == X25519(k, u)
  {
    hide Pow2, LE, Clamp, Fe, Pow, Eager, X25519, Affine;
    ClampValue(secret);
    if u == 0 || Pow(Fe(4 * u), P - 1) == 1 {
      TopBitIgnored(LE(Clamp(secret)), u);
    }
  }
}

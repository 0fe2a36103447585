/** The X25519 function of section 5 of RFC 7748 and what its Montgomery ladder computes. */
module Rfc7748 {
  import opened Arithmetic
  import opened Field25519

  /** Projective x-coordinates (X : Z). */
  datatype Point = Point(x: fe, z: fe)

  datatype Ladder = Ladder(two: Point, three: Point)

  const A24: fe := 121665

  /** The formulas for 2Q in section 5. */
  function Double(q: Point): Point {
    var aa := Sqr(Add(q.x, q.z));
    var bb := Sqr(Sub(q.x, q.z));
    var e := Sub(aa, bb);
    Point(Mul(aa, bb), Mul(e, Add(aa, Mul(A24, e))))
  }

  /** The formulas for Q + Q' in section 5, given the x-coordinate of Q - Q'. */
  function DiffAdd(x1: fe, q: Point, r: Point): Point {
    var da := Mul(Sub(r.x, r.z), Add(q.x, q.z));
    var cb := Mul(Add(r.x, r.z), Sub(q.x, q.z));
    Point(Sqr(Add(da, cb)), Mul(x1, Sqr(Sub(da, cb))))
  }

  function Step(x1: fe, s: Ladder): Ladder {
    Ladder(Double(s.two), DiffAdd(x1, s.two, s.three))
  }

  function CSwap(swap: bool, s: Ladder): Ladder {
    if swap then Ladder(s.three, s.two) else s
  }

  function Start(x1: fe): Ladder { Ladder(Point(1, 0), Point(x1, 1)) }

  /** Affine x-coordinate: X * Z^(p-2). */
  function Affine(q: Point): fe { Mul(q.x, Pow(q.z, Inversion())) }

  function Inversion(): nat { P - 2 }

  function BitAt(k: nat, t: nat): bool { k / Pow2(t) % 2 == 1 }

  /** The loop of section 5: the swap is deferred and merged with the next one. */
  function RfcLoop(x1: fe, k: nat, t: nat, s: Ladder, swap: bool): Ladder
    decreases t
  {
    if t == 0 then CSwap(swap, s)
    else
      var kt := BitAt(k, t - 1);
      RfcLoop(x1, k, t - 1, Step(x1, CSwap(swap != kt, s)), kt)
  }

  /** X25519(k, u) on a decoded scalar and coordinate. */
  function X25519(k: nat, u: fe): fe {
    Affine(RfcLoop(u, k, 255, Start(u), false).two)
  }

  /** decodeScalar25519 of section 5. */
  function Clamp(b: seq<byte>): seq<byte>
    requires |b| == 32
  {
    b[0 := AndByte(b[0], 248)][31 := OrByte(AndByte(b[31], 127), 64)]
  }

  /** Clamping clears the three low bits and the top bit and sets bit 254. */
  lemma {:induction false} ClampValue(b: seq<byte>)
    requires |b| == 32
    ensures LE(Clamp(b)) == Pow2(254) + 8 * (LE(b) / 8 % Pow2(251))
    ensures LE(Clamp(b)) < Pow2(255)
  {
    hide And, Or, Pow2, LE, AndByte, OrByte;
    var c := Clamp(b);
    var mid := b[1..31];
    EndBytes(b[0], b[31]);
    assert b == [b[0]] + mid + [b[31]] && c == [c[0]] + mid + [c[31]];
    ThreeParts(b[0], mid, b[31]);
    ThreeParts(c[0], mid, c[31]);
    ClampArithmetic(b[0], LE(mid), b[31]);
  }

  lemma EndBytes(low: byte, high: byte)
    ensures AndByte(low, 248) == low - low % 8
    ensures OrByte(AndByte(high, 127), 64) == high % 64 + 64
  {
    LowEnd(low);
    HighEnd(high);
  }

  lemma LowEnd(low: byte)
    ensures And(low, 248) == low - low % 8
  {
    hide And;
    AndTwice(low, 124);
    AndTwice(low / 2, 62);
    AndTwice(low / 4, 31);
    assert low / 2 / 2 == low / 4 && low / 4 / 2 == low / 8;
    Mask31(low / 8);
  }

  lemma Mask31(x: nat)
    ensures And(x, 31) == x % 32
  {
    assert Pow2(5) == 32;
    hide And, Pow2;
    MaskIsMod(x, 5, 32);
  }

  lemma Mask127(x: nat)
    ensures And(x, 127) == x % 128
  {
    assert Pow2(7) == 128;
    hide And, Pow2;
    MaskIsMod(x, 7, 128);
  }

  lemma HighEnd(high: byte)
    ensures Or(And(high, 127), 64) == high % 64 + 64
  {
    hide And, Or;
    Mask127(high);
    SetBit6(high % 128);
    assert high % 128 % 64 == high % 64;
  }

  lemma SetBit6(v: nat)
    requires v < 128
    ensures Or(v, 64) == v % 64 + 64
  {
    assert Or(v / 64, 1) == 1 by { OrOne(v / 64); }
    hide Or;
    OrEven(v, 32);
    OrEven(v / 2, 16);
    OrEven(v / 4, 8);
    assert v / 2 / 2 == v / 4 && v / 4 / 2 == v / 8;
    OrEven(v / 8, 4);
    OrEven(v / 16, 2);
    assert v / 8 / 2 == v / 16 && v / 16 / 2 == v / 32;
    OrEven(v / 32, 1);
    assert v / 32 / 2 == v / 64;
  }

  lemma OrOne(x: nat)
    requires x < 2
    ensures Or(x, 1) == 1
  {
  }

  lemma OrEven(x: nat, y: nat)
    requires 0 < y
    ensures Or(x, 2 * y) == x % 2 + 2 * Or(x / 2, y)
  {
    assert Or(0, y) == y;
  }

  lemma ThreeParts(low: byte, mid: seq<byte>, high: byte)
    requires |mid| == 30
    ensures LE([low] + mid + [high]) == low + 256 * LE(mid) + Pow2(248) * high
    ensures LE(mid) < Pow2(240)
  {
    hide Pow2, LE;
    LESingle(low);
    LESingle(high);
    Append([low] + mid, [high], 31);
    Append([low], mid, 1);
    Pow2Table();
    assert LE(mid) < Pow2(8 * |mid|);
  }

  lemma Append(a: seq<byte>, b: seq<byte>, n: nat)
    requires |a| == n
    ensures LE(a + b) == LE(a) + LE(b) * Pow2(8 * n)
  {
    LEConcat(a, b);
  }

  lemma ClampArithmetic(low: byte, mid: nat, high: byte)
    requires mid < Pow2(240)
    ensures (low - low % 8) + 256 * mid + Pow2(248) * (high % 64 + 64)
         == Pow2(254) + 8 * ((low + 256 * mid + Pow2(248) * high) / 8 % Pow2(251))
    ensures (low - low % 8) + 256 * mid + Pow2(248) * (high % 64 + 64) < Pow2(255)
  {
    Pow2WideTable();
    hide Pow2;
    Pow2HighTable();
    ClampBits(low, mid, high);
  }

  /** With 2^248 = 8 * 2^245 the low three bits and the two high bits are set apart. */
  lemma ClampBits(low: byte, mid: nat, high: byte)
    requires mid < 0x1_0000_0000_0000_0000_0000_0000_0000_0000_0000_0000_0000_0000_0000_0000_0000
    ensures var t := 0x20_0000_0000_0000_0000_0000_0000_0000_0000_0000_0000_0000_0000_0000_0000_0000;
            (low + 256 * mid + 8 * t * high) / 8 % (64 * t) == low / 8 + 32 * mid + t * (high % 64)
  {
    var t := 0x20_0000_0000_0000_0000_0000_0000_0000_0000_0000_0000_0000_0000_0000_0000_0000;
    var x := low / 8 + 32 * mid;
    assert (low + 256 * mid + 8 * t * high) / 8 == x + t * high;
    assert x < t;
    DivModUnique(x + t * high, 64 * t, high / 64, x + t * (high % 64));
  }

  lemma Pow2HighTable()
    ensures Pow2(240) == 0x1_0000_0000_0000_0000_0000_0000_0000_0000_0000_0000_0000_0000_0000_0000_0000
    ensures Pow2(248) == 0x100_0000_0000_0000_0000_0000_0000_0000_0000_0000_0000_0000_0000_0000_0000_0000
    ensures Pow2(251) == 0x800_0000_0000_0000_0000_0000_0000_0000_0000_0000_0000_0000_0000_0000_0000_0000
    ensures Pow2(254) == 0x4000_0000_0000_0000_0000_0000_0000_0000_0000_0000_0000_0000_0000_0000_0000_0000
  {
    Pow2Table();
    Pow2WideTable();
    assert Pow2(3) == 8;
    hide Pow2;
    Pow2Add(192, 48);
    Pow2Add(240, 8);
    Pow2Add(248, 3);
    Pow2Add(251, 3);
  }

  // ----- the eager ladder: swap, step, swap back -----

  /** The state after bits bits-1 down to t of k. */
  function Eager(x1: fe, k: nat, bits: nat, t: nat): Ladder
    requires t <= bits
    decreases bits - t
  {
    if t == bits then Start(x1)
    else
      var b := BitAt(k, t);
      CSwap(b, Step(x1, CSwap(b, Eager(x1, k, bits, t + 1))))
  }

  /** Deferring the swaps does not change the ladder. */
  lemma {:induction false} DeferredSwaps(x1: fe, k: nat, bits: nat, t: nat, s: Ladder, swap: bool)
    requires t <= bits && CSwap(swap, s) == Eager(x1, k, bits, t)
    ensures RfcLoop(x1, k, t, s, swap) == Eager(x1, k, bits, 0)
  {
    hide Step, Pow2;
    if t > 0 {
      var kt := BitAt(k, t - 1);
      var s' := Step(x1, CSwap(swap != kt, s));
      assert CSwap(kt, CSwap(swap, s)) == CSwap(swap != kt, s);
      DeferredSwaps(x1, k, bits, t - 1, s', kt);
    }
  }

  /**
   * If the doubling and differential-addition formulas are right for a point Q, the ladder holds
   * coordinates of pQ and (p+1)Q after each bit, where p is the part of the scalar read so far.
   * represents(m, c) says that c are projective coordinates of mQ.
   */
  lemma {:induction false} LadderMultiples(represents: (nat, Point) -> bool, x1: fe, k: nat, bits: nat, t: nat)
    requires t <= bits && k < Pow2(bits)
    requires represents(0, Point(1, 0)) && represents(1, Point(x1, 1))
    requires forall m: nat, c: Point :: represents(m, c) ==> represents(2 * m, Double(c))
    requires forall m: nat, c: Point, d: Point ::
      represents(m, c) && represents(m + 1, d) ==> represents(2 * m + 1, DiffAdd(x1, c, d))
    requires forall m: nat, c: Point, d: Point ::
      represents(m + 1, c) && represents(m, d) ==> represents(2 * m + 1, DiffAdd(x1, c, d))
    ensures represents(k / Pow2(t), Eager(x1, k, bits, t).two)
    ensures represents(k / Pow2(t) + 1, Eager(x1, k, bits, t).three)
    decreases bits - t
  {
    hide Double, DiffAdd, Pow2;
    if t == bits {
      SmallQuotient(k, Pow2(t));
    } else {
      LadderMultiples(represents, x1, k, bits, t + 1);
      var m := k / Pow2(t + 1);
      var s := Eager(x1, k, bits, t + 1);
      PrefixStep(k, t);
      if BitAt(k, t) {
        assert represents(m + 1, s.three) && represents(m, s.two);
        assert represents(2 * (m + 1), Double(s.three));
        assert represents(2 * m + 1, DiffAdd(x1, s.three, s.two));
      } else {
        assert represents(2 * m, Double(s.two));
        assert represents(2 * m + 1, DiffAdd(x1, s.two, s.three));
      }
    }
  }

  lemma SmallQuotient(k: nat, m: nat)
    requires k < m
    ensures k / m == 0
  {
  }

  lemma PrefixStep(k: nat, t: nat)
    ensures k / Pow2(t) == 2 * (k / Pow2(t + 1)) + (if BitAt(k, t) then 1 else 0)
  {
    DivDiv(k, Pow2(t), 2);
  }
}

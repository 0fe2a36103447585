/** The bitwise CRC-16 of CheckSumUtils and its meaning as a polynomial remainder. */
module Crc16 {
  import opened Arithmetic
  import opened Buffers
  import opened Gf2

  /** x^16 + x^12 + x^5 + 1 */
  const GENERATOR: nat := 0x1_1021

  type word = x: int | 0 <= x < 0x1_0000

  function XorWord(x: word, y: word): word {
    Pow2Table();
    XorBound(x, y, 16);
    Xor(x, y)
  }

  // ----- the register as a function of the message -----

  /** Shift in one message bit; if a bit falls out, subtract the generator. */
  function ShiftBit(r: word, bit: nat): word
    requires bit < 2
  {
    var s := 2 * r + bit;
    if s < 0x1_0000 then s else XorWord(s - 0x1_0000, 0x1021)
  }

  /** Bit n of a byte, counted from the most significant. */
  function MessageBit(b: byte, n: nat): (bit: nat)
    requires n < 8
    ensures bit < 2
  {
    b / Pow2(7 - n) % 2
  }

  /** The register after the n high bits of a byte. */
  function Feed(r: word, b: byte, n: nat): word
    requires n <= 8
    decreases n, r
  {
    if n == 0 then r else ShiftBit(Feed(r, b, n - 1), MessageBit(b, n - 1))
  }

  function Register(r: word, data: seq<byte>): word
    decreases data, r
  {
    if |data| == 0 then r else Feed(Register(r, data[..|data| - 1]), data[|data| - 1], 8)
  }

  /** CRC16_Init, CRC16_Update and CRC16_Final on a whole message: sixteen zero bits follow it. */
  function Digest(data: seq<byte>): word { Register(0, data + [0, 0]) }

  lemma {:induction false} RegisterConcat(r: word, a: seq<byte>, b: seq<byte>)
    ensures Register(r, a + b) == Register(Register(r, a), b)
  {
    hide Feed;
    if |b| == 0 {
      assert a + b == a;
    } else {
      var n := |b| - 1;
      RegisterConcat(r, a, b[..n]);
      assert (a + b)[..|a + b| - 1] == a + b[..n];
    }
  }

  // ----- division: the message, most significant byte first, as a polynomial -----

  /** v = q * g + r as polynomials. */
  ghost predicate Divides(q: nat, r: nat, v: nat) { Xor(Times(q, GENERATOR), r) == v }

  lemma TopCancels(l: nat)
    requires l < 0x1_0000
    ensures Xor(0x1_0000 + l, GENERATOR) == Xor(l, 0x1021)
  {
    hide Xor;
    var x := 0x1_0000 + l;
    SplitAt16(x, 1, l);
    SplitAt16(GENERATOR, 1, 0x1021);
    XorSplit(x, GENERATOR, 16);
    XorCancel(1, 1);
    LowHigh(Xor(x, GENERATOR), 16);
  }

  lemma SplitAt16(x: nat, h: nat, l: nat)
    requires l < 0x1_0000 && x == h * 0x1_0000 + l
    ensures High(x, 16) == h && Low(x, 16) == l
  {
    Pow2Table();
  }

  lemma ShiftBitDivides(q: nat, r: word, bit: nat, v: nat) returns (q': nat)
    requires bit < 2 && Divides(q, r, v)
    ensures Divides(q', ShiftBit(r, bit), 2 * v + bit)
  {
    hide Xor, Times;
    var t, s := Times(q, GENERATOR), 2 * r + bit;
    TimesDouble(q, GENERATOR);
    XorDouble(t, r);
    if s < 0x1_0000 {
      q' := 2 * q;
    } else {
      q' := 2 * q + 1;
      TopCancels(s - 0x1_0000);
      XorComm(s, GENERATOR);
      XorInterchange(GENERATOR, 2 * t, GENERATOR, s);
      XorCancel(GENERATOR, GENERATOR);
      XorOfZero(Xor(2 * t, s));
    }
  }

  /** The message v followed by the n high bits of b. */
  function Extend(v: nat, b: byte, n: nat): nat
    requires n <= 8
  {
    hide Pow2;
    MulMono(0, v, Pow2(n));
    QuotientNat(b, Pow2(8 - n));
    v * Pow2(n) + b / Pow2(8 - n)
  }

  lemma ExtendEnds(v: nat, b: byte)
    ensures Extend(v, b, 0) == v && Extend(v, b, 8) == 256 * v + b
  {
    Pow2Table();
    hide Pow2;
  }

  lemma ExtendStep(v: nat, b: byte, n: nat)
    requires 1 <= n <= 8
    ensures 2 * Extend(v, b, n - 1) + MessageBit(b, n - 1) == Extend(v, b, n)
  {
    var m := Pow2(8 - n);
    assert Pow2(9 - n) == 2 * m && Pow2(n) == 2 * Pow2(n - 1);
    hide Pow2;
    DivDiv(b, m, 2);
    assert v * (2 * Pow2(n - 1)) == 2 * (v * Pow2(n - 1));
  }

  lemma {:induction false} FeedDivides(q: nat, r: word, b: byte, n: nat, v: nat) returns (q': nat)
    requires n <= 8 && Divides(q, r, v)
    ensures Divides(q', Feed(r, b, n), Extend(v, b, n))
  {
    hide ShiftBit, Divides, Extend;
    if n == 0 {
      ExtendEnds(v, b);
      q' := q;
    } else {
      var p := FeedDivides(q, r, b, n - 1, v);
      q' := ShiftBitDivides(p, Feed(r, b, n - 1), MessageBit(b, n - 1), Extend(v, b, n - 1));
      ExtendStep(v, b, n);
    }
  }

  lemma {:induction false} RegisterDivides(data: seq<byte>) returns (q: nat)
    ensures Divides(q, Register(0, data), BE(data))
  {
    hide Feed, Divides, Extend;
    if |data| == 0 {
      q := 0;
      EmptyDivides();
    } else {
      var n := |data| - 1;
      var p := RegisterDivides(data[..n]);
      q := FeedDivides(p, Register(0, data[..n]), data[n], 8, BE(data[..n]));
      ExtendEnds(BE(data[..n]), data[n]);
    }
  }

  lemma EmptyDivides()
    ensures Divides(0, 0, 0)
  {
  }

  /** The digest is the remainder of M(x) * x^16 modulo the generator. */
  lemma {:induction false} DigestIsRemainder(data: seq<byte>) returns (q: nat)
    ensures Xor(Times(q, GENERATOR), Digest(data)) == BE(data) * 0x1_0000
  {
    q := RegisterDivides(data + [0, 0]);
    assert (data + [0, 0])[..|data| + 1] == data + [0] && (data + [0])[..|data|] == data;
    assert BE(data + [0, 0]) == 256 * BE(data + [0]);
  }

  lemma GeneratorDegree()
    ensures Pow2(16) <= GENERATOR < Pow2(17)
  {
    Pow2Table();
  }

  /** The remainder determines the register: no other word completes the division. */
  lemma RegisterUnique(data: seq<byte>, q: nat, r: word)
    requires Divides(q, r, BE(data))
    ensures Register(0, data) == r
  {
    hide Xor, Times, Register;
    var p := RegisterDivides(data);
    GeneratorDegree();
    Pow2Table();
    RemainderUnique(GENERATOR, 16, p, Register(0, data), q, r);
  }

  // ----- what the remainder buys -----

  function XorBytes(a: seq<byte>, b: seq<byte>): (c: seq<byte>)
    requires |a| == |b|
    ensures |c| == |a|
  {
    if |a| == 0 then [] else XorBytes(a[..|a| - 1], b[..|a| - 1]) + [XorByte(a[|a| - 1], b[|a| - 1])]
  }

  lemma XorJoin(h: nat, x: byte, k: nat, y: byte)
    ensures Xor(256 * h + x, 256 * k + y) == 256 * Xor(h, k) + Xor(x, y)
  {
    Pow2Table();
    hide Xor, Pow2;
    var a, b := 256 * h + x, 256 * k + y;
    assert High(a, 8) == h && Low(a, 8) == x && High(b, 8) == k && Low(b, 8) == y;
    hide High, Low;
    XorSplit(a, b, 8);
    LowHigh(Xor(a, b), 8);
  }

  lemma {:induction false} XorOfMessages(a: seq<byte>, b: seq<byte>)
    requires |a| == |b|
    ensures BE(XorBytes(a, b)) == Xor(BE(a), BE(b))
  {
    hide Xor;
    if |a| == 0 {
      XorOfZero(0);
    } else {
      var n := |a| - 1;
      XorOfMessages(a[..n], b[..n]);
      assert XorBytes(a, b)[..n] == XorBytes(a[..n], b[..n]);
      XorJoin(BE(a[..n]), a[n], BE(b[..n]), b[n]);
    }
  }

  /** The register of a sum of messages of one length is the sum of their registers. */
  lemma {:induction false} RegisterLinear(a: seq<byte>, b: seq<byte>)
    requires |a| == |b|
    ensures Register(0, XorBytes(a, b)) == XorWord(Register(0, a), Register(0, b))
  {
    hide Register, Xor, Times, BE, XorBytes;
    var p := RegisterDivides(a);
    var q := RegisterDivides(b);
    XorOfMessages(a, b);
    TimesDistributes(p, q, GENERATOR);
    XorInterchange(Times(p, GENERATOR), Register(0, a), Times(q, GENERATOR), Register(0, b));
    RegisterUnique(XorBytes(a, b), Xor(p, q), XorWord(Register(0, a), Register(0, b)));
  }

  lemma {:induction false} DigestLinear(a: seq<byte>, b: seq<byte>)
    requires |a| == |b|
    ensures Digest(XorBytes(a, b)) == XorWord(Digest(a), Digest(b))
  {
    hide Register;
    RegisterLinear(a + [0, 0], b + [0, 0]);
    XorWithZeros(a, b);
  }

  lemma XorWithZeros(a: seq<byte>, b: seq<byte>)
    requires |a| == |b|
    ensures XorBytes(a + [0, 0], b + [0, 0]) == XorBytes(a, b) + [0, 0]
  {
    var n := |a|;
    assert (a + [0, 0])[..n + 1] == a + [0] && (b + [0, 0])[..n + 1] == b + [0];
    assert (a + [0])[..n] == a && (b + [0])[..n] == b;
    assert XorByte(0, 0) == 0;
    assert XorBytes(a + [0], b + [0]) == XorBytes(a, b) + [0];
  }

  /** A message followed by its own digest, high byte first, leaves the register at zero. */
  lemma {:induction false} SelfCheck(data: seq<byte>)
    ensures Register(0, data + [Digest(data) / 256, Digest(data) % 256]) == 0
  {
    hide Register, Xor, Times;
    var c := Digest(data);
    var all := data + [c / 256, c % 256];
    var q := DigestIsRemainder(data);
    assert BE(all) == BE(data) * 0x1_0000 + c by {
      assert all[..|data| + 1] == data + [c / 256] && (data + [c / 256])[..|data|] == data;
      assert BE(all) == 256 * BE(data + [c / 256]) + c % 256;
    }
    hide BE;
    var t := Times(q, GENERATOR);
    JoinWord(BE(data), c);
    XorAssoc(t, c, c);
    XorCancel(c, c);
    XorOfZero(t);
    RegisterUnique(all, q, 0);
  }

  lemma JoinWord(h: nat, l: word)
    ensures Xor(h * 0x1_0000, l) == h * 0x1_0000 + l
  {
    hide Xor;
    SplitAt16(h * 0x1_0000, h, 0);
    SplitAt16(l, 0, l);
    XorSplit(h * 0x1_0000, l, 16);
    XorOfZero(h);
    XorOfZero(l);
    LowHigh(Xor(h * 0x1_0000, l), 16);
    Pow2Table();
  }

  /** No multiple of the generator is a nonzero 16-bit pattern shifted left: the generator is odd. */
  lemma {:induction false} NoShortMultiple(q: nat, e: nat, j: nat)
    requires 0 < e < 0x1_0000
    ensures Times(q, GENERATOR) != e * Pow2(j)
    decreases j
  {
    hide Xor;
    if q > 0 {
      if j == 0 {
        GeneratorDegree();
        var k := MultipleIsLong(q, GENERATOR, 16);
        Pow2Monotone(16, 16 + k);
        Pow2Table();
      } else {
        NoShortMultiple(q / 2, e, j - 1);
        var t := Times(q / 2, GENERATOR);
        TimesStep(q, GENERATOR);
        XorHalves(if q % 2 == 1 then GENERATOR else 0, 2 * t);
        XorOfZero(2 * t);
        var m := Pow2(j - 1);
        assert Pow2(j) == 2 * m;
        hide Pow2;
        assert e * (2 * m) == 2 * (e * m);
      }
    } else {
      MulPositive(e, Pow2(j));
    }
  }

  /** Two messages of one length that differ only inside a window of sixteen bits have different digests. */
  lemma {:induction false} BurstDetected(a: seq<byte>, b: seq<byte>, e: nat, j: nat)
    requires |a| == |b| && 0 < e < 0x1_0000 && Xor(BE(a), BE(b)) == e * Pow2(j)
    ensures Digest(a) != Digest(b)
  {
    hide Xor, Times, Digest, BE;
    var p := DigestIsRemainder(a);
    var q := DigestIsRemainder(b);
    if Digest(a) == Digest(b) {
      var x, y, c := Times(p, GENERATOR), Times(q, GENERATOR), Digest(a);
      XorInterchange(x, c, y, c);
      XorCancel(c, c);
      XorOfZero(Xor(x, y));
      TimesDistributes(p, q, GENERATOR);
      Pow2Table();
      XorShifted(BE(a), BE(b), 16);
      Pow2Add(j, 16);
      assert e * Pow2(j) * Pow2(16) == e * Pow2(j + 16);
      NoShortMultiple(Xor(p, q), e, j + 16);
    }
  }

  /** Two messages of one length whose difference is a multiple of the generator have one digest. */
  lemma {:induction false} MultipleCollides(a: seq<byte>, b: seq<byte>, q: nat)
    requires |a| == |b| && Xor(BE(a), BE(b)) == Times(q, GENERATOR)
    ensures Digest(a) == Digest(b)
  {
    hide Xor, Times, Digest, BE;
    var p := DigestIsRemainder(a);
    var r := DigestIsRemainder(b);
    var t := Times(q, GENERATOR) * 0x1_0000;
    Pow2Table();
    XorShifted(BE(a), BE(b), 16);
    TimesShifted(q, 16);
    ShiftedIsProduct(q, 16);
    ShiftedIsProduct(Times(q, GENERATOR), 16);
    hide Shifted;
    // b's dividend is a's dividend plus the shifted difference, and adding that leaves the remainder alone.
    XorAssoc(BE(a) * 0x1_0000, BE(a) * 0x1_0000, BE(b) * 0x1_0000);
    XorCancel(BE(a) * 0x1_0000, BE(a) * 0x1_0000);
    XorOfZero(BE(b) * 0x1_0000);
    assert BE(b) * 0x1_0000 == Xor(BE(a) * 0x1_0000, t);
    TimesDistributes(p, q * 0x1_0000, GENERATOR);
    XorOfZero(Digest(a));
    XorOfZero(t);
    XorComm(Digest(a), 0);
    XorComm(t, 0);
    XorInterchange(Times(p, GENERATOR), Digest(a), t, 0);
    GeneratorDegree();
    RemainderUnique(GENERATOR, 16, Xor(p, q * 0x1_0000), Digest(a), r, Digest(b));
  }

  /** Adding the generator to the first three bytes of a message gives another message with the same digest. */
  lemma {:induction false} GeneratorInvisible(front: seq<byte>, rest: seq<byte>)
    requires |front| == 3
    ensures var other := XorBytes(front, [0x01, 0x10, 0x21]);
            other != front && Digest(other + rest) == Digest(front + rest)
  {
    hide Register, XorBytes;
    var g: seq<byte> := [0x01, 0x10, 0x21];
    var other := XorBytes(front, g);
    GeneratorBytes();
    RegisterUnique(g, 1, 0);
    RegisterLinear(front, g);
    XorOfZero(Register(0, front));
    XorComm(Register(0, front), 0);
    assert (other + rest) + [0, 0] == other + (rest + [0, 0]) && (front + rest) + [0, 0] == front + (rest + [0, 0]);
    RegisterConcat(0, other, rest + [0, 0]);
    RegisterConcat(0, front, rest + [0, 0]);
    LastDiffers(front, g);
  }

  lemma GeneratorBytes()
    ensures BE([0x01, 0x10, 0x21]) == GENERATOR && Divides(1, 0, GENERATOR)
  {
    assert [0x01, 0x10, 0x21][..2] == [0x01, 0x10] && [0x01, 0x10][..1] == [0x01] && [0x01][..0] == [];
    assert Times(1, GENERATOR) == GENERATOR by {
      TimesStep(1, GENERATOR);
      XorOfZero(GENERATOR);
    }
    XorOfZero(GENERATOR);
  }

  lemma LastDiffers(a: seq<byte>, b: seq<byte>)
    requires |a| == |b| > 0 && b[|b| - 1] == 0x21
    ensures XorBytes(a, b) != a
  {
    var x := a[|a| - 1];
    XorHalves(x, 0x21);
    assert XorByte(x, 0x21) != x;
  }

  function Shifted(x: nat, k: nat): nat {
    if k == 0 then x else 2 * Shifted(x, k - 1)
  }

  lemma {:induction false} ShiftedIsProduct(x: nat, k: nat)
    ensures Shifted(x, k) == x * Pow2(k)
  {
    if k > 0 {
      ShiftedIsProduct(x, k - 1);
      var m := Pow2(k - 1);
      assert Pow2(k) == 2 * m;
      hide Pow2;
      assert x * (2 * m) == 2 * (x * m);
    }
  }

  lemma {:induction false} TimesShifted(q: nat, k: nat)
    ensures Times(Shifted(q, k), GENERATOR) == Shifted(Times(q, GENERATOR), k)
  {
    hide Times;
    if k > 0 {
      TimesShifted(q, k - 1);
      TimesDouble(Shifted(q, k - 1), GENERATOR);
    }
  }

  // ----- the code -----

  function U32(x: nat): (r: nat)
    ensures x < 0x1_0000_0000 ==> r == x
  {
    x % 0x1_0000_0000
  }

  /** The shift register may keep stale bits above bit 16; only its low sixteen bits matter. */
  lemma ShiftRegister(crc: nat, r: word, bit: nat, n: nat)
    requires bit < 2 && crc % 0x1_0000 == r && n < 8 && crc < Pow2(16 + n)
    ensures var s := 2 * crc + bit;
            var t := if And(s, 0x1_0000) != 0 then Xor(s, 0x1021) else s;
            s < 0x1_0000_0000 && t % 0x1_0000 == ShiftBit(r, bit) && t < Pow2(17 + n)
  {
    hide Xor, And, ShiftBit;
    var s := 2 * crc + bit;
    ShiftBounds(n);
    hide Pow2;
    XorBound(s, 0x1021, 17 + n);
    LowXor16(s);
    TestBit16(s);
    ShiftBitCases(crc, r, bit);
  }

  lemma ShiftBounds(n: nat)
    requires n < 8
    ensures Pow2(17 + n) == 2 * Pow2(16 + n) && 0x1021 < Pow2(17 + n) <= 0x1_0000_0000
  {
    Pow2Table();
    Pow2Monotone(17 + n, 32);
    Pow2Monotone(16, 17 + n);
  }

  lemma TestBit16(x: nat)
    ensures And(x, 0x1_0000) != 0 <==> x / 0x1_0000 % 2 == 1
  {
    Pow2Table();
    hide And, Pow2;
    AndBit(x, 16);
  }

  lemma TestBit8(x: nat)
    ensures And(x, 0x100) != 0 <==> x / 0x100 % 2 == 1
  {
    Pow2Table();
    hide And, Pow2;
    AndBit(x, 8);
  }

  lemma ShiftBitCases(crc: nat, r: word, bit: nat)
    requires bit < 2 && crc % 0x1_0000 == r
    ensures var s := 2 * crc + bit;
            var l := s % 0x1_0000;
            ShiftBit(r, bit) == if s / 0x1_0000 % 2 == 1 then Xor(l, 0x1021) else l
  {
    hide Xor;
  }

  lemma LowXor16(s: nat)
    ensures Xor(s, 0x1021) % 0x1_0000 == Xor(s % 0x1_0000, 0x1021)
  {
    hide Xor;
    Pow2Table();
    hide Pow2;
    XorSplit(s, 0x1021, 16);
    assert Low(s, 16) == s % 0x1_0000 && Low(0x1021, 16) == 0x1021;
  }

  /** The marker bit 0x100 shifted along with the byte exposes its bits at bit 8 and ends the loop at bit 16. */
  lemma ShiftIn(b: byte, x: nat, n: nat)
    requires n < 8 && x == (256 + b) * Pow2(n)
    ensures 2 * x < 0x1_0000_0000 && 2 * x == (256 + b) * Pow2(n + 1)
    ensures And(2 * x, 0x100) != 0 <==> MessageBit(b, n) == 1
    ensures And(2 * x, 0x1_0000) != 0 <==> n == 7
  {
    hide And;
    TestBit8(2 * x);
    TestBit16(2 * x);
    SmallPowers(n);
    assert Pow2(n + 1) == 2 * Pow2(n);
    hide Pow2;
    ShiftInCases(b, n, Pow2(n), Pow2(7 - n));
  }

  lemma SmallPowers(n: nat)
    requires n < 8
    ensures Pow2(n) * Pow2(7 - n) == 128
    ensures if n == 7 then Pow2(n) == 128 else Pow2(n) <= 64
  {
    assert Pow2(6) == 64 && Pow2(7) == 128;
    hide Pow2;
    Pow2Add(n, 7 - n);
    if n < 7 {
      Pow2Monotone(n, 6);
    }
  }

  lemma ShiftInCases(b: byte, n: nat, up: nat, down: nat)
    requires up * down == 128 && 0 < up && 0 < down && (if n == 7 then up == 128 else up <= 64)
    ensures 2 * ((256 + b) * up) / 256 % 2 == b / down % 2
    ensures 2 * ((256 + b) * up) / 0x1_0000 % 2 == 1 <==> n == 7
    ensures 2 * ((256 + b) * up) < 0x1_0000_0000
  {
    var q, r, x := b / down, b % down, (256 + b) * up;
    assert b == q * down + r;
    ShiftSum(b, up, down, q, r);
    QuotientBit(x, up, q, r * up);
    MulMono(256 + b, 511, up);
    if n == 7 {
      assert x == 128 * (256 + b);
      assert 2 * x / 0x1_0000 == 1;
    } else {
      assert x <= 511 * 64;
      assert 2 * x / 0x1_0000 == 0;
    }
  }

  lemma QuotientBit(x: nat, up: nat, q: nat, y: nat)
    requires 2 * x == 256 * (2 * up + q) + 2 * y && 2 * y < 256
    ensures 2 * x / 256 % 2 == q % 2
  {
  }

  lemma ShiftSum(b: nat, up: nat, down: nat, q: nat, r: nat)
    requires up * down == 128 && 0 < up && b == q * down + r && r < down
    ensures 2 * ((256 + b) * up) == 256 * (2 * up + q) + 2 * (r * up)
    ensures 0 <= 2 * (r * up) < 256
  {
    assert (q * down) * up == q * (up * down);
    assert (256 + b) * up == 256 * up + ((q * down) * up + r * up);
    MulMono(r + 1, down, up);
  }

  lemma FeedStep(r: word, b: byte, n: nat)
    requires n < 8
    ensures Feed(r, b, n + 1) == ShiftBit(Feed(r, b, n), MessageBit(b, n)) && Feed(r, b, 0) == r
  {
    hide ShiftBit, MessageBit;
  }

  method UpdateCRC16(crcIn: word, b: byte) returns (r: word)
    ensures r == Feed(crcIn, b, 8)
  {
    hide Xor, And, Pow2, ShiftBit, MessageBit, Feed;
    FeedStep(crcIn, b, 0);
    var crc: nat := crcIn;
    var in1 := Or(b, 0x100);
    MarkerBit(b);
    Pow2Table();
    var n := 0;
    while true
      invariant n < 8 && crc < Pow2(16 + n) && crc % 0x1_0000 == Feed(crcIn, b, n)
      invariant in1 == (256 + b) * Pow2(n)
      decreases 8 - n
    {
      FeedStep(crcIn, b, n);
      ShiftIn(b, in1, n);
      ShiftRegister(crc, Feed(crcIn, b, n), MessageBit(b, n), n);
      crc := U32(crc * 2);
      in1 := U32(in1 * 2);
      if And(in1, 0x100) != 0 {
        crc := U32(crc + 1);
      }
      if And(crc, 0x1_0000) != 0 {
        crc := Xor(crc, 0x1021);
      }
      n := n + 1;
      if And(in1, 0x1_0000) != 0 {
        break;
      }
    }
    MaskIsMod(crc, 16, 0x1_0000);
    r := And(crc, 0xFFFF);
  }

  lemma MarkerBit(b: byte)
    ensures Or(b, 0x100) == 256 + b
  {
    Pow2Table();
    hide Or, Pow2;
    OrDisjoint(b, 0x100, 8);
  }

  class Context {
    var crc: word

    /** CRC16_Init */
    constructor ()
      ensures crc == 0
    {
      crc := 0;
    }

    /** CRC16_Update */
    method Update(src: seq<byte>)
      modifies this
      ensures crc == Register(old(crc), src)
    {
      for i := 0 to |src|
        invariant crc == Register(old(crc), src[..i])
      {
        assert src[..i + 1][..i] == src[..i];
        crc := UpdateCRC16(crc, src[i]);
      }
      assert src[..|src|] == src;
    }

    /** CRC16_Final */
    method Final() returns (result: word)
      modifies this
      ensures result == crc == Register(old(crc), [0, 0])
    {
      hide Feed;
      var first := UpdateCRC16(crc, 0);
      var second := UpdateCRC16(first, 0);
      assert [0, 0][..1] == [0] && [0][..0] == [];
      assert Register(crc, [0]) == first;
      crc := second;
      result := crc;
    }
  }

  /** Any split of the message over Update calls gives the digest of the whole. */
  method DigestInPieces(pieces: seq<seq<byte>>) returns (result: word)
    ensures result == Digest(Flatten(pieces))
  {
    hide Register;
    var c := new Context();
    EmptyRegister();
    for i := 0 to |pieces|
      invariant c.crc == Register(0, Flatten(pieces[..i]))
    {
      assert pieces[..i + 1][..i] == pieces[..i];
      RegisterConcat(0, Flatten(pieces[..i]), pieces[i]);
      c.Update(pieces[i]);
    }
    assert pieces[..|pieces|] == pieces;
    RegisterConcat(0, Flatten(pieces), [0, 0]);
    result := c.Final();
  }

  lemma EmptyRegister()
    ensures Register(0, []) == 0
  {
  }
}

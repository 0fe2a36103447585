/** Conversion between 32 little-endian bytes and five limbs (section 5 of RFC 7748). */
module Encoding64 {
  import opened Arithmetic
  import opened Field25519
  import opened Felem64

  const TWO192: nat := 0x1_0000_0000_0000_0000_0000_0000_0000_0000_0000_0000_0000_0000

  // ----- the byte access macros -----

  /** Bytes of a word, least significant first, joined by shifts and ORs. */
  function JoinBytes(b: seq<byte>): nat {
    if |b| == 0 then 0 else Or(JoinBytes(b[..|b| - 1]), b[|b| - 1] * Pow2(8 * (|b| - 1)))
  }

  lemma {:induction false} JoinBytesIsLE(b: seq<byte>)
    ensures JoinBytes(b) == LE(b)
  {
    hide Or, Pow2, LE;
    if |b| > 0 {
      var k := |b| - 1;
      JoinBytesIsLE(b[..k]);
      assert b == b[..k] + [b[k]];
      JoinOne(b[..k], b[k]);
    } else {
      assert LE([]) == 0 by { LESingle(0); }
    }
  }

  lemma JoinOne(low: seq<byte>, x: byte)
    ensures Or(LE(low), x * Pow2(8 * |low|)) == LE(low + [x])
  {
    hide Or, Pow2, LE;
    LEConcat(low, [x]);
    LESingle(x);
    ModAddMultiple(0, x, Pow2(8 * |low|));
    OrDisjoint(LE(low), x * Pow2(8 * |low|), 8 * |low|);
  }

  /** ReadLittle64 */
  function ReadLittle64(b: seq<byte>): (r: limb)
    requires |b| == 8
    ensures r == LE(b)
  {
    JoinBytesIsLE(b);
    Pow2Table();
    JoinBytes(b)
  }

  /** (uint8_t)((x >> shift) & 0xFF) */
  function ByteOf(x: limb, shift: nat): byte {
    hide And, Pow2;
    ByteOfIsDigit(x, shift);
    And(x / Pow2(shift), 0xFF)
  }

  lemma ByteOfIsDigit(x: limb, shift: nat)
    ensures 0 <= x / Pow2(shift) && And(x / Pow2(shift), 0xFF) == x / Pow2(shift) % 256
  {
    hide And;
    Pow2Table();
    hide Pow2;
    QuotientNat(x, Pow2(shift));
    MaskIsMod(x / Pow2(shift), 8, 256);
  }

  lemma WordByte(x: limb, i: nat)
    requires i < 8
    ensures ByteOf(x, 8 * i) == LEBytes(x, 8)[i]
  {
    hide And, Pow2;
    LEByteAt(x, 8, i);
    ByteOfIsDigit(x, 8 * i);
  }

  /** WriteLittle64 */
  method WriteLittle64(output: array<byte>, off: nat, x: limb)
    requires off + 8 <= output.Length
    modifies output
    ensures output[off..off + 8] == LEBytes(x, 8)
    ensures output[..off] == old(output[..off]) && output[off + 8..] == old(output[off + 8..])
  {
    hide Pow2, And, LEBytes, ByteOf;
    forall i | 0 <= i < 8
      ensures ByteOf(x, 8 * i) == LEBytes(x, 8)[i]
    {
      WordByte(x, i);
    }
    var b0, b1, b2, b3 := ByteOf(x, 8 * 0), ByteOf(x, 8 * 1), ByteOf(x, 8 * 2), ByteOf(x, 8 * 3);
    var b4, b5, b6, b7 := ByteOf(x, 8 * 4), ByteOf(x, 8 * 5), ByteOf(x, 8 * 6), ByteOf(x, 8 * 7);
    assert LEBytes(x, 8) == [b0, b1, b2, b3, b4, b5, b6, b7];
    output[off] := b0;
    output[off + 1] := b1;
    output[off + 2] := b2;
    output[off + 3] := b3;
    output[off + 4] := b4;
    output[off + 5] := b5;
    output[off + 6] := b6;
    output[off + 7] := b7;
  }

  // ----- decoding -----

  /** Extracting 51 bits at a shift from an aligned 64-bit read is extracting them from the whole number. */
  lemma FieldOfRead(n: nat, word: nat, shift: nat, spare: nat)
    requires 0 < word && 0 < shift && 0 < spare && shift * (TWO51 * spare) == TWO64
    ensures 0 < word * shift
    ensures n / word % TWO64 / shift % TWO51 == n / (word * shift) % TWO51
  {
    var y := n / word;
    DivDiv(n, word, shift);
    DivDiv(y, shift, TWO51 * spare);
    DivDiv(y / shift, TWO51, spare);
  }

  /** A number below 2^255 is the sum of its five 51-bit digits. */
  lemma Digits51(n: nat)
    ensures Poly(n % TWO51, n / 0x8_0000_0000_0000 % TWO51,
                 n / 0x40_0000_0000_0000_0000_0000_0000 % TWO51,
                 n / 0x200_0000_0000_0000_0000_0000_0000_0000_0000_0000 % TWO51,
                 n / 0x1000_0000_0000_0000_0000_0000_0000_0000_0000_0000_0000_0000_0000 % TWO51) == n % (P + 19)
  {
    DivDiv(n, TWO51, TWO51);
    DivDiv(n, TWO51 * TWO51, TWO51);
    DivDiv(n, TWO51 * TWO51 * TWO51, TWO51);
    DivDiv(n, TWO51 * TWO51 * TWO51 * TWO51, TWO51);
  }

  /** The field element that 32 bytes encode; the top bit is ignored. */
  ghost function DecodeU(b: seq<byte>): nat { LE(b) % (P + 19) }

  method FExpand(output: array<limb>, input: array<byte>)
    requires output.Length == 5 && input.Length == 32
    modifies output
    ensures Value(output[..]) == DecodeU(input[..])
    ensures Bounded(output[..], TWO51 - 1)
  {
    hide Pow2, LE, And, Low51, Poly, ReadLittle64;
    ghost var b := input[..];
    Pow2Table();
    Pow2WideTable();
    ReadLimb(b, 0, 1, 1, 0x2000);
    ReadLimb(b, 6, 0x1_0000_0000_0000, 8, 0x400);
    ReadLimb(b, 12, 0x1_0000_0000_0000_0000_0000_0000, 64, 0x80);
    ReadLimb(b, 19, 0x100_0000_0000_0000_0000_0000_0000_0000_0000_0000, 2, 0x1000);
    ReadLimb(b, 24, 0x1_0000_0000_0000_0000_0000_0000_0000_0000_0000_0000_0000_0000, 4096, 2);
    assert input[0..8] == b[0..8] && input[6..14] == b[6..14] && input[12..20] == b[12..20];
    assert input[19..27] == b[19..27] && input[24..32] == b[24..32];
    var x0 := Low51(ReadLittle64(input[0..8]));
    var x1 := Low51(ReadLittle64(input[6..14]) / 8);
    var x2 := Low51(ReadLittle64(input[12..20]) / 64);
    var x3 := Low51(ReadLittle64(input[19..27]) / 2);
    var x4 := Low51(ReadLittle64(input[24..32]) / 4096);
    Digits51(LE(b));
    assert Poly(x0, x1, x2, x3, x4) == DecodeU(b);
    output[0], output[1], output[2], output[3], output[4] := x0, x1, x2, x3, x4;
  }

  lemma ReadLimb(b: seq<byte>, k: nat, word: nat, shift: nat, spare: nat)
    requires |b| == 32 && k <= 24 && word == Pow2(8 * k)
    requires 0 < shift && 0 < spare && shift * (TWO51 * spare) == TWO64
    ensures 0 < word * shift
    ensures LE(b[k..k + 8]) / shift % TWO51 == LE(b) / (word * shift) % TWO51
  {
    hide LE, Pow2;
    LESlice(b, k, 8);
    Pow2Table();
    FieldOfRead(LE(b), word, shift, spare);
  }

  // ----- encoding -----

  /** One round of carries; the carry out of the top re-enters at the bottom times 19. */
  method CarryRound(s0: nat, s1: nat, s2: nat, s3: nat, s4: nat)
      returns (t0: nat, t1: nat, t2: nat, t3: nat, t4: nat, ghost k: nat)
    requires s0 < TWO64 + TWO64 && s1 < TWO64 && s2 < TWO64 && s3 < TWO64 && s4 < TWO64
    ensures Poly(t0, t1, t2, t3, t4) == Poly(s0, s1, s2, s3, s4) - k * P
    ensures 19 * k <= t0 < TWO51 + 19 * k && t1 < TWO51 && t2 < TWO51 && t3 < TWO51 && t4 < TWO51
    ensures k <= 0x4001
  {
    hide And, U64, U128, Low51, LowLimb, Poly;
    t0, t1, t2, t3, t4 := s0, s1, s2, s3, s4;
    t1 := U128(t1 + t0 / TWO51); ghost var c0 := t0 / TWO51; t0 := LowLimb(t0);
    t2 := U128(t2 + t1 / TWO51); ghost var c1 := t1 / TWO51; t1 := LowLimb(t1);
    t3 := U128(t3 + t2 / TWO51); ghost var c2 := t2 / TWO51; t2 := LowLimb(t2);
    t4 := U128(t4 + t3 / TWO51); ghost var c3 := t3 / TWO51; t3 := LowLimb(t3);
    k := t4 / TWO51;
    CarryFold(s0, s1, s2, s3, s4, t0, t1, t2, t3, t4 % TWO51, c0, c1, c2, c3, k);
    t0 := U128(t0 + 19 * (t4 / TWO51)); t4 := LowLimb(t4);
  }

  /** The last chain has no carry out: whatever leaves the top is dropped. */
  method CarryDrop(s0: nat, s1: nat, s2: nat, s3: nat, s4: nat)
      returns (t0: nat, t1: nat, t2: nat, t3: nat, t4: nat)
    requires s0 < TWO64 && s1 < TWO64 && s2 < TWO64 && s3 < TWO64 && s4 < TWO64
    requires P + 19 <= Poly(s0, s1, s2, s3, s4) < 2 * (P + 19)
    ensures Poly(t0, t1, t2, t3, t4) == Poly(s0, s1, s2, s3, s4) - (P + 19)
    ensures t0 < TWO51 && t1 < TWO51 && t2 < TWO51 && t3 < TWO51 && t4 < TWO51
  {
    hide And, U64, U128, Low51, LowLimb, Poly;
    t0, t1, t2, t3, t4 := s0, s1, s2, s3, s4;
    t1 := U128(t1 + t0 / TWO51); ghost var c0 := t0 / TWO51; t0 := LowLimb(t0);
    t2 := U128(t2 + t1 / TWO51); ghost var c1 := t1 / TWO51; t1 := LowLimb(t1);
    t3 := U128(t3 + t2 / TWO51); ghost var c2 := t2 / TWO51; t2 := LowLimb(t2);
    t4 := U128(t4 + t3 / TWO51); ghost var c3 := t3 / TWO51; t3 := LowLimb(t3);
    ghost var k := t4 / TWO51;
    t4 := LowLimb(t4);
    CarryFold(s0, s1, s2, s3, s4, t0, t1, t2, t3, t4, c0, c1, c2, c3, k);
    TopCarryIsOne(t0, t1, t2, t3, t4, Poly(s0, s1, s2, s3, s4), k);
  }

  lemma TopCarryIsOne(t0: nat, t1: nat, t2: nat, t3: nat, t4: nat, v: nat, k: nat)
    requires t0 < TWO51 && t1 < TWO51 && t2 < TWO51 && t3 < TWO51 && t4 < TWO51
    requires Poly(t0 + 19 * k, t1, t2, t3, t4) == v - k * P && P + 19 <= v < 2 * (P + 19)
    ensures Poly(t0, t1, t2, t3, t4) == v - (P + 19)
  {
    assert Poly(t0, t1, t2, t3, t4) < P + 19;
  }

  /** After two rounds the value is fully carried: below 2^255 with every limb below 2^51. */
  lemma SecondRoundSettles(s0: nat, s1: nat, s2: nat, s3: nat, s4: nat, t0: nat, t1: nat, t2: nat, t3: nat, t4: nat,
                           k: nat)
    requires s0 < TWO51 + 19 * 0x4001 && s1 < TWO51 && s2 < TWO51 && s3 < TWO51 && s4 < TWO51
    requires Poly(t0, t1, t2, t3, t4) == Poly(s0, s1, s2, s3, s4) - k * P && 19 * k <= t0
    requires t0 < TWO51 + 19 * k
    ensures t0 < TWO51
  {
    assert Poly(s0, s1, s2, s3, s4) < P + 19 + 19 * 0x4001;
    assert t0 <= Poly(t0, t1, t2, t3, t4);
  }

  /** Adding 19 and carrying once more subtracts p exactly when the value is at least p. */
  lemma CanonicalByOffset(v: nat, w: int, t0: nat, t1: nat, t2: nat, t3: nat, t4: nat, k: nat)
    requires v < P + 19 && w == Poly(t0, t1, t2, t3, t4) && w == v + 19 - k * P
    requires 19 * k <= t0 < TWO51 + 19 * k && t1 < TWO51 && t2 < TWO51 && t3 < TWO51 && t4 < TWO51
    ensures w == v % P + 19 && t0 < TWO51 && w < P + 19
  {
    PolyAtLeast(t0, t1, t2, t3, t4);
    PolyAtMost(t0, t1, t2, t3, t4, 19 * k);
    hide Poly;
    OffsetQuotient(v, w, k);
  }

  lemma PolyAtLeast(t0: nat, t1: nat, t2: nat, t3: nat, t4: nat)
    ensures t0 <= Poly(t0, t1, t2, t3, t4)
  {
  }

  lemma PolyAtMost(t0: nat, t1: nat, t2: nat, t3: nat, t4: nat, spare: nat)
    requires t0 < TWO51 + spare && t1 < TWO51 && t2 < TWO51 && t3 < TWO51 && t4 < TWO51
    ensures Poly(t0, t1, t2, t3, t4) < P + 19 + spare
  {
  }

  /** v + 19 exceeds p once or not at all. */
  lemma OffsetQuotient(v: nat, w: int, k: nat)
    requires v < P + 19 && w == v + 19 - k * P && 19 * k <= w < P + 19 + 19 * k
    ensures k < 2 && w == v % P + 19 && w < P + 19
  {
    assert k < 2;
  }

  /** The fully reduced limbs of a field element. */
  method Canonical(i0: limb, i1: limb, i2: limb, i3: limb, i4: limb)
      returns (t0: nat, t1: nat, t2: nat, t3: nat, t4: nat)
    ensures Poly(t0, t1, t2, t3, t4) == Fe(Poly(i0, i1, i2, i3, i4))
    ensures t0 < TWO51 && t1 < TWO51 && t2 < TWO51 && t3 < TWO51 && t4 < TWO51
  {
    hide And, U64, U128, Poly, Fe;
    ghost var k0, k1, k2;
    t0, t1, t2, t3, t4, k0 := CarryRound(i0, i1, i2, i3, i4);
    ghost var s0, s1, s2, s3, s4 := t0, t1, t2, t3, t4;
    t0, t1, t2, t3, t4, k1 := CarryRound(t0, t1, t2, t3, t4);
    SecondRoundSettles(s0, s1, s2, s3, s4, t0, t1, t2, t3, t4, k1);
    FeAddMultiple(Poly(t0, t1, t2, t3, t4), k0 + k1);
    ghost var v := Poly(t0, t1, t2, t3, t4);
    PolyBelow(t0, t1, t2, t3, t4);
    t0 := U128(t0 + 19);
    PolyAdd(t0 - 19, t1, t2, t3, t4, 19, 0, 0, 0, 0);
    t0, t1, t2, t3, t4, k2 := CarryRound(t0, t1, t2, t3, t4);
    ghost var w := Poly(t0, t1, t2, t3, t4);
    PolyOfDigit(19);
    CanonicalByOffset(v, w, t0, t1, t2, t3, t4, k2);
    OffsetSum(t0, t1, t2, t3, t4);
    t0 := U128(t0 + (TWO51 - 19));
    t1 := U128(t1 + (TWO51 - 1));
    t2 := U128(t2 + (TWO51 - 1));
    t3 := U128(t3 + (TWO51 - 1));
    t4 := U128(t4 + (TWO51 - 1));
    t0, t1, t2, t3, t4 := CarryDrop(t0, t1, t2, t3, t4);
    assert v % P == Fe(v) by { FeIsMod(v); }
  }

  lemma FeIsMod(v: int) ensures Fe(v) == v % P {}

  lemma PolyOfDigit(x: int) ensures Poly(x, 0, 0, 0, 0) == x {}

  lemma PolyBelow(t0: nat, t1: nat, t2: nat, t3: nat, t4: nat)
    requires t0 < TWO51 && t1 < TWO51 && t2 < TWO51 && t3 < TWO51 && t4 < TWO51
    ensures 0 <= Poly(t0, t1, t2, t3, t4) < P + 19
  {
  }

  lemma OffsetSum(t0: nat, t1: nat, t2: nat, t3: nat, t4: nat)
    ensures Poly(t0 + (TWO51 - 19), t1 + (TWO51 - 1), t2 + (TWO51 - 1), t3 + (TWO51 - 1), t4 + (TWO51 - 1))
         == Poly(t0, t1, t2, t3, t4) - 19 + (P + 19)
  {
  }

  /** The four 64-bit words packed from five limbs. */
  method PackWords(t0: nat, t1: nat, t2: nat, t3: nat, t4: nat)
      returns (w0: limb, w1: limb, w2: limb, w3: limb)
    requires t0 < TWO51 && t1 < TWO51 && t2 < TWO51 && t3 < TWO51 && t4 < TWO51
    ensures w0 + TWO64 * w1 + TWO128 * w2 + TWO192 * w3 == Poly(t0, t1, t2, t3, t4)
  {
    hide Or, U64, U128, Poly;
    PackShifts(t0, t1, t2, t3, t4);
    w0 := U64(Or(t0, U128(t1 * TWO51)));
    w1 := U64(Or(t1 / 0x2000, U128(t2 * 0x40_0000_0000)));
    w2 := U64(Or(t2 / 0x400_0000, U128(t3 * 0x200_0000)));
    w3 := U64(Or(t3 / 0x80_0000_0000, U128(t4 * 0x1000)));
    PackSum(t0, t1, t2, t3, t4, w0, w1, w2, w3);
  }

  lemma PackShifts(t0: nat, t1: nat, t2: nat, t3: nat, t4: nat)
    requires t0 < TWO51 && t1 < TWO51 && t2 < TWO51 && t3 < TWO51 && t4 < TWO51
    ensures Or(t0, U128(t1 * TWO51)) == t0 + t1 * TWO51
    ensures Or(t1 / 0x2000, U128(t2 * 0x40_0000_0000)) == t1 / 0x2000 + t2 * 0x40_0000_0000
    ensures Or(t2 / 0x400_0000, U128(t3 * 0x200_0000)) == t2 / 0x400_0000 + t3 * 0x200_0000
    ensures Or(t3 / 0x80_0000_0000, U128(t4 * 0x1000)) == t3 / 0x80_0000_0000 + t4 * 0x1000
  {
    assert Pow2(12) == 0x1000 && Pow2(25) == 0x200_0000 && Pow2(38) == 0x40_0000_0000;
    Pow2Table();
    hide Or, U128, Pow2;
    OrShifted(t0, t1, 51, TWO51);
    OrShifted(t1 / 0x2000, t2, 38, 0x40_0000_0000);
    OrShifted(t2 / 0x400_0000, t3, 25, 0x200_0000);
    OrShifted(t3 / 0x80_0000_0000, t4, 12, 0x1000);
  }

  lemma OrShifted(low: nat, t: nat, k: nat, shift: nat)
    requires shift == Pow2(k) && shift <= TWO51 && low < shift && t < TWO51
    ensures Or(low, U128(t * shift)) == low + t * shift
  {
    hide Or, Pow2, U128;
    MulMono(t, TWO51, shift);
    ModAddMultiple(0, t, shift);
    OrDisjoint(low, t * shift, k);
  }

  lemma PackSum(t0: nat, t1: nat, t2: nat, t3: nat, t4: nat, w0: limb, w1: limb, w2: limb, w3: limb)
    requires t0 < TWO51 && t1 < TWO51 && t2 < TWO51 && t3 < TWO51 && t4 < TWO51
    requires w0 == U64(t0 + t1 * TWO51) && w1 == U64(t1 / 0x2000 + t2 * 0x40_0000_0000)
    requires w2 == U64(t2 / 0x400_0000 + t3 * 0x200_0000) && w3 == U64(t3 / 0x80_0000_0000 + t4 * 0x1000)
    ensures w0 + TWO64 * w1 + TWO128 * w2 + TWO192 * w3 == Poly(t0, t1, t2, t3, t4)
  {
    hide U64;
    Straddle(t0, t1, TWO51, 0x2000);
    Straddle(t1 / 0x2000, t2, 0x40_0000_0000, 0x400_0000);
    Straddle(t2 / 0x400_0000, t3, 0x200_0000, 0x80_0000_0000);
  }

  /** A word keeps the low bits of the limb that straddles its top. */
  lemma Straddle(low: nat, t: nat, shift: nat, cut: nat)
    requires low < shift && 0 < cut && shift * cut == TWO64
    ensures U64(low + t * shift) == low + (t % cut) * shift
  {
    MulMono(t % cut + 1, cut, shift);
    Distribute(t / cut, cut, t % cut, shift);
    DivModUnique(low + t * shift, TWO64, t / cut, low + (t % cut) * shift);
  }

  lemma Distribute(q: nat, cut: nat, r: nat, shift: nat)
    ensures (q * cut + r) * shift == q * (shift * cut) + r * shift
    ensures (r + 1) * shift == r * shift + shift && cut * shift == shift * cut && 0 <= r * shift
  {
  }

  method WriteWords(output: array<byte>, w0: limb, w1: limb, w2: limb, w3: limb)
    requires output.Length == 32
    modifies output
    ensures output[..] == LEBytes(w0, 8) + LEBytes(w1, 8) + LEBytes(w2, 8) + LEBytes(w3, 8)
  {
    hide LEBytes;
    WriteLittle64(output, 0, w0);
    assert output[..8] == LEBytes(w0, 8);
    WriteLittle64(output, 8, w1);
    assert output[..16] == output[..8] + output[8..16];
    WriteLittle64(output, 16, w2);
    assert output[..24] == output[..16] + output[16..24];
    WriteLittle64(output, 24, w3);
    assert output[..] == output[..24] + output[24..32];
  }

  /** Writes the unique 32-byte little-endian representative below p, for any limbs at all. */
  method FContract(output: array<byte>, input: array<limb>)
    requires output.Length == 32 && input.Length == 5
    modifies output
    ensures output[..] == LEBytes(old(FeOf(input[..])), 32)
  {
    hide Pow2, LE, Poly, Fe, LEBytes;
    ghost var v := FeOf(input[..]);
    var t0, t1, t2, t3, t4 := Canonical(input[0], input[1], input[2], input[3], input[4]);
    var w0, w1, w2, w3 := PackWords(t0, t1, t2, t3, t4);
    WriteWords(output, w0, w1, w2, w3);
    WordsToBytes(v, w0, w1, w2, w3);
  }

  lemma WordsToBytes(v: fe, w0: limb, w1: limb, w2: limb, w3: limb)
    requires w0 + TWO64 * w1 + TWO128 * w2 + TWO192 * w3 == v
    ensures LEBytes(w0, 8) + LEBytes(w1, 8) + LEBytes(w2, 8) + LEBytes(w3, 8) == LEBytes(v, 32)
  {
    hide Pow2, LE, LEBytes;
    var b0, b1, b2, b3 := LEBytes(w0, 8), LEBytes(w1, 8), LEBytes(w2, 8), LEBytes(w3, 8);
    WordValue(w0);
    WordValue(w1);
    WordValue(w2);
    WordValue(w3);
    JoinWord(b0, b1, 8);
    JoinWord(b0 + b1, b2, 16);
    JoinWord(b0 + b1 + b2, b3, 24);
    ElementValue(v);
    LEInjective(b0 + b1 + b2 + b3, LEBytes(v, 32));
  }

  lemma WordValue(w: limb)
    ensures LE(LEBytes(w, 8)) == w
  {
    LEOfBytes(w, 8);
    Pow2Table();
  }

  lemma ElementValue(v: fe)
    ensures LE(LEBytes(v, 32)) == v
  {
    LEOfBytes(v, 32);
    Pow2WideTable();
  }

  lemma JoinWord(a: seq<byte>, b: seq<byte>, n: nat)
    requires |a| == n && (n == 8 || n == 16 || n == 24)
    ensures LE(a + b) == LE(a) + (if n == 8 then LE(b) * TWO64 else if n == 16 then LE(b) * TWO128 else LE(b) * TWO192)
  {
    hide Pow2, LE;
    Pow2Table();
    Pow2WideTable();
    Pow2Add(64, 64);
    LEConcat(a, b);
  }
}

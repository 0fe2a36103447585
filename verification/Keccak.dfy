/** The Keccak-f[1600] permutation of section 3 of FIPS 202, and the code that computes it in place. */
module Keccak {
  import opened Arithmetic

  const ROUNDS: nat := 24

  /** Lane (x, y) is number x + 5 * y. */
  datatype Lanes = Lanes(
    s0: bv64, s1: bv64, s2: bv64, s3: bv64, s4: bv64,
    s5: bv64, s6: bv64, s7: bv64, s8: bv64, s9: bv64,
    s10: bv64, s11: bv64, s12: bv64, s13: bv64, s14: bv64,
    s15: bv64, s16: bv64, s17: bv64, s18: bv64, s19: bv64,
    s20: bv64, s21: bv64, s22: bv64, s23: bv64, s24: bv64)
  {
    function At(i: nat): bv64
      requires i < 25
    {
      match i / 5
      case 0 => Pick(i % 5, s0, s1, s2, s3, s4)
      case 1 => Pick(i % 5, s5, s6, s7, s8, s9)
      case 2 => Pick(i % 5, s10, s11, s12, s13, s14)
      case 3 => Pick(i % 5, s15, s16, s17, s18, s19)
      case _ => Pick(i % 5, s20, s21, s22, s23, s24)
    }
  }

  function Pick(x: nat, a: bv64, b: bv64, c: bv64, d: bv64, e: bv64): bv64
    requires x < 5
  {
    match x
    case 0 => a
    case 1 => b
    case 2 => c
    case 3 => d
    case _ => e
  }

  // ----- the step mappings, lane by lane -----

  function Rotl(x: bv64, n: nat): bv64
    requires n < 64
  {
    if n == 0 then x else (x << n) | (x >> (64 - n))
  }

  function Xor64(x: bv64, y: bv64): bv64 { x ^ y }

  /** x ^ (~y & z) */
  function AndNot(x: bv64, y: bv64, z: bv64): bv64 { x ^ (!y & z) }

  function Column(a: Lanes, x: nat): bv64
    requires x < 5
  {
    Xor64(Xor64(Xor64(Xor64(a.At(x), a.At(x + 5)), a.At(x + 10)), a.At(x + 15)), a.At(x + 20))
  }

  function ThetaAt(a: Lanes, i: nat): bv64
    requires i < 25
  {
    Xor64(a.At(i), Xor64(Column(a, (i % 5 + 4) % 5), Rotl(Column(a, (i % 5 + 1) % 5), 1)))
  }

  function Offset(i: nat): (n: nat)
    requires i < 25
    ensures n < 64
  {
    match i
    case 0 => 0
    case 1 => 1
    case 2 => 62
    case 3 => 28
    case 4 => 27
    case 5 => 36
    case 6 => 44
    case 7 => 6
    case 8 => 55
    case 9 => 20
    case 10 => 3
    case 11 => 10
    case 12 => 43
    case 13 => 25
    case 14 => 39
    case 15 => 41
    case 16 => 45
    case 17 => 15
    case 18 => 21
    case 19 => 8
    case 20 => 18
    case 21 => 2
    case 22 => 61
    case 23 => 56
    case _ => 14
  }

  function RhoAt(a: Lanes, i: nat): bv64
    requires i < 25
  {
    Rotl(a.At(i), Offset(i))
  }

  /** Pi takes lane (x, y) from (x + 3y, x). */
  function PiSource(i: nat): (k: nat)
    requires i < 25
    ensures k < 25
  {
    (i % 5 + 3 * (i / 5)) % 5 + 5 * (i % 5)
  }

  function RhoPiAt(a: Lanes, i: nat): bv64
    requires i < 25
  {
    RhoAt(a, PiSource(i))
  }

  function ChiAt(a: Lanes, i: nat): bv64
    requires i < 25
  {
    AndNot(a.At(i), a.At(i / 5 * 5 + (i % 5 + 1) % 5), a.At(i / 5 * 5 + (i % 5 + 2) % 5))
  }

  function Theta(a: Lanes): Lanes {
    Lanes(ThetaAt(a, 0), ThetaAt(a, 1), ThetaAt(a, 2), ThetaAt(a, 3), ThetaAt(a, 4),
          ThetaAt(a, 5), ThetaAt(a, 6), ThetaAt(a, 7), ThetaAt(a, 8), ThetaAt(a, 9),
          ThetaAt(a, 10), ThetaAt(a, 11), ThetaAt(a, 12), ThetaAt(a, 13), ThetaAt(a, 14),
          ThetaAt(a, 15), ThetaAt(a, 16), ThetaAt(a, 17), ThetaAt(a, 18), ThetaAt(a, 19),
          ThetaAt(a, 20), ThetaAt(a, 21), ThetaAt(a, 22), ThetaAt(a, 23), ThetaAt(a, 24))
  }

  function RhoPi(a: Lanes): Lanes {
    Lanes(RhoPiAt(a, 0), RhoPiAt(a, 1), RhoPiAt(a, 2), RhoPiAt(a, 3), RhoPiAt(a, 4),
          RhoPiAt(a, 5), RhoPiAt(a, 6), RhoPiAt(a, 7), RhoPiAt(a, 8), RhoPiAt(a, 9),
          RhoPiAt(a, 10), RhoPiAt(a, 11), RhoPiAt(a, 12), RhoPiAt(a, 13), RhoPiAt(a, 14),
          RhoPiAt(a, 15), RhoPiAt(a, 16), RhoPiAt(a, 17), RhoPiAt(a, 18), RhoPiAt(a, 19),
          RhoPiAt(a, 20), RhoPiAt(a, 21), RhoPiAt(a, 22), RhoPiAt(a, 23), RhoPiAt(a, 24))
  }

  function Chi(a: Lanes): Lanes {
    Lanes(ChiAt(a, 0), ChiAt(a, 1), ChiAt(a, 2), ChiAt(a, 3), ChiAt(a, 4),
          ChiAt(a, 5), ChiAt(a, 6), ChiAt(a, 7), ChiAt(a, 8), ChiAt(a, 9),
          ChiAt(a, 10), ChiAt(a, 11), ChiAt(a, 12), ChiAt(a, 13), ChiAt(a, 14),
          ChiAt(a, 15), ChiAt(a, 16), ChiAt(a, 17), ChiAt(a, 18), ChiAt(a, 19),
          ChiAt(a, 20), ChiAt(a, 21), ChiAt(a, 22), ChiAt(a, 23), ChiAt(a, 24))
  }

  function Constant(r: nat): bv64
    requires r < ROUNDS
  {
    match r
    case 0 => 0x0000000000000001
    case 1 => 0x0000000000008082
    case 2 => 0x800000000000808a
    case 3 => 0x8000000080008000
    case 4 => 0x000000000000808b
    case 5 => 0x0000000080000001
    case 6 => 0x8000000080008081
    case 7 => 0x8000000000008009
    case 8 => 0x000000000000008a
    case 9 => 0x0000000000000088
    case 10 => 0x0000000080008009
    case 11 => 0x000000008000000a
    case 12 => 0x000000008000808b
    case 13 => 0x800000000000008b
    case 14 => 0x8000000000008089
    case 15 => 0x8000000000008003
    case 16 => 0x8000000000008002
    case 17 => 0x8000000000000080
    case 18 => 0x000000000000800a
    case 19 => 0x800000008000000a
    case 20 => 0x8000000080008081
    case 21 => 0x8000000000008080
    case 22 => 0x0000000080000001
    case _ => 0x8000000080008008
  }

  function Iota(a: Lanes, r: nat): Lanes
    requires r < ROUNDS
  {
    a.(s0 := Xor64(a.s0, Constant(r)))
  }

  function Round(a: Lanes, r: nat): Lanes
    requires r < ROUNDS
  {
    Iota(Chi(RhoPi(Theta(a))), r)
  }

  function Permute(a: Lanes, n: nat): Lanes
    requires n <= ROUNDS
  {
    if n == 0 then a else Round(Permute(a, n - 1), n - 1)
  }

  // ----- the tables, entry by entry -----

  lemma Picked(a: bv64, b: bv64, c: bv64, d: bv64, e: bv64)
    ensures Pick(0, a, b, c, d, e) == a && Pick(1, a, b, c, d, e) == b && Pick(2, a, b, c, d, e) == c
    ensures Pick(3, a, b, c, d, e) == d && Pick(4, a, b, c, d, e) == e
  {
  }

  lemma UpperRows(a: Lanes)
    ensures a.At(0) == a.s0 && a.At(1) == a.s1 && a.At(2) == a.s2 && a.At(3) == a.s3 && a.At(4) == a.s4
    ensures a.At(5) == a.s5 && a.At(6) == a.s6 && a.At(7) == a.s7 && a.At(8) == a.s8 && a.At(9) == a.s9
  {
    hide Pick;
    Picked(a.s0, a.s1, a.s2, a.s3, a.s4);
    Picked(a.s5, a.s6, a.s7, a.s8, a.s9);
  }

  lemma MiddleRows(a: Lanes)
    ensures a.At(10) == a.s10 && a.At(11) == a.s11 && a.At(12) == a.s12 && a.At(13) == a.s13 && a.At(14) == a.s14
  {
    hide Pick;
    Picked(a.s10, a.s11, a.s12, a.s13, a.s14);
  }

  lemma LowerRows(a: Lanes)
    ensures a.At(15) == a.s15 && a.At(16) == a.s16 && a.At(17) == a.s17 && a.At(18) == a.s18 && a.At(19) == a.s19
    ensures a.At(20) == a.s20 && a.At(21) == a.s21 && a.At(22) == a.s22 && a.At(23) == a.s23 && a.At(24) == a.s24
  {
    hide Pick;
    Picked(a.s15, a.s16, a.s17, a.s18, a.s19);
    Picked(a.s20, a.s21, a.s22, a.s23, a.s24);
  }

  lemma Lookup(a: Lanes)
    ensures a.At(0) == a.s0 && a.At(1) == a.s1 && a.At(2) == a.s2 && a.At(3) == a.s3 && a.At(4) == a.s4
    ensures a.At(5) == a.s5 && a.At(6) == a.s6 && a.At(7) == a.s7 && a.At(8) == a.s8 && a.At(9) == a.s9
    ensures a.At(10) == a.s10 && a.At(11) == a.s11 && a.At(12) == a.s12 && a.At(13) == a.s13 && a.At(14) == a.s14
    ensures a.At(15) == a.s15 && a.At(16) == a.s16 && a.At(17) == a.s17 && a.At(18) == a.s18 && a.At(19) == a.s19
    ensures a.At(20) == a.s20 && a.At(21) == a.s21 && a.At(22) == a.s22 && a.At(23) == a.s23 && a.At(24) == a.s24
  {
    hide Lanes.At;
    UpperRows(a);
    MiddleRows(a);
    LowerRows(a);
  }

  lemma PiTable()
    ensures PiSource(0) == 0 && PiSource(1) == 6 && PiSource(2) == 12 && PiSource(3) == 18 && PiSource(4) == 24
    ensures PiSource(5) == 3 && PiSource(6) == 9 && PiSource(7) == 10 && PiSource(8) == 16 && PiSource(9) == 22
    ensures PiSource(10) == 1 && PiSource(11) == 7 && PiSource(12) == 13 && PiSource(13) == 19 && PiSource(14) == 20
    ensures PiSource(15) == 4 && PiSource(16) == 5 && PiSource(17) == 11 && PiSource(18) == 17 && PiSource(19) == 23
    ensures PiSource(20) == 2 && PiSource(21) == 8 && PiSource(22) == 14 && PiSource(23) == 15 && PiSource(24) == 21
  {
  }

  lemma OffsetTable()
    ensures Offset(0) == 0 && Offset(1) == 1 && Offset(2) == 62 && Offset(3) == 28 && Offset(4) == 27
    ensures Offset(5) == 36 && Offset(6) == 44 && Offset(7) == 6 && Offset(8) == 55 && Offset(9) == 20
    ensures Offset(10) == 3 && Offset(11) == 10 && Offset(12) == 43 && Offset(13) == 25 && Offset(14) == 39
    ensures Offset(15) == 41 && Offset(16) == 45 && Offset(17) == 15 && Offset(18) == 21 && Offset(19) == 8
    ensures Offset(20) == 18 && Offset(21) == 2 && Offset(22) == 61 && Offset(23) == 56 && Offset(24) == 14
  {
  }

  lemma Columns(a: Lanes)
    ensures Column(a, 0) == Xor64(Xor64(Xor64(Xor64(a.s0, a.s5), a.s10), a.s15), a.s20)
    ensures Column(a, 1) == Xor64(Xor64(Xor64(Xor64(a.s1, a.s6), a.s11), a.s16), a.s21)
    ensures Column(a, 2) == Xor64(Xor64(Xor64(Xor64(a.s2, a.s7), a.s12), a.s17), a.s22)
    ensures Column(a, 3) == Xor64(Xor64(Xor64(Xor64(a.s3, a.s8), a.s13), a.s18), a.s23)
    ensures Column(a, 4) == Xor64(Xor64(Xor64(Xor64(a.s4, a.s9), a.s14), a.s19), a.s24)
  {
    hide Lanes.At, Xor64;
    Lookup(a);
  }

  // ----- the code -----

  method ThetaInPlace(a: Lanes) returns (b: Lanes)
    ensures b == Theta(a)
  {
    hide Xor64, Rotl, Lanes.At, Column;
    Lookup(a);
    Columns(a);
    var Lanes(s0, s1, s2, s3, s4, s5, s6, s7, s8, s9, s10, s11, s12, s13, s14, s15, s16, s17, s18, s19, s20, s21, s22,
      s23, s24) := a;
    var t0 := Xor64(Xor64(Xor64(Xor64(s0, s5), s10), s15), s20);
    var t1 := Xor64(Xor64(Xor64(Xor64(s1, s6), s11), s16), s21);
    var t2 := Xor64(Xor64(Xor64(Xor64(s2, s7), s12), s17), s22);
    var t3 := Xor64(Xor64(Xor64(Xor64(s3, s8), s13), s18), s23);
    var t4 := Xor64(Xor64(Xor64(Xor64(s4, s9), s14), s19), s24);
    var u0 := Xor64(t4, Rotl(t1, 1));
    var u1 := Xor64(t0, Rotl(t2, 1));
    var u2 := Xor64(t1, Rotl(t3, 1));
    var u3 := Xor64(t2, Rotl(t4, 1));
    var u4 := Xor64(t3, Rotl(t0, 1));
    s0, s5, s10, s15, s20 := Xor64(s0, u0), Xor64(s5, u0), Xor64(s10, u0), Xor64(s15, u0), Xor64(s20, u0);
    s1, s6, s11, s16, s21 := Xor64(s1, u1), Xor64(s6, u1), Xor64(s11, u1), Xor64(s16, u1), Xor64(s21, u1);
    s2, s7, s12, s17, s22 := Xor64(s2, u2), Xor64(s7, u2), Xor64(s12, u2), Xor64(s17, u2), Xor64(s22, u2);
    s3, s8, s13, s18, s23 := Xor64(s3, u3), Xor64(s8, u3), Xor64(s13, u3), Xor64(s18, u3), Xor64(s23, u3);
    s4, s9, s14, s19, s24 := Xor64(s4, u4), Xor64(s9, u4), Xor64(s14, u4), Xor64(s19, u4), Xor64(s24, u4);
    b := Lanes(s0, s1, s2, s3, s4, s5, s6, s7, s8, s9, s10, s11, s12, s13, s14, s15, s16, s17, s18, s19, s20, s21, s22,
      s23, s24);
  }

  lemma Unrotated(x: bv64)
    ensures Rotl(x, 0) == x
  {
  }

  /** One cycle of rotations through all lanes but the first. */
  method RhoPiInPlace(a: Lanes) returns (b: Lanes)
    ensures b == RhoPi(a)
  {
    Unrotated(a.s0);
    hide Rotl, Lanes.At, PiSource, Offset;
    Lookup(a);
    PiTable();
    OffsetTable();
    var Lanes(s0, s1, s2, s3, s4, s5, s6, s7, s8, s9, s10, s11, s12, s13, s14, s15, s16, s17, s18, s19, s20, s21, s22,
      s23, s24) := a;
    var v := s1;
    s1 := Rotl(s6, 44);
    s6 := Rotl(s9, 20);
    s9 := Rotl(s22, 61);
    s22 := Rotl(s14, 39);
    s14 := Rotl(s20, 18);
    s20 := Rotl(s2, 62);
    s2 := Rotl(s12, 43);
    s12 := Rotl(s13, 25);
    s13 := Rotl(s19, 8);
    s19 := Rotl(s23, 56);
    s23 := Rotl(s15, 41);
    s15 := Rotl(s4, 27);
    s4 := Rotl(s24, 14);
    s24 := Rotl(s21, 2);
    s21 := Rotl(s8, 55);
    s8 := Rotl(s16, 45);
    s16 := Rotl(s5, 36);
    s5 := Rotl(s3, 28);
    s3 := Rotl(s18, 21);
    s18 := Rotl(s17, 15);
    s17 := Rotl(s11, 10);
    s11 := Rotl(s7, 6);
    s7 := Rotl(s10, 3);
    s10 := Rotl(v, 1);
    b := Lanes(s0, s1, s2, s3, s4, s5, s6, s7, s8, s9, s10, s11, s12, s13, s14, s15, s16, s17, s18, s19, s20, s21, s22,
      s23, s24);
  }

  method ChiInPlace(a: Lanes) returns (b: Lanes)
    ensures b == Chi(a)
  {
    hide AndNot, Lanes.At;
    Lookup(a);
    var Lanes(s0, s1, s2, s3, s4, s5, s6, s7, s8, s9, s10, s11, s12, s13, s14, s15, s16, s17, s18, s19, s20, s21, s22,
      s23, s24) := a;
    var v, w := s0, s1;
    s0 := AndNot(s0, w, s2);
    s1 := AndNot(s1, s2, s3);
    s2 := AndNot(s2, s3, s4);
    s3 := AndNot(s3, s4, v);
    s4 := AndNot(s4, v, w);
    v, w := s5, s6;
    s5 := AndNot(s5, w, s7);
    s6 := AndNot(s6, s7, s8);
    s7 := AndNot(s7, s8, s9);
    s8 := AndNot(s8, s9, v);
    s9 := AndNot(s9, v, w);
    v, w := s10, s11;
    s10 := AndNot(s10, w, s12);
    s11 := AndNot(s11, s12, s13);
    s12 := AndNot(s12, s13, s14);
    s13 := AndNot(s13, s14, v);
    s14 := AndNot(s14, v, w);
    v, w := s15, s16;
    s15 := AndNot(s15, w, s17);
    s16 := AndNot(s16, s17, s18);
    s17 := AndNot(s17, s18, s19);
    s18 := AndNot(s18, s19, v);
    s19 := AndNot(s19, v, w);
    v, w := s20, s21;
    s20 := AndNot(s20, w, s22);
    s21 := AndNot(s21, s22, s23);
    s22 := AndNot(s22, s23, s24);
    s23 := AndNot(s23, s24, v);
    s24 := AndNot(s24, v, w);
    b := Lanes(s0, s1, s2, s3, s4, s5, s6, s7, s8, s9, s10, s11, s12, s13, s14, s15, s16, s17, s18, s19, s20, s21, s22,
      s23, s24);
  }

  /** The 24 rounds of _SHA3_Block. */
  method Rounds(a: Lanes) returns (s: Lanes)
    ensures s == Permute(a, ROUNDS)
  {
    hide Theta, RhoPi, Chi, Xor64;
    s := a;
    for i := 0 to ROUNDS
      invariant s == Permute(a, i)
    {
      s := ThetaInPlace(s);
      s := RhoPiInPlace(s);
      s := ChiInPlace(s);
      s := s.(s0 := Xor64(s.s0, Constant(i)));
    }
  }

  // ----- what the offsets and constants are -----

  /** The walk of section 3.2.2 through the lanes. */
  function Walk(t: nat): (p: (nat, nat))
    ensures p.0 < 5 && p.1 < 5
  {
    if t == 0 then (1, 0) else var (x, y) := Walk(t - 1); (y, (2 * x + 3 * y) % 5)
  }

  /** The offsets are those of section 3.2.2: the lane reached at step t is rotated by the t-th triangular number. */
  lemma OffsetsFollowWalk(t: nat)
    requires t < 24
    ensures var (x, y) := Walk(t); Offset(x + 5 * y) == (t + 1) * (t + 2) / 2 % 64
  {
    hide Offset, Walk;
    OffsetTable();
    WalkTable();
    match t
    case 0 => case 1 => case 2 => case 3 => case 4 => case 5 => case 6 => case 7 =>
    case 8 => case 9 => case 10 => case 11 => case 12 => case 13 => case 14 => case 15 =>
    case 16 => case 17 => case 18 => case 19 => case 20 => case 21 => case 22 => case _ =>
  }

  lemma WalkTable()
    ensures Walk(0) == (1, 0) && Walk(1) == (0, 2) && Walk(2) == (2, 1) && Walk(3) == (1, 2) && Walk(4) == (2, 3)
      && Walk(5) == (3, 3)
    ensures Walk(6) == (3, 0) && Walk(7) == (0, 1) && Walk(8) == (1, 3) && Walk(9) == (3, 1) && Walk(10) == (1, 4)
      && Walk(11) == (4, 4)
    ensures Walk(12) == (4, 0) && Walk(13) == (0, 3) && Walk(14) == (3, 4) && Walk(15) == (4, 3) && Walk(16) == (3, 2)
      && Walk(17) == (2, 2)
    ensures Walk(18) == (2, 0) && Walk(19) == (0, 4) && Walk(20) == (4, 2) && Walk(21) == (2, 4) && Walk(22) == (4, 1)
      && Walk(23) == (1, 1)
  {
  }

  /** The shift register of section 3.2.5, its bit 0 the output. */
  function Shift(r: bv8): bv8 { if r & 0x80 == 0 then r << 1 else (r << 1) ^ 0x71 }

  /** The register after 7 * i shifts. */
  function Register(i: nat): bv8
    requires i <= ROUNDS
  {
    match i
    case 0 => 0x01
    case 1 => 0x80
    case 2 => 0xd8
    case 3 => 0x1a
    case 4 => 0xdf
    case 5 => 0x09
    case 6 => 0x35
    case 7 => 0x4f
    case 8 => 0xca
    case 9 => 0x70
    case 10 => 0x41
    case 11 => 0xec
    case 12 => 0xd5
    case 13 => 0xcd
    case 14 => 0x63
    case 15 => 0xab
    case 16 => 0xaa
    case 17 => 0x2a
    case 18 => 0xf2
    case 19 => 0xe8
    case 20 => 0x37
    case 21 => 0x3e
    case 22 => 0x0b
    case 23 => 0x44
    case _ => 0x8e
  }

  function Out(r: bv8): bv64 { if r & 1 == 1 then 1 else 0 }

  /** The seven output bits from r on, at positions 2^j - 1. */
  function Bits(r0: bv8): bv64 {
    var r1 := Shift(r0);
    var r2 := Shift(r1);
    var r3 := Shift(r2);
    var r4 := Shift(r3);
    var r5 := Shift(r4);
    var r6 := Shift(r5);
    Out(r0) | (Out(r1) << 1) | (Out(r2) << 3) | (Out(r3) << 7) | (Out(r4) << 15) | (Out(r5) << 31) | (Out(r6) << 63)
  }

  /** The round constants are the output of the shift register, seven bits a round. */
  lemma ConstantsFollowRegister(i: nat)
    requires i < ROUNDS
    ensures Register(0) == 1
    ensures Register(i + 1) == Shift(Shift(Shift(Shift(Shift(Shift(Shift(Register(i))))))))
    ensures Constant(i) == Bits(Register(i))
  {
  }
}

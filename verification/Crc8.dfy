/** The table-driven CRC-8 of CheckSumUtils against the bit-at-a-time register it stands for. */
module Crc8 {

  // ----- mico_CRC8Table, sixteen entries to a row as the source prints it -----

  const ROW0: seq<bv8> := [0, 94, 188, 226, 97, 63, 221, 131, 194, 156, 126, 32, 163, 253, 31, 65]
  const ROW1: seq<bv8> := [157, 195, 33, 127, 252, 162, 64, 30, 95, 1, 227, 189, 62, 96, 130, 220]
  const ROW2: seq<bv8> := [35, 125, 159, 193, 66, 28, 254, 160, 225, 191, 93, 3, 128, 222, 60, 98]
  const ROW3: seq<bv8> := [190, 224, 2, 92, 223, 129, 99, 61, 124, 34, 192, 158, 29, 67, 161, 255]
  const ROW4: seq<bv8> := [70, 24, 250, 164, 39, 121, 155, 197, 132, 218, 56, 102, 229, 187, 89, 7]
  const ROW5: seq<bv8> := [219, 133, 103, 57, 186, 228, 6, 88, 25, 71, 165, 251, 120, 38, 196, 154]
  const ROW6: seq<bv8> := [101, 59, 217, 135, 4, 90, 184, 230, 167, 249, 27, 69, 198, 152, 122, 36]
  const ROW7: seq<bv8> := [248, 166, 68, 26, 153, 199, 37, 123, 58, 100, 134, 216, 91, 5, 231, 185]
  const ROW8: seq<bv8> := [140, 210, 48, 110, 237, 179, 81, 15, 78, 16, 242, 172, 47, 113, 147, 205]
  const ROW9: seq<bv8> := [17, 79, 173, 243, 112, 46, 204, 146, 211, 141, 111, 49, 178, 236, 14, 80]
  const ROWA: seq<bv8> := [175, 241, 19, 77, 206, 144, 114, 44, 109, 51, 209, 143, 12, 82, 176, 238]
  const ROWB: seq<bv8> := [50, 108, 142, 208, 83, 13, 239, 177, 240, 174, 76, 18, 145, 207, 45, 115]
  const ROWC: seq<bv8> := [202, 148, 118, 40, 171, 245, 23, 73, 8, 86, 180, 234, 105, 55, 213, 139]
  const ROWD: seq<bv8> := [87, 9, 235, 181, 54, 104, 138, 212, 149, 203, 41, 119, 244, 170, 72, 22]
  const ROWE: seq<bv8> := [233, 183, 85, 11, 136, 214, 52, 106, 43, 117, 151, 201, 74, 20, 246, 168]
  const ROWF: seq<bv8> := [116, 42, 200, 150, 21, 75, 169, 247, 182, 232, 10, 84, 215, 137, 107, 53]

  /** mico_CRC8Table[i]: the row of its high digit, the place of its low digit. */
  function Entry(i: bv8): bv8 { Row(i >> 4)[(i & 15) as nat] }

  function Row(k: bv8): (r: seq<bv8>)
    ensures |r| == 16
  {
    match k
    case 0 => ROW0
    case 1 => ROW1
    case 2 => ROW2
    case 3 => ROW3
    case 4 => ROW4
    case 5 => ROW5
    case 6 => ROW6
    case 7 => ROW7
    case 8 => ROW8
    case 9 => ROW9
    case 10 => ROWA
    case 11 => ROWB
    case 12 => ROWC
    case 13 => ROWD
    case 14 => ROWE
    case _ => ROWF
  }

  // ----- the bitwise register -----

  /** One bit of the reflected CRC with polynomial 0x8C: the register shifts right. */
  function ShiftRight(r: bv8): bv8 {
    if r & 1 == 1 then (r >> 1) ^ 0x8C else r >> 1
  }

  function EightShifts(r: bv8): bv8 {
    ShiftRight(ShiftRight(ShiftRight(ShiftRight(ShiftRight(ShiftRight(ShiftRight(ShiftRight(r))))))))
  }

  /** Eight shifts of the sixteen indices from base on. */
  function RowFrom(base: bv8): (r: seq<bv8>)
    ensures |r| == 16
  {
    [EightShifts(base), EightShifts(base + 1), EightShifts(base + 2), EightShifts(base + 3),
     EightShifts(base + 4), EightShifts(base + 5), EightShifts(base + 6), EightShifts(base + 7),
     EightShifts(base + 8), EightShifts(base + 9), EightShifts(base + 10), EightShifts(base + 11),
     EightShifts(base + 12), EightShifts(base + 13), EightShifts(base + 14), EightShifts(base + 15)]
  }

  lemma Rows0To3()
    ensures ROW0 == RowFrom(0) && ROW1 == RowFrom(16) && ROW2 == RowFrom(32) && ROW3 == RowFrom(48)
  {
  }

  lemma Rows4To7()
    ensures ROW4 == RowFrom(64) && ROW5 == RowFrom(80) && ROW6 == RowFrom(96) && ROW7 == RowFrom(112)
  {
  }

  lemma Rows8ToB()
    ensures ROW8 == RowFrom(128) && ROW9 == RowFrom(144) && ROWA == RowFrom(160) && ROWB == RowFrom(176)
  {
  }

  lemma RowsCToF()
    ensures ROWC == RowFrom(192) && ROWD == RowFrom(208) && ROWE == RowFrom(224) && ROWF == RowFrom(240)
  {
  }

  lemma InRow(base: bv8, d: bv8)
    requires d <= 15
    ensures RowFrom(base)[d as nat] == EightShifts(base + d)
  {
    hide EightShifts;
    match d
    case 0 =>
    case 1 =>
    case 2 =>
    case 3 =>
    case 4 =>
    case 5 =>
    case 6 =>
    case 7 =>
    case 8 =>
    case 9 =>
    case 10 =>
    case 11 =>
    case 12 =>
    case 13 =>
    case 14 =>
    case _ => assert d == 15;
  }

  lemma RowIsShifts(k: bv8)
    requires k <= 15
    ensures Row(k) == RowFrom(k << 4)
  {
    hide RowFrom;
    Rows0To3();
    Rows4To7();
    Rows8ToB();
    RowsCToF();
  }

  /** Every entry of the table is eight shifts of its index. */
  lemma TableIsBitwise(x: bv8)
    ensures Entry(x) == EightShifts(x)
  {
    hide EightShifts, Row, RowFrom;
    assert x >> 4 <= 15 && x & 15 <= 15;
    RowIsShifts(x >> 4);
    InRow((x >> 4) << 4, x & 15);
    assert ((x >> 4) << 4) + (x & 15) == x;
  }

  /** Shift in one message bit. */
  function FeedBit(r: bv8, bit: bv8): bv8 { ShiftRight(r ^ bit) }

  /** Shift in the eight bits of a byte, the least significant first. */
  function FeedByte(r: bv8, b: bv8): bv8 {
    var r1 := FeedBit(FeedBit(r, b & 1), (b >> 1) & 1);
    var r2 := FeedBit(FeedBit(r1, (b >> 2) & 1), (b >> 3) & 1);
    var r3 := FeedBit(FeedBit(r2, (b >> 4) & 1), (b >> 5) & 1);
    FeedBit(FeedBit(r3, (b >> 6) & 1), (b >> 7) & 1)
  }

  /** Adding the whole byte first and shifting eight times is feeding its bits one by one. */
  lemma ByteAtOnce(r: bv8, b: bv8)
    ensures EightShifts(r ^ b) == FeedByte(r, b)
  {
  }

  /** The bit-at-a-time CRC of a message from a starting value. */
  function Bitwise(r: bv8, p: seq<bv8>): bv8
    decreases p
  {
    if |p| == 0 then r else FeedByte(Bitwise(r, p[..|p| - 1]), p[|p| - 1])
  }

  /** The CRC of a concatenation continues from the CRC of the first part. */
  lemma {:induction false} Composes(r: bv8, a: seq<bv8>, b: seq<bv8>)
    ensures Bitwise(r, a + b) == Bitwise(Bitwise(r, a), b)
  {
    hide FeedByte;
    if |b| == 0 {
      assert a + b == a;
    } else {
      var n := |b| - 1;
      Composes(r, a, b[..n]);
      assert (a + b)[..|a + b| - 1] == a + b[..n];
    }
  }

  /** mico_CRC8_Table */
  method Crc8Table(ori: bv8, p: seq<bv8>) returns (crc8: bv8)
    ensures crc8 == Bitwise(ori, p)
  {
    hide Entry, EightShifts, FeedByte;
    crc8 := ori;
    for i := 0 to |p|
      invariant crc8 == Bitwise(ori, p[..i])
    {
      TableIsBitwise(crc8 ^ p[i]);
      ByteAtOnce(crc8, p[i]);
      assert p[..i + 1][..i] == p[..i];
      crc8 := Entry(crc8 ^ p[i]);
    }
    assert p[..|p|] == p;
  }
}

/** Powers of two, quotients and remainders, and C's bitwise operators on unbounded naturals. */
module Arithmetic {

  type byte = x: int | 0 <= x < 256

  function Pow2(k: nat): (r: nat)
    ensures r >= 1
  {
    if k == 0 then 1 else 2 * Pow2(k - 1)
  }

  lemma {:induction false} Pow2Add(a: nat, b: nat)
    ensures Pow2(a + b) == Pow2(a) * Pow2(b)
  {
    if a > 0 {
      Pow2Add(a - 1, b);
      assert Pow2(a + b) == 2 * Pow2(a - 1 + b);
      assert 2 * (Pow2(a - 1) * Pow2(b)) == (2 * Pow2(a - 1)) * Pow2(b);
    }
  }

  lemma Pow2Table()
    ensures Pow2(0) == 1
    ensures Pow2(8) == 0x100
    ensures Pow2(16) == 0x1_0000
    ensures Pow2(32) == 0x1_0000_0000
    ensures Pow2(48) == 0x1_0000_0000_0000
    ensures Pow2(51) == 0x8_0000_0000_0000
    ensures Pow2(64) == 0x1_0000_0000_0000_0000
  {
    assert Pow2(0) == 1 && Pow2(3) == 8 && Pow2(8) == 0x100;
    hide Pow2;
    Pow2Add(8, 8);
    Pow2Add(16, 16);
    Pow2Add(32, 16);
    Pow2Add(48, 3);
    Pow2Add(32, 32);
  }

  lemma Pow2WideTable()
    ensures Pow2(96) == 0x1_0000_0000_0000_0000_0000_0000
    ensures Pow2(152) == 0x100_0000_0000_0000_0000_0000_0000_0000_0000_0000
    ensures Pow2(192) == 0x1_0000_0000_0000_0000_0000_0000_0000_0000_0000_0000_0000_0000
    ensures Pow2(255) == 0x8000_0000_0000_0000_0000_0000_0000_0000_0000_0000_0000_0000_0000_0000_0000_0000
    ensures Pow2(256) == 0x1_0000_0000_0000_0000_0000_0000_0000_0000_0000_0000_0000_0000_0000_0000_0000_0000
  {
    Pow2Table();
    assert Pow2(256) == 2 * Pow2(255);
    hide Pow2;
    Pow2Add(64, 32);
    Pow2Add(96, 48);
    Pow2Add(144, 8);
    Pow2Add(96, 96);
    Pow2Add(192, 48);
    Pow2Add(240, 8);
    Pow2Add(248, 8);
  }

  // ----- quotients and remainders -----

  /** A quotient and remainder that satisfy the division equation are the quotient and remainder. */
  lemma {:induction false} DivModUnique(x: int, m: int, q: int, r: int)
    requires 0 < m && 0 <= r < m && x == q * m + r
    ensures x / m == q && x % m == r
  {
    var q', r' := x / m, x % m;
    assert x == q' * m + r';
    assert (q - q') * m == r' - r && (q' - q) * m == r - r';
    if q > q' {
      MulMono(1, q - q', m);
    } else if q < q' {
      MulMono(1, q' - q, m);
    }
  }

  lemma MulMono(a: int, b: int, c: int)
    requires a <= b && 0 <= c
    ensures a * c <= b * c
  {
  }

  lemma {:induction false} ModAddMultiple(x: int, k: int, m: int)
    requires 0 < m
    ensures (x + k * m) % m == x % m
  {
    var q := x / m;
    assert x + k * m == (q + k) * m + x % m by {
      assert x == q * m + x % m;
      assert (q + k) * m == q * m + k * m;
    }
    DivModUnique(x + k * m, m, q + k, x % m);
  }

  lemma MulPositive(a: int, b: int)
    requires 0 < a && 0 < b
    ensures 0 < a * b
  {
  }

  lemma {:induction false} DivDiv(x: nat, a: nat, b: nat)
    requires 0 < a && 0 < b
    ensures 0 < a * b
    ensures x / a / b == x / (a * b)
    ensures x / a % b == x % (a * b) / a
    ensures x % (a * b) % a == x % a
  {
    var q, r := x / a, x % a;
    var q2, r2 := q / b, q % b;
    MulPositive(a, b);
    Regroup(x, a, b, q, r, q2, r2);
    DivModUnique(x, a * b, q2, r2 * a + r);
    DivModUnique(r2 * a + r, a, r2, r);
  }

  lemma Regroup(x: nat, a: nat, b: nat, q: nat, r: nat, q2: nat, r2: nat)
    requires r < a && r2 < b
    requires x == q * a + r && q == q2 * b + r2
    ensures x == q2 * (a * b) + (r2 * a + r)
    ensures 0 <= r2 * a + r < a * b
  {
    assert q * a == q2 * (a * b) + r2 * a by {
      assert (q2 * b) * a == q2 * (a * b);
    }
    MulMono(r2 + 1, b, a);
    assert (r2 + 1) * a == r2 * a + a;
    MulMono(0, r2, a);
  }

  // ----- bitwise operators -----

  function And(x: nat, y: nat): nat
    decreases x
  {
    if x == 0 || y == 0 then 0
    else (if x % 2 == 1 && y % 2 == 1 then 1 else 0) + 2 * And(x / 2, y / 2)
  }

  function Or(x: nat, y: nat): nat
    decreases x
  {
    if x == 0 then y
    else if y == 0 then x
    else (if x % 2 == 1 || y % 2 == 1 then 1 else 0) + 2 * Or(x / 2, y / 2)
  }

  function Xor(x: nat, y: nat): nat
    decreases x
  {
    if x == 0 then y
    else if y == 0 then x
    else (if x % 2 != y % 2 then 1 else 0) + 2 * Xor(x / 2, y / 2)
  }

  /** Masking with k ones keeps the k low bits. */
  lemma {:induction false} AndMask(x: nat, k: nat)
    ensures And(x, Pow2(k) - 1) == x % Pow2(k)
  {
    if k > 0 {
      var m := Pow2(k - 1);
      AndMask(x / 2, k - 1);
      HalveMod(x, m);
      AndOdd(x, m);
    }
  }

  lemma MaskIsMod(x: nat, k: nat, m: nat)
    requires m == Pow2(k)
    ensures And(x, m - 1) == x % m
  {
    AndMask(x, k);
  }

  lemma AndOdd(x: nat, m: nat)
    requires 0 < m
    ensures And(x, 2 * m - 1) == x % 2 + 2 * And(x / 2, m - 1)
  {
    assert (2 * m - 1) % 2 == 1 && (2 * m - 1) / 2 == m - 1;
  }

  lemma HalveMod(x: nat, m: nat)
    requires 0 < m
    ensures x % (2 * m) == x % 2 + 2 * (x / 2 % m)
  {
    DivDiv(x, 2, m);
  }

  /** OR of a k-bit number and a multiple of 2^k is their sum. */
  lemma {:induction false} OrDisjoint(x: nat, y: nat, k: nat)
    requires x < Pow2(k) && y % Pow2(k) == 0
    ensures Or(x, y) == x + y
  {
    if x > 0 && y > 0 {
      HalveMod(y, Pow2(k - 1));
      OrDisjoint(x / 2, y / 2, k - 1);
    }
  }

  lemma {:induction false} XorCancel(x: nat, y: nat)
    ensures Xor(x, Xor(x, y)) == y
    ensures Xor(y, Xor(x, y)) == x
    ensures Xor(x, x) == 0
    decreases x + y
  {
    hide Xor;
    XorStep(x, y);
    if x > 0 || y > 0 {
      XorCancel(x / 2, y / 2);
      XorStep(x, Xor(x, y));
      XorStep(y, Xor(x, y));
      XorStep(x, x);
    }
  }

  /** Bit by bit, from the last. */
  lemma XorStep(x: nat, y: nat)
    ensures Xor(x, y) == 2 * Xor(x / 2, y / 2) + (if x % 2 != y % 2 then 1 else 0)
    ensures Xor(0, 0) == 0
  {
  }

  lemma {:induction false} XorBound(x: nat, y: nat, k: nat)
    requires x < Pow2(k) && y < Pow2(k)
    ensures Xor(x, y) < Pow2(k)
  {
    if k > 0 {
      XorBound(x / 2, y / 2, k - 1);
    }
  }

  lemma {:induction false} AndAtMost(x: nat, y: nat)
    ensures And(x, y) <= x
  {
    if x > 0 {
      AndAtMost(x / 2, y / 2);
    }
  }

  lemma {:induction false} OrBound(x: nat, y: nat, k: nat)
    requires x < Pow2(k) && y < Pow2(k)
    ensures Or(x, y) < Pow2(k)
  {
    if k > 0 {
      OrBound(x / 2, y / 2, k - 1);
    }
  }

  lemma {:induction false} AndComm(x: nat, y: nat)
    ensures And(x, y) == And(y, x)
  {
    if x > 0 && y > 0 {
      AndComm(x / 2, y / 2);
    }
  }

  /** x & (1 << k) tests bit k. */
  lemma {:induction false} AndBit(x: nat, k: nat)
    ensures And(x, Pow2(k)) == (if x / Pow2(k) % 2 == 1 then Pow2(k) else 0)
  {
    if k == 0 {
      assert And(x, 1) == x % 2 by { assert And(x / 2, 0) == 0; }
    } else {
      AndBit(x / 2, k - 1);
      AndTwice(x, Pow2(k - 1));
      DivDiv(x, 2, Pow2(k - 1));
    }
  }

  lemma AndTwice(x: nat, y: nat)
    ensures And(x, 2 * y) == 2 * And(x / 2, y)
  {
    if x > 0 && y > 0 {
      assert 2 * y / 2 == y && 2 * y % 2 == 0;
      AndStep(x, 2 * y);
    } else if x > 0 {
      assert And(x, 0) == 0 == And(x / 2, 0);
    }
  }

  lemma AndStep(x: nat, y: nat)
    requires x > 0 && y > 0
    ensures And(x, y) == 2 * And(x / 2, y / 2) + (if x % 2 == 1 && y % 2 == 1 then 1 else 0)
  {
  }

  lemma QuotientNat(x: nat, m: nat)
    requires 0 < m
    ensures 0 <= x / m
  {
  }

  function AndByte(x: byte, y: byte): byte {
    AndAtMost(x, y);
    And(x, y)
  }

  function OrByte(x: byte, y: byte): byte {
    Pow2Table();
    OrBound(x, y, 8);
    Or(x, y)
  }

  function XorByte(x: byte, y: byte): byte {
    Pow2Table();
    XorBound(x, y, 8);
    Xor(x, y)
  }

  // ----- little-endian byte strings -----

  function LE(b: seq<byte>): (r: nat)
    ensures r < Pow2(8 * |b|)
  {
    if |b| == 0 then 0
    else
      assert Pow2(8 * |b|) == 256 * Pow2(8 * |b[1..]|) by { Pow2Table(); Pow2Add(8, 8 * |b[1..]|); }
      b[0] + 256 * LE(b[1..])
  }

  lemma {:induction false} LEConcat(a: seq<byte>, b: seq<byte>)
    ensures LE(a + b) == LE(a) + LE(b) * Pow2(8 * |a|)
  {
    if |a| == 0 {
      assert a + b == b;
    } else {
      LEConcat(a[1..], b);
      assert (a + b)[1..] == a[1..] + b;
      Pow2Table();
      Pow2Add(8, 8 * |a[1..]|);
      Horner(a[0], LE(a[1..]), LE(b), Pow2(8 * |a[1..]|));
    }
  }

  lemma Horner(d: int, x: int, y: int, m: int)
    ensures d + 256 * (x + y * m) == (d + 256 * x) + y * (256 * m)
  {
  }

  lemma LESingle(x: byte)
    ensures LE([]) == 0 && LE([x]) == x
  {
    assert [x][1..] == [];
  }

  /** A slice of a byte string is the matching field of its value. */
  lemma {:induction false} LESlice(b: seq<byte>, i: nat, n: nat)
    requires i + n <= |b|
    ensures LE(b[i..i + n]) == LE(b) / Pow2(8 * i) % Pow2(8 * n)
  {
    hide Pow2, LE;
    var low, mid, high := b[..i], b[i..i + n], b[i + n..];
    assert b == low + (mid + high);
    LEConcat(low, mid + high);
    LEConcat(mid, high);
    DivModUnique(LE(b), Pow2(8 * i), LE(mid + high), LE(low));
    DivModUnique(LE(mid + high), Pow2(8 * n), LE(high), LE(mid));
  }

  lemma {:induction false} LEInjective(a: seq<byte>, b: seq<byte>)
    requires |a| == |b| && LE(a) == LE(b)
    ensures a == b
  {
    if |a| > 0 {
      assert a[0] == b[0] && LE(a[1..]) == LE(b[1..]);
      LEInjective(a[1..], b[1..]);
      assert a == [a[0]] + a[1..] && b == [b[0]] + b[1..];
    }
  }

  /** The n low bytes of x, least significant first. */
  function LEBytes(x: nat, n: nat): (b: seq<byte>)
    ensures |b| == n
    decreases n, x
  {
    if n == 0 then [] else [x % 256] + LEBytes(x / 256, n - 1)
  }

  lemma {:induction false} LEOfBytes(x: nat, n: nat)
    ensures LE(LEBytes(x, n)) == x % Pow2(8 * n)
  {
    if n > 0 {
      LEOfBytes(x / 256, n - 1);
      assert LEBytes(x, n)[1..] == LEBytes(x / 256, n - 1);
      Pow2Table();
      Pow2Add(8, 8 * (n - 1));
      SplitMod(x, 256, Pow2(8 * (n - 1)));
    }
  }

  lemma SplitMod(x: nat, a: nat, b: nat)
    requires 0 < a && 0 < b
    ensures 0 < a * b
    ensures x % (a * b) == x % a + a * (x / a % b)
  {
    DivDiv(x, a, b);
  }

  lemma {:induction false} LEByteAt(x: nat, n: nat, i: nat)
    requires i < n
    ensures LEBytes(x, n)[i] == x / Pow2(8 * i) % 256
  {
    if i > 0 {
      LEByteAt(x / 256, n - 1, i - 1);
      Pow2Table();
      Pow2Add(8, 8 * (i - 1));
      DivDiv(x, 256, Pow2(8 * (i - 1)));
    }
  }

  // ----- big-endian byte strings -----

  /** The number a byte string spells, most significant byte first. */
  function BE(data: seq<byte>): nat {
    if |data| == 0 then 0 else 256 * BE(data[..|data| - 1]) + data[|data| - 1]
  }

  lemma {:induction false} BEBound(data: seq<byte>)
    ensures BE(data) < Pow2(8 * |data|)
  {
    if |data| > 0 {
      var n := |data| - 1;
      BEBound(data[..n]);
      Pow2Table();
      Pow2Add(8, 8 * n);
    }
  }

  /** The n low bytes of x, most significant first. */
  function BEBytes(x: nat, n: nat): (b: seq<byte>)
    ensures |b| == n
  {
    if n == 0 then [] else BEBytes(x / 256, n - 1) + [x % 256]
  }

  lemma {:induction false} BEOfBytes(x: nat, n: nat)
    ensures BE(BEBytes(x, n)) == x % Pow2(8 * n)
  {
    if n > 0 {
      BEOfBytes(x / 256, n - 1);
      Pow2Table();
      Pow2Add(8, 8 * (n - 1));
      hide Pow2;
      assert BEBytes(x, n)[..n - 1] == BEBytes(x / 256, n - 1);
      SplitMod(x, 256, Pow2(8 * (n - 1)));
    }
  }

  lemma {:induction false} BytesOfBE(b: seq<byte>)
    ensures BEBytes(BE(b), |b|) == b
  {
    if |b| > 0 {
      var n := |b| - 1;
      BytesOfBE(b[..n]);
      assert BE(b) / 256 == BE(b[..n]) && BE(b) % 256 == b[n];
      assert BEBytes(BE(b), n + 1) == BEBytes(BE(b[..n]), n) + [b[n]];
    }
  }

  /** Only the low n bytes count. */
  lemma BELow(x: nat, n: nat)
    ensures 0 < Pow2(8 * n) && BEBytes(x % Pow2(8 * n), n) == BEBytes(x, n)
  {
    hide Pow2, BEBytes;
    var m := Pow2(8 * n);
    DivMod(x, m);
    BEBytesAddMultiple(x % m, x / m, n);
  }

  lemma DivMod(x: nat, m: nat)
    requires 0 < m
    ensures x == x % m + x / m * m
  {
  }

  lemma {:induction false} BEBytesAddMultiple(x: nat, q: nat, n: nat)
    ensures BEBytes(x + q * Pow2(8 * n), n) == BEBytes(x, n)
    decreases n
  {
    if n > 0 {
      hide Pow2;
      Pow2Byte(n - 1);
      var m := Pow2(8 * (n - 1));
      ByteShift(x, q, m);
      BEBytesAddMultiple(x / 256, q, n - 1);
    }
  }

  lemma Pow2Byte(n: nat)
    ensures Pow2(8 * (n + 1)) == 256 * Pow2(8 * n)
  {
    Pow2Table();
    hide Pow2;
    Pow2Add(8, 8 * n);
  }

  lemma ByteShift(x: nat, q: nat, m: nat)
    ensures q * (256 * m) >= 0 && x + q * (256 * m) == x + 256 * (q * m)
    ensures (x + q * (256 * m)) / 256 == x / 256 + q * m && (x + q * (256 * m)) % 256 == x % 256
  {
    var y := q * m;
    assert q * (256 * m) == 256 * y;
    assert (x + 256 * y) / 256 == x / 256 + y;
  }
}

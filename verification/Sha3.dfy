/** The Keccak sponge with a 72-byte rate: buffering a message into blocks, and the padding 10*1. */
module Sha3 {
  import opened Arithmetic
  import opened Buffers
  import opened Keccak

  const RATE: int := 72

  /** Eight bytes as a lane, least significant first. */
  function Lane(m: seq<byte>, i: nat): bv64
    requires i + 8 <= |m|
  {
    Pow2Table();
    LE(m[i..i + 8]) as bv64
  }

  /** The block, followed by zeros, added to the state. */
  function Mix(a: Lanes, b: seq<byte>): Lanes
    requires |b| == RATE
  {
    a.(s0 := Xor64(a.s0, Lane(b, 0)), s1 := Xor64(a.s1, Lane(b, 8)), s2 := Xor64(a.s2, Lane(b, 16)),
       s3 := Xor64(a.s3, Lane(b, 24)), s4 := Xor64(a.s4, Lane(b, 32)), s5 := Xor64(a.s5, Lane(b, 40)),
       s6 := Xor64(a.s6, Lane(b, 48)), s7 := Xor64(a.s7, Lane(b, 56)), s8 := Xor64(a.s8, Lane(b, 64)))
  }

  const EMPTY: Lanes := Lanes(0, 0, 0, 0, 0, 0, 0, 0, 0, 0, 0, 0, 0, 0, 0, 0, 0, 0, 0, 0, 0, 0, 0, 0, 0)

  /** A whole number of blocks. */
  predicate Whole(data: seq<byte>) { |data| % RATE == 0 }

  lemma OneBlockLess(data: seq<byte>)
    requires Whole(data) && |data| > 0
    ensures |data| >= RATE && Whole(data[..|data| - RATE])
  {
  }

  lemma OneBlockMore(data: seq<byte>, b: seq<byte>)
    requires Whole(data) && |b| == RATE
    ensures Whole(data + b)
  {
  }

  /** The sponge after a whole number of blocks: section 4 of FIPS 202. */
  function Absorbed(data: seq<byte>): Lanes
    requires Whole(data)
  {
    if |data| == 0 then EMPTY
    else
      hide Mix, Permute, Whole;
      OneBlockLess(data);
      Permute(Mix(Absorbed(data[..|data| - RATE]), data[|data| - RATE..]), ROUNDS)
  }

  /** The padding as bytes: 0x01, zeros, 0x80; or 0x81 when one byte is missing. */
  function Padding(n: nat): (p: seq<byte>)
    ensures 1 <= |p| <= RATE && (n + |p|) % RATE == 0
  {
    var k := RATE - n % RATE;
    if k == 1 then [0x81] else [0x01] + Zeros(k - 2) + [0x80]
  }

  function LaneBytes(x: bv64): seq<byte> { LEBytes(x as int, 8) }

  function Output(a: Lanes): seq<byte> {
    LaneBytes(a.s0) + LaneBytes(a.s1) + LaneBytes(a.s2) + LaneBytes(a.s3)
    + LaneBytes(a.s4) + LaneBytes(a.s5) + LaneBytes(a.s6) + LaneBytes(a.s7)
  }

  function Digest(data: seq<byte>): seq<byte> { Output(Absorbed(data + Padding(|data|))) }

  lemma AbsorbedStep(data: seq<byte>, b: seq<byte>)
    requires Whole(data) && |b| == RATE
    ensures Whole(data + b) && Absorbed(data + b) == Permute(Mix(Absorbed(data), b), ROUNDS)
  {
    hide Mix, Permute, Whole;
    OneBlockMore(data, b);
    var all := data + b;
    assert all[..|all| - RATE] == data && all[|all| - RATE..] == b;
  }

  // ----- the code -----

  /** SHA3_CTX_compat */
  class Context {
    var state: Lanes
    var leftover: nat
    const buffer: array<byte>
    /** The blocks the state has absorbed. */
    ghost var done: seq<byte>

    /** SHA3_Init_compat */
    constructor ()
      ensures Valid() && Message() == [] && fresh(buffer)
    {
      state, leftover, done := EMPTY, 0, [];
      buffer := new byte[72](i => 0);
    }

    /** The state and what it has absorbed agree. */
    ghost predicate Absorbing()
      reads this`state, this`done
    {
      Whole(done) && state == Absorbed(done)
    }

    ghost predicate Valid()
      reads this
    {
      buffer.Length == RATE && leftover < RATE && Absorbing()
    }

    /** Everything given so far: whole blocks, then the bytes left over in the buffer. */
    ghost function Message(): seq<byte>
      requires leftover <= buffer.Length
      reads this, buffer
    {
      done + buffer[..leftover]
    }

    /** _SHA3_Block */
    method Block(b: seq<byte>)
      requires |b| == RATE && Absorbing()
      modifies this`state, this`done
      ensures Absorbing() && done == old(done) + b
    {
      hide Mix, Permute, Absorbed, Whole;
      AbsorbedStep(done, b);
      state := Rounds(Mix(state, b));
      done := done + b;
    }

    /** SHA3_Update_compat */
    method Update(data: seq<byte>)
      requires Valid()
      modifies this, buffer
      ensures Valid() && Message() == old(Message()) + data
    {
      hide Absorbing;
      ghost var before := Message();
      var filled, full := FillBuffer(data);
      if full {
        var src := AbsorbWhole(data, filled);
        CutInThree(before, data, filled, src);
        leftover := |data| - src;
        CopyInto(buffer, 0, data[src..]);
        assert buffer[..leftover] == data[src..];
      }
    }

    /** Complete the block left over from before, if there is one. */
    method FillBuffer(data: seq<byte>) returns (src: nat, full: bool)
      requires Valid()
      modifies this, buffer
      ensures src <= |data| && Absorbing()
      ensures if full then done == old(Message()) + data[..src] else Valid() && Message() == old(Message()) + data
    {
      hide Absorbing;
      if leftover == 0 {
        assert done == old(Message()) + data[..0];
        return 0, true;
      }
      var want := if RATE - leftover < |data| then RATE - leftover else |data|;
      CopyInto(buffer, leftover, data[..want]);
      leftover := leftover + want;
      assert buffer[..leftover] == old(buffer[..leftover]) + data[..want];
      if leftover < RATE {
        return want, false;
      }
      assert buffer[..] == buffer[..leftover];
      Block(buffer[..]);
      return want, true;
    }

    /** Absorb whole blocks straight from the data. */
    method AbsorbWhole(data: seq<byte>, from: nat) returns (src: nat)
      requires from <= |data| && Absorbing()
      modifies this`state, this`done
      ensures from <= src <= |data| < src + RATE && Absorbing() && done == old(done) + data[from..src]
    {
      hide Absorbing;
      src := from;
      while |data| - src >= RATE
        invariant from <= src <= |data| && Absorbing() && done == old(done) + data[from..src]
      {
        Block(data[src..src + RATE]);
        src := src + RATE;
        assert data[from..src] == data[from..src - RATE] + data[src - RATE..src];
      }
    }

    /** SHA3_Final_compat */
    method Final() returns (digest: seq<byte>)
      requires Valid()
      modifies this, buffer
      ensures digest == Digest(old(Message()))
    {
      hide Absorbed, Output, Whole;
      ghost var blocks, tail := done, buffer[..leftover];
      buffer[leftover] := 0x01;
      CopyInto(buffer, leftover + 1, Zeros(RATE - (leftover + 1)));
      ghost var before := buffer[..];
      assert before == tail + [0x01] + Zeros(RATE - 1 - leftover);
      TopBit(buffer[RATE - 1]);
      buffer[RATE - 1] := OrByte(buffer[RATE - 1], 0x80);
      LastBlock(blocks, tail, buffer[..]);
      Block(buffer[..]);
      digest := Output(state);
    }
  }

  lemma CutInThree(before: seq<byte>, data: seq<byte>, i: nat, j: nat)
    requires i <= j <= |data|
    ensures before + data[..i] + data[i..j] + data[j..] == before + data
  {
  }

  lemma TopBit(x: byte)
    requires x < 0x80
    ensures OrByte(x, 0x80) == x + 0x80
  {
    hide Or;
    Pow2Table();
    OrDisjoint(x, 0x80, 7);
  }

  lemma LastBlock(done: seq<byte>, tail: seq<byte>, last: seq<byte>)
    requires Whole(done) && |tail| < RATE && |last| == RATE
    requires last == (tail + [0x01] + Zeros(RATE - 1 - |tail|))[RATE - 1 := if |tail| == RATE - 1 then 0x81 else 0x80]
    ensures (done + tail) + Padding(|done + tail|) == done + last
  {
    assert |done + tail| % RATE == |tail|;
    assert last == tail + Padding(|done + tail|);
  }

  /** However a message is cut into pieces, the digest is that of the whole message. */
  method DigestInPieces(pieces: seq<seq<byte>>) returns (digest: seq<byte>)
    ensures digest == Digest(Flatten(pieces))
  {
    hide Digest, Absorbed;
    var c := new Context();
    for i := 0 to |pieces|
      invariant fresh(c) && fresh(c.buffer) && c.Valid() && c.Message() == Flatten(pieces[..i])
    {
      assert pieces[..i + 1][..i] == pieces[..i];
      c.Update(pieces[i]);
    }
    assert pieces[..|pieces|] == pieces;
    digest := c.Final();
  }

  // ----- the padding as bits: section 5.1 of FIPS 202 -----

  /** The k low bits of x, lowest first. */
  function LowBits(x: nat, k: nat): (b: seq<bool>)
    ensures |b| == k
    decreases k, x
  {
    if k == 0 then [] else [x % 2 == 1] + LowBits(x / 2, k - 1)
  }

  /** A byte string as a bit string, the lowest bit of each byte first. */
  function BitString(data: seq<byte>): (b: seq<bool>)
    ensures |b| == 8 * |data|
  {
    if |data| == 0 then [] else BitString(data[..|data| - 1]) + LowBits(data[|data| - 1], 8)
  }

  function ZeroBits(n: nat): seq<bool> { seq(n, i => false) }

  lemma {:induction false} BitsOfConcat(a: seq<byte>, b: seq<byte>)
    ensures BitString(a + b) == BitString(a) + BitString(b)
  {
    if |b| == 0 {
      assert a + b == a;
    } else {
      BitsOfConcat(a, b[..|b| - 1]);
      assert (a + b)[..|a + b| - 1] == a + b[..|b| - 1];
    }
  }

  lemma {:induction false} BitsOfZeros(n: nat)
    ensures BitString(Zeros(n)) == ZeroBits(8 * n)
  {
    if n > 0 {
      BitsOfZeros(n - 1);
      assert Zeros(n)[..n - 1] == Zeros(n - 1);
      assert LowBits(0, 8) == ZeroBits(8) by { LowBitsOfZero(8); }
    }
  }

  lemma {:induction false} LowBitsOfZero(k: nat)
    ensures LowBits(0, k) == ZeroBits(k)
  {
    if k > 0 {
      LowBitsOfZero(k - 1);
    }
  }

  lemma BitsOfByte(x: byte)
    ensures BitString([x]) == LowBits(x, 8)
  {
    assert [x][..0] == [];
  }

  lemma PaddingBytes()
    ensures LowBits(0x01, 8) == [true] + ZeroBits(7)
    ensures LowBits(0x80, 8) == ZeroBits(7) + [true]
    ensures LowBits(0x81, 8) == [true] + ZeroBits(6) + [true]
  {
    LowBitsOfZero(7);
    assert LowBits(0x81 / 2, 7) == LowBits(0x80 / 2, 7);
    assert LowBits(0x80, 8) == [false] + LowBits(0x40, 7);
    assert LowBits(0x40, 7) == [false] + LowBits(0x20, 6);
    assert LowBits(0x20, 6) == [false] + LowBits(0x10, 5);
    assert LowBits(0x10, 5) == [false] + LowBits(0x08, 4);
    assert LowBits(0x08, 4) == [false] + LowBits(0x04, 3);
    assert LowBits(0x04, 3) == [false] + LowBits(0x02, 2);
    assert LowBits(0x02, 2) == [false] + LowBits(0x01, 1);
  }

  /** A one, the fewest zeros, and a one, with no domain suffix: the bit length becomes a multiple of 576. */
  lemma {:induction false} PaddingIsPad101(n: nat)
    ensures var j := 8 * |Padding(n)| - 2;
            BitString(Padding(n)) == [true] + ZeroBits(j) + [true] && (8 * n + 2 + j) % 576 == 0 && j < 576
  {
    hide BitString, LowBits, Zeros;
    PaddingBytes();
    var k := RATE - n % RATE;
    if k == 1 {
      BitsOfByte(0x81);
    } else {
      BitsOfByte(0x01);
      BitsOfByte(0x80);
      BitsOfZeros(k - 2);
      BitsOfConcat([0x01], Zeros(k - 2));
      BitsOfConcat([0x01] + Zeros(k - 2), [0x80]);
      assert ([true] + ZeroBits(7)) + ZeroBits(8 * (k - 2)) + (ZeroBits(7) + [true])
          == [true] + ZeroBits(8 * k - 2) + [true];
    }
  }

  /** Different messages have different padded forms. */
  lemma {:induction false} PaddingInjective(a: seq<byte>, b: seq<byte>)
    requires |a| <= |b| && a + Padding(|a|) == b + Padding(|b|)
    ensures a == b
  {
    var p, q := a + Padding(|a|), b + Padding(|b|);
    if |a| < |b| {
      PadsDiffer(a, b);
    } else {
      assert p[..|a|] == a && q[..|b|] == b;
    }
  }

  /** Behind its first byte a pad is zeros and one 0x80, so it cannot contain the start of another pad. */
  lemma PadsDiffer(a: seq<byte>, b: seq<byte>)
    requires |a| < |b|
    ensures a + Padding(|a|) != b + Padding(|b|)
  {
    if |b| < |a| + |Padding(|a|)| {
      assert (a + Padding(|a|))[|b|] == Padding(|a|)[|b| - |a|];
      assert (b + Padding(|b|))[|b|] == Padding(|b|)[0];
    }
  }
}

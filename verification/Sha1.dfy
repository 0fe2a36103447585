/** SHA-1: the block function with its rotating registers, and the buffering of a message into blocks. */
module Sha1 {
  import opened Arithmetic
  import opened Buffers

  const BLOCK: int := 64
  const WORD64: nat := 0x1_0000_0000_0000_0000

  // ----- section 6.1.2 of FIPS 180-4 -----

  function Rotl(x: bv32, n: nat): bv32
    requires 0 < n < 32
  {
    (x << n) | (x >> (32 - n))
  }

  function Ch(x: bv32, y: bv32, z: bv32): bv32 { (x & y) ^ (!x & z) }
  function Parity(x: bv32, y: bv32, z: bv32): bv32 { x ^ y ^ z }
  function Maj(x: bv32, y: bv32, z: bv32): bv32 { (x & y) ^ (x & z) ^ (y & z) }

  function F(t: nat, x: bv32, y: bv32, z: bv32): bv32 {
    if t < 20 then Ch(x, y, z) else if t < 40 then Parity(x, y, z) else if t < 60 then Maj(x, y, z) else Parity(x, y, z)
  }

  function K(t: nat): bv32 {
    if t < 20 then 0x5a827999 else if t < 40 then 0x6ed9eba1 else if t < 60 then 0x8f1bbcdc else 0xca62c1d6
  }

  /** Four bytes as a word, most significant first. */
  function Word(m: seq<byte>, i: nat): bv32
    requires i + 4 <= |m|
  {
    BEBound(m[i..i + 4]);
    Pow2WideTable();
    Pow2Table();
    BE(m[i..i + 4]) as bv32
  }

  type block = s: seq<byte> | |s| == 64 witness seq(64, i => 0)

  function Mix(x: bv32, y: bv32, z: bv32, u: bv32): bv32 { Rotl(x ^ y ^ z ^ u, 1) }

  /** The message schedule. */
  function W(m: block, t: nat): bv32 {
    if t < 16 then Word(m, 4 * t) else Mix(W(m, t - 3), W(m, t - 8), W(m, t - 14), W(m, t - 16))
  }

  datatype Registers = Registers(a: bv32, b: bv32, c: bv32, d: bv32, e: bv32)

  function Sum5(r: bv32, f: bv32, e: bv32, k: bv32, w: bv32): bv32 { r + f + e + k + w }

  function Round(r: Registers, t: nat, w: bv32): Registers {
    Registers(Sum5(Rotl(r.a, 5), F(t, r.b, r.c, r.d), r.e, K(t), w), r.a, Rotl(r.b, 30), r.c, r.d)
  }

  function Rounds(h: Registers, m: block, n: nat): Registers {
    if n == 0 then h else Round(Rounds(h, m, n - 1), n - 1, W(m, n - 1))
  }

  function Plus(x: bv32, y: bv32): bv32 { x + y }

  function Added(h: Registers, r: Registers): Registers {
    Registers(Plus(h.a, r.a), Plus(h.b, r.b), Plus(h.c, r.c), Plus(h.d, r.d), Plus(h.e, r.e))
  }

  function Compress(h: Registers, m: block): Registers { Added(h, Rounds(h, m, 80)) }

  // ----- the same in the code's terms -----

  function F0(x: bv32, y: bv32, z: bv32): bv32 { z ^ (x & (y ^ z)) }
  function F1(x: bv32, y: bv32, z: bv32): bv32 { x ^ y ^ z }
  function F2(x: bv32, y: bv32, z: bv32): bv32 { (x & y) | (z & (x | y)) }

  lemma SelectForm(x: bv32, y: bv32, z: bv32)
    ensures F0(x, y, z) == Ch(x, y, z)
  {
    SelectBits(x, y, z);
  }

  lemma SelectBits(x: bv32, y: bv32, z: bv32)
    ensures z ^ (x & (y ^ z)) == (x & y) ^ (!x & z)
  {
  }

  lemma MajorityForm(x: bv32, y: bv32, z: bv32)
    ensures F2(x, y, z) == Maj(x, y, z)
  {
    MajorityBits(x, y, z);
  }

  lemma MajorityBits(x: bv32, y: bv32, z: bv32)
    ensures (x & y) | (z & (x | y)) == (x & y) ^ (x & z) ^ (y & z)
  {
  }

  lemma ParityForm(x: bv32, y: bv32, z: bv32)
    ensures F1(x, y, z) == Parity(x, y, z)
  {
  }

  function Fast(t: nat, x: bv32, y: bv32, z: bv32): bv32 {
    if t < 20 then F0(x, y, z) else if t < 40 then F1(x, y, z) else if t < 60 then F2(x, y, z) else F1(x, y, z)
  }

  /** The sum in the order the macros write it. */
  function CodeSum(r: bv32, f: bv32, e: bv32, w: bv32, k: bv32): bv32 { r + f + e + w + k }

  lemma SumOrder(r: bv32, f: bv32, e: bv32, k: bv32, w: bv32)
    ensures CodeSum(r, f, e, w, k) == Sum5(r, f, e, k, w)
  {
  }

  /** SHA1_FF0 to SHA1_FF3: two registers change, e and b. */
  method Step(a: bv32, b: bv32, c: bv32, d: bv32, e: bv32, t: nat, w: bv32) returns (e': bv32, b': bv32)
    ensures Registers(e', a, b', c, d) == Round(Registers(a, b, c, d, e), t, w)
  {
    hide Rotl, F0, F1, F2, Ch, Parity, Maj, CodeSum, Sum5, K;
    e' := CodeSum(Rotl(a, 5), Fast(t, b, c, d), e, w, K(t));
    b' := Rotl(b, 30);
    SelectForm(b, c, d);
    ParityForm(b, c, d);
    MajorityForm(b, c, d);
    SumOrder(Rotl(a, 5), Fast(t, b, c, d), e, K(t), w);
  }

  lemma RoundsStep(h: Registers, m: block, n: nat)
    ensures Rounds(h, m, n + 1) == Round(Rounds(h, m, n), n, W(m, n))
  {
    hide Round, W;
  }

  function OfArray(s: seq<bv32>): Registers
    requires |s| == 5
  {
    Registers(s[0], s[1], s[2], s[3], s[4])
  }

  /** The schedule of a block, expanded in an array. */
  method Expand(m: block) returns (ws: array<bv32>)
    ensures fresh(ws) && ws.Length == 80 && forall t :: 0 <= t < 80 ==> ws[t] == W(m, t)
  {
    hide Word, Mix;
    ws := new bv32[80](i => 0);
    for i := 0 to 16
      invariant forall t :: 0 <= t < i ==> ws[t] == W(m, t)
    {
      ws[i] := Word(m, 4 * i);
    }
    for i := 16 to 80
      invariant forall t :: 0 <= t < i ==> ws[t] == W(m, t)
    {
      ws[i] := Mix(ws[i - 3], ws[i - 8], ws[i - 14], ws[i - 16]);
    }
  }

  /** _SHA1_Compress */
  method CompressInPlace(state: array<bv32>, m: block)
    requires state.Length == 5
    modifies state
    ensures OfArray(state[..]) == Compress(OfArray(old(state[..])), m)
  {
    hide W, Round, Rounds, Plus;
    var ws := Expand(m);
    var a, b, c, d, e := state[0], state[1], state[2], state[3], state[4];
    ghost var h := OfArray(state[..]);
    assert Rounds(h, m, 0) == h by { NoRounds(h, m); }
    var i := 0;
    while i < 80
      invariant 0 <= i <= 80 && i % 5 == 0
      invariant Registers(a, b, c, d, e) == Rounds(h, m, i)
      invariant forall t :: 0 <= t < 80 ==> ws[t] == W(m, t)
      invariant state[..] == old(state[..])
    {
      RoundsStep(h, m, i);
      RoundsStep(h, m, i + 1);
      RoundsStep(h, m, i + 2);
      RoundsStep(h, m, i + 3);
      RoundsStep(h, m, i + 4);
      e, b := Step(a, b, c, d, e, i, ws[i]);
      d, a := Step(e, a, b, c, d, i + 1, ws[i + 1]);
      c, e := Step(d, e, a, b, c, i + 2, ws[i + 2]);
      b, d := Step(c, d, e, a, b, i + 3, ws[i + 3]);
      a, c := Step(b, c, d, e, a, i + 4, ws[i + 4]);
      i := i + 5;
    }
    state[0], state[1], state[2] := Plus(state[0], a), Plus(state[1], b), Plus(state[2], c);
    state[3], state[4] := Plus(state[3], d), Plus(state[4], e);
  }

  lemma NoRounds(h: Registers, m: block)
    ensures Rounds(h, m, 0) == h
  {
  }

  // ----- a whole message: sections 5.1.1, 5.2.1 and 6.1 -----

  const H0: Registers := Registers(0x67452301, 0xefcdab89, 0x98badcfe, 0x10325476, 0xc3d2e1f0)

  /** The state after a whole number of blocks. */
  function Hashed(data: seq<byte>): Registers
    requires |data| % BLOCK == 0
  {
    if |data| == 0 then H0
    else Compress(Hashed(data[..|data| - BLOCK]), data[|data| - BLOCK..])
  }

  /** How many zero bytes bring a message of n bytes and its 0x80 to eight bytes short of a block. */
  function ZeroCount(n: nat): (k: nat)
    ensures k < BLOCK && (n + 1 + k) % BLOCK == BLOCK - 8
  {
    (BLOCK - 8 - 1 - n) % BLOCK
  }

  /** A one bit, zeros, and the message length in bits, in 64 bits. */
  function Padded(data: seq<byte>): (p: seq<byte>)
    ensures |p| % BLOCK == 0
  {
    WholeBlocks(|data| + 1 + ZeroCount(|data|));
    data + [0x80] + Zeros(ZeroCount(|data|)) + BEBytes(8 * |data|, 8)
  }

  lemma WholeBlocks(n: nat)
    requires n % BLOCK == BLOCK - 8
    ensures (n + 8) % BLOCK == 0
  {
  }

  function WordBytes(x: bv32): seq<byte> { BEBytes(x as int, 4) }

  function Output(r: Registers): seq<byte> {
    WordBytes(r.a) + WordBytes(r.b) + WordBytes(r.c) + WordBytes(r.d) + WordBytes(r.e)
  }

  function Digest(data: seq<byte>): seq<byte> { Output(Hashed(Padded(data))) }

  lemma HashedStep(data: seq<byte>, b: block)
    requires |data| % BLOCK == 0
    ensures Hashed(data + b) == Compress(Hashed(data), b)
  {
    hide Compress;
    var all := data + b;
    assert all[..|all| - BLOCK] == data && all[|all| - BLOCK..] == b;
  }

  // ----- the code -----

  /** SHA_CTX_compat */
  class Context {
    var length: nat
    const state: array<bv32>
    var curlen: nat
    const buf: array<byte>
    /** The blocks the state has absorbed. */
    ghost var done: seq<byte>

    /** SHA1_Init_compat */
    constructor ()
      ensures Valid() && Message() == [] && fresh(state) && fresh(buf)
    {
      length, curlen, done := 0, 0, [];
      state := new bv32[5][0x67452301, 0xefcdab89, 0x98badcfe, 0x10325476, 0xc3d2e1f0];
      buf := new byte[64](i => 0);
    }

    ghost predicate Valid()
      reads this, state, buf
    {
      && state.Length == 5 && buf.Length == BLOCK && curlen < BLOCK && |done| % BLOCK == 0
      && OfArray(state[..]) == Hashed(done) && length == Bits(|done|)
    }

    /** Everything given so far: whole blocks, then the tail in the buffer. */
    ghost function Message(): seq<byte>
      requires Valid()
      reads this, state, buf
    {
      done + buf[..curlen]
    }

    /** Compress one block. */
    method Absorb(b: block)
      requires state.Length == 5 && |done| % BLOCK == 0 && OfArray(state[..]) == Hashed(done)
      modifies this`done, state
      ensures done == old(done) + b && |done| % BLOCK == 0 && OfArray(state[..]) == Hashed(done)
    {
      hide Compress, Hashed, OfArray;
      CompressInPlace(state, b);
      HashedStep(done, b);
      done := done + b;
    }

    /** Compress one block and count its bits. */
    method AbsorbAndCount(b: block)
      requires state.Length == 5 && |done| % BLOCK == 0 && OfArray(state[..]) == Hashed(done) && length == Bits(|done|)
      modifies this`done, this`length, state
      ensures done == old(done) + b && |done| % BLOCK == 0 && OfArray(state[..]) == Hashed(done)
        && length == Bits(|done|)
    {
      hide Hashed, OfArray, Bits;
      CountBits(|done|, BLOCK);
      Absorb(b);
      length := (length + BLOCK * 8) % WORD64;
    }

    /** SHA1_Update_compat */
    method Update(data: seq<byte>)
      requires Valid()
      modifies this, state, buf
      ensures Valid() && Message() == old(Message()) + data
    {
      hide Hashed, OfArray, Bits;
      var src := 0;
      while src < |data|
        invariant src <= |data| && Valid() && Message() == old(Message()) + data[..src]
      {
        if curlen == 0 && |data| - src >= BLOCK {
          assert buf[..0] == [] && Message() == done;
          AbsorbAndCount(data[src..src + BLOCK]);
          assert buf[..0] == [] && Message() == done;
          src := src + BLOCK;
          assert data[..src] == data[..src - BLOCK] + data[src - BLOCK..src];
        } else {
          ghost var from := src;
          src := Buffer(data, src);
          assert data[..src] == data[..from] + data[from..src];
        }
      }
      assert data[..src] == data;
    }

    /** Copy what fits into the buffer; compress it if it is full. */
    method Buffer(data: seq<byte>, src: nat) returns (next: nat)
      requires Valid() && src < |data|
      modifies this, state, buf
      ensures src < next <= |data| && Valid() && Message() == old(Message()) + data[src..next]
    {
      hide Hashed, OfArray, Bits;
      var n := if |data| - src < BLOCK - curlen then |data| - src else BLOCK - curlen;
      CopyInto(buf, curlen, data[src..src + n]);
      curlen := curlen + n;
      next := src + n;
      assert buf[..curlen] == old(buf[..curlen]) + data[src..next];
      if curlen == BLOCK {
        assert buf[..BLOCK] == buf[..];
        AbsorbAndCount(buf[..]);
        curlen := 0;
      }
    }

    /** SHA1_Final_compat */
    method Final() returns (digest: seq<byte>)
      requires Valid()
      modifies this, state, buf
      ensures digest == Digest(old(Message()))
    {
      hide Hashed, OfArray, Output, Bits, Padded, BEBytes;
      ghost var blocks, tail := done, buf[..curlen];
      CountBits(|done|, curlen);
      PaddedBlocks(done, tail);
      length := (length + curlen * 8) % WORD64;
      CopyInto(buf, curlen, [0x80]);
      curlen := curlen + 1;
      assert buf[..curlen] == tail + [0x80];
      if curlen > 56 {
        CopyInto(buf, curlen, Zeros(BLOCK - curlen));
        assert buf[..] == tail + [0x80] + Zeros(BLOCK - curlen);
        Absorb(buf[..]);
        curlen := 0;
        assert buf[..curlen] == [];
      }
      LastBlock();
      digest := Output(OfArray(state[..]));
    }

    /** Zeros up to the length field, then the length, in a last block. */
    method LastBlock()
      requires state.Length == 5 && buf.Length == BLOCK && curlen <= 56
      requires |done| % BLOCK == 0 && OfArray(state[..]) == Hashed(done)
      modifies this`done, state, buf
      ensures done == old(done) + (old(buf[..curlen]) + Zeros(56 - curlen) + BEBytes(length, 8))
      ensures |done| % BLOCK == 0 && OfArray(state[..]) == Hashed(done)
    {
      hide Hashed, OfArray, BEBytes;
      CopyInto(buf, curlen, Zeros(56 - curlen));
      CopyInto(buf, 56, BEBytes(length, 8));
      Absorb(buf[..]);
    }
  }

  /** The padded message in terms of the absorbed blocks and the tail: one more block, or two. */
  lemma PaddedBlocks(done: seq<byte>, tail: seq<byte>)
    requires |done| % BLOCK == 0 && |tail| < BLOCK
    ensures var n := |done + tail|;
            Padded(done + tail) ==
            if |tail| < 56 then done + (tail + [0x80] + Zeros(55 - |tail|) + BEBytes(Bits(n), 8))
            else done + (tail + [0x80] + Zeros(63 - |tail|)) + ([] + Zeros(56) + BEBytes(Bits(n), 8))
  {
    var n := |done + tail|;
    PaddingLength(done, tail);
    assert BEBytes(8 * n, 8) == BEBytes(Bits(n), 8) by {
      Pow2Table();
      BELow(8 * n, 8);
    }
    hide BEBytes, ZeroCount, Bits;
    var length := BEBytes(Bits(n), 8);
    if |tail| < 56 {
      Regroup4(done, tail + [0x80], Zeros(55 - |tail|), length);
    } else {
      assert Zeros(ZeroCount(n)) == Zeros(63 - |tail|) + Zeros(56);
      Regroup4(done, tail + [0x80], Zeros(63 - |tail|), Zeros(56) + length);
      assert [] + Zeros(56) + length == Zeros(56) + length;
    }
  }

  lemma PaddingLength(done: seq<byte>, tail: seq<byte>)
    requires |done| % BLOCK == 0 && |tail| < BLOCK
    ensures ZeroCount(|done + tail|) == if |tail| < 56 then 55 - |tail| else 63 - |tail| + 56
  {
  }

  /** The length of n bytes in bits, in 64 bits. */
  function Bits(n: nat): nat { 8 * n % WORD64 }

  lemma CountBits(n: nat, k: nat)
    ensures (Bits(n) + k * 8) % WORD64 == Bits(n + k)
  {
    ModAddMultiple(Bits(n) + k * 8, 8 * n / WORD64, WORD64);
  }

  /** However a message is cut into pieces, the digest is that of the whole message. */
  method DigestInPieces(pieces: seq<seq<byte>>) returns (digest: seq<byte>)
    ensures digest == Digest(Flatten(pieces))
  {
    hide Digest;
    var c := new Context();
    for i := 0 to |pieces|
      invariant fresh(c) && fresh(c.state) && fresh(c.buf) && c.Valid() && c.Message() == Flatten(pieces[..i])
    {
      assert pieces[..i + 1][..i] == pieces[..i];
      c.Update(pieces[i]);
    }
    assert pieces[..|pieces|] == pieces;
    digest := c.Final();
  }

  // ----- what the padding and the constants are -----

  /** The padding is the one of section 5.1.1: the fewest zero bits that leave room for the length. */
  lemma FewestZeroBits(n: nat, k: nat)
    requires (8 * n + 1 + k) % 512 == 448
    ensures (8 * n + 1 + (8 * ZeroCount(n) + 7)) % 512 == 448 && 8 * ZeroCount(n) + 7 <= k
  {
    var z := ZeroCount(n);
    var q := (n + 1 + z) / BLOCK;
    hide ZeroCount;
    assert 8 * n + 8 + 8 * z == 512 * q + 448;
    var p := (8 * n + 1 + k) / 512;
    assert 8 * n + 1 + k == 512 * p + 448;
    assert 512 * (q - p) == 8 * z + 7 - k;
  }

  /** Different messages of less than 2^64 bits have different padded forms. */
  lemma {:induction false} PaddingInjective(a: seq<byte>, b: seq<byte>)
    requires 8 * |a| < WORD64 && 8 * |b| < WORD64 && Padded(a) == Padded(b)
    ensures a == b
  {
    hide Padded;
    LengthField(a);
    LengthField(b);
  }

  lemma LengthField(a: seq<byte>)
    requires 8 * |a| < WORD64
    ensures var p := Padded(a);
            |p| >= |a| + 8 && p[..|a|] == a && BE(p[|p| - 8..]) == 8 * |a|
  {
    hide ZeroCount, BEBytes, BE;
    BEOfBytes(8 * |a|, 8);
    assert Pow2(64) == WORD64 by { Pow2Table(); }
    assert Padded(a)[|Padded(a)| - 8..] == BEBytes(8 * |a|, 8);
  }

  /** The round constants are the integer parts of 2^30 times the square roots of 2, 3, 5 and 10. */
  lemma RoundConstants(t: nat)
    ensures var p := if t < 20 then 2 else if t < 40 then 3 else if t < 60 then 5 else 10;
            var k := K(t) as int;
            k * k <= p * 0x1000_0000_0000_0000 < (k + 1) * (k + 1)
  {
  }
}

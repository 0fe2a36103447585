/** SHA-512: the block function with its rotating registers, and the buffering of a message into blocks. */
module Sha512 {
  import opened Arithmetic
  import opened Buffers

  const BLOCK: int := 128
  const WORD64: nat := 0x1_0000_0000_0000_0000

  // ----- section 6.4.2 of FIPS 180-4 -----

  function Rotr(x: bv64, n: nat): bv64
    requires 0 < n < 64
  {
    (x >> n) | (x << (64 - n))
  }

  function Ch(x: bv64, y: bv64, z: bv64): bv64 { (x & y) ^ (!x & z) }
  function Maj(x: bv64, y: bv64, z: bv64): bv64 { (x & y) ^ (x & z) ^ (y & z) }
  function BigSigma0(x: bv64): bv64 { Rotr(x, 28) ^ Rotr(x, 34) ^ Rotr(x, 39) }
  function BigSigma1(x: bv64): bv64 { Rotr(x, 14) ^ Rotr(x, 18) ^ Rotr(x, 41) }
  function SmallSigma0(x: bv64): bv64 { Rotr(x, 1) ^ Rotr(x, 8) ^ (x >> 7) }
  function SmallSigma1(x: bv64): bv64 { Rotr(x, 19) ^ Rotr(x, 61) ^ (x >> 6) }

  /** The eighty round constants. */
  function Constant(t: nat): (k: nat)
    requires t < 80
    ensures k < WORD64
  {
    match t
    case 0 => 0x428a2f98d728ae22
    case 1 => 0x7137449123ef65cd
    case 2 => 0xb5c0fbcfec4d3b2f
    case 3 => 0xe9b5dba58189dbbc
    case 4 => 0x3956c25bf348b538
    case 5 => 0x59f111f1b605d019
    case 6 => 0x923f82a4af194f9b
    case 7 => 0xab1c5ed5da6d8118
    case 8 => 0xd807aa98a3030242
    case 9 => 0x12835b0145706fbe
    case 10 => 0x243185be4ee4b28c
    case 11 => 0x550c7dc3d5ffb4e2
    case 12 => 0x72be5d74f27b896f
    case 13 => 0x80deb1fe3b1696b1
    case 14 => 0x9bdc06a725c71235
    case 15 => 0xc19bf174cf692694
    case 16 => 0xe49b69c19ef14ad2
    case 17 => 0xefbe4786384f25e3
    case 18 => 0x0fc19dc68b8cd5b5
    case 19 => 0x240ca1cc77ac9c65
    case 20 => 0x2de92c6f592b0275
    case 21 => 0x4a7484aa6ea6e483
    case 22 => 0x5cb0a9dcbd41fbd4
    case 23 => 0x76f988da831153b5
    case 24 => 0x983e5152ee66dfab
    case 25 => 0xa831c66d2db43210
    case 26 => 0xb00327c898fb213f
    case 27 => 0xbf597fc7beef0ee4
    case 28 => 0xc6e00bf33da88fc2
    case 29 => 0xd5a79147930aa725
    case 30 => 0x06ca6351e003826f
    case 31 => 0x142929670a0e6e70
    case 32 => 0x27b70a8546d22ffc
    case 33 => 0x2e1b21385c26c926
    case 34 => 0x4d2c6dfc5ac42aed
    case 35 => 0x53380d139d95b3df
    case 36 => 0x650a73548baf63de
    case 37 => 0x766a0abb3c77b2a8
    case 38 => 0x81c2c92e47edaee6
    case 39 => 0x92722c851482353b
    case 40 => 0xa2bfe8a14cf10364
    case 41 => 0xa81a664bbc423001
    case 42 => 0xc24b8b70d0f89791
    case 43 => 0xc76c51a30654be30
    case 44 => 0xd192e819d6ef5218
    case 45 => 0xd69906245565a910
    case 46 => 0xf40e35855771202a
    case 47 => 0x106aa07032bbd1b8
    case 48 => 0x19a4c116b8d2d0c8
    case 49 => 0x1e376c085141ab53
    case 50 => 0x2748774cdf8eeb99
    case 51 => 0x34b0bcb5e19b48a8
    case 52 => 0x391c0cb3c5c95a63
    case 53 => 0x4ed8aa4ae3418acb
    case 54 => 0x5b9cca4f7763e373
    case 55 => 0x682e6ff3d6b2b8a3
    case 56 => 0x748f82ee5defb2fc
    case 57 => 0x78a5636f43172f60
    case 58 => 0x84c87814a1f0ab72
    case 59 => 0x8cc702081a6439ec
    case 60 => 0x90befffa23631e28
    case 61 => 0xa4506cebde82bde9
    case 62 => 0xbef9a3f7b2c67915
    case 63 => 0xc67178f2e372532b
    case 64 => 0xca273eceea26619c
    case 65 => 0xd186b8c721c0c207
    case 66 => 0xeada7dd6cde0eb1e
    case 67 => 0xf57d4f7fee6ed178
    case 68 => 0x06f067aa72176fba
    case 69 => 0x0a637dc5a2c898a6
    case 70 => 0x113f9804bef90dae
    case 71 => 0x1b710b35131c471b
    case 72 => 0x28db77f523047d84
    case 73 => 0x32caab7b40c72493
    case 74 => 0x3c9ebe0a15c9bebc
    case 75 => 0x431d67c49c100d4c
    case 76 => 0x4cc5d4becb3e42b6
    case 77 => 0x597f299cfc657e2a
    case 78 => 0x5fcb6fab3ad6faec
    case _ => 0x6c44198c4a475817
  }

  function K(t: nat): bv64
    requires t < 80
  {
    Constant(t) as bv64
  }

  /** Eight bytes as a word, most significant first. */
  function Word(m: seq<byte>, i: nat): bv64
    requires i + 8 <= |m|
  {
    BEBound(m[i..i + 8]);
    Pow2Table();
    BE(m[i..i + 8]) as bv64
  }

  type block = s: seq<byte> | |s| == 128 witness seq(128, i => 0)

  function Sum4(x: bv64, y: bv64, z: bv64, u: bv64): bv64 { x + y + z + u }

  /** The message schedule. */
  function W(m: block, t: nat): bv64 {
    if t < 16 then Word(m, 8 * t)
    else Sum4(SmallSigma1(W(m, t - 2)), W(m, t - 7), SmallSigma0(W(m, t - 15)), W(m, t - 16))
  }

  datatype Registers = Registers(a: bv64, b: bv64, c: bv64, d: bv64, e: bv64, f: bv64, g: bv64, h: bv64)

  function Plus(x: bv64, y: bv64): bv64 { x + y }

  function Sum5(x: bv64, y: bv64, z: bv64, u: bv64, v: bv64): bv64 { x + y + z + u + v }

  function Round(r: Registers, t: nat, w: bv64): Registers
    requires t < 80
  {
    var t1 := Sum5(r.h, BigSigma1(r.e), Ch(r.e, r.f, r.g), K(t), w);
    var t2 := Plus(BigSigma0(r.a), Maj(r.a, r.b, r.c));
    Registers(Plus(t1, t2), r.a, r.b, r.c, Plus(r.d, t1), r.e, r.f, r.g)
  }

  function Rounds(h: Registers, m: block, n: nat): Registers
    requires n <= 80
  {
    if n == 0 then h else Round(Rounds(h, m, n - 1), n - 1, W(m, n - 1))
  }

  function Added(h: Registers, r: Registers): Registers {
    Registers(Plus(h.a, r.a), Plus(h.b, r.b), Plus(h.c, r.c), Plus(h.d, r.d),
              Plus(h.e, r.e), Plus(h.f, r.f), Plus(h.g, r.g), Plus(h.h, r.h))
  }

  function Compress(h: Registers, m: block): Registers { Added(h, Rounds(h, m, 80)) }

  // ----- the same in the code's terms -----

  function FastCh(x: bv64, y: bv64, z: bv64): bv64 { z ^ (x & (y ^ z)) }
  function FastMaj(x: bv64, y: bv64, z: bv64): bv64 { ((x | y) & z) | (x & y) }

  lemma SelectForm(x: bv64, y: bv64, z: bv64)
    ensures FastCh(x, y, z) == Ch(x, y, z)
  {
    SelectBits(x, y, z);
  }

  lemma SelectBits(x: bv64, y: bv64, z: bv64)
    ensures z ^ (x & (y ^ z)) == (x & y) ^ (!x & z)
  {
  }

  lemma MajorityForm(x: bv64, y: bv64, z: bv64)
    ensures FastMaj(x, y, z) == Maj(x, y, z)
  {
    MajorityBits(x, y, z);
  }

  lemma MajorityBits(x: bv64, y: bv64, z: bv64)
    ensures ((x | y) & z) | (x & y) == (x & y) ^ (x & z) ^ (y & z)
  {
  }

  /** SHA512_RND: two registers change, d and h. */
  method Step(a: bv64, b: bv64, c: bv64, d: bv64, e: bv64, f: bv64, g: bv64, h: bv64, t: nat, w: bv64)
      returns (d': bv64, h': bv64)
    requires t < 80
    ensures Registers(h', a, b, c, d', e, f, g) == Round(Registers(a, b, c, d, e, f, g, h), t, w)
  {
    hide BigSigma0, BigSigma1, Ch, Maj, FastCh, FastMaj, Sum5, Plus, K;
    SelectForm(e, f, g);
    MajorityForm(a, b, c);
    var t0 := Sum5(h, BigSigma1(e), FastCh(e, f, g), K(t), w);
    var t1 := Plus(BigSigma0(a), FastMaj(a, b, c));
    d' := Plus(d, t0);
    h' := Plus(t0, t1);
  }

  lemma RoundsStep(h: Registers, m: block, n: nat)
    requires n < 80
    ensures Rounds(h, m, n + 1) == Round(Rounds(h, m, n), n, W(m, n))
  {
    hide Round, W;
  }

  function OfArray(s: seq<bv64>): Registers
    requires |s| == 8
  {
    Registers(s[0], s[1], s[2], s[3], s[4], s[5], s[6], s[7])
  }

  lemma Schedule(m: block, t: nat)
    ensures W(m, t) == if t < 16 then Word(m, 8 * t)
                       else Sum4(SmallSigma1(W(m, t - 2)), W(m, t - 7), SmallSigma0(W(m, t - 15)), W(m, t - 16))
  {
    hide Word, Sum4, SmallSigma0, SmallSigma1;
  }

  /** The schedule of a block, expanded in an array. */
  method Expand(m: block) returns (ws: array<bv64>)
    ensures fresh(ws) && ws.Length == 80 && forall t :: 0 <= t < 80 ==> ws[t] == W(m, t)
  {
    hide Word, Sum4, SmallSigma0, SmallSigma1, W;
    ws := new bv64[80](i => 0);
    for i := 0 to 16
      invariant forall t :: 0 <= t < i ==> ws[t] == W(m, t)
    {
      Schedule(m, i);
      ws[i] := Word(m, 8 * i);
    }
    for i := 16 to 80
      invariant forall t :: 0 <= t < i ==> ws[t] == W(m, t)
    {
      Schedule(m, i);
      ws[i] := Sum4(SmallSigma1(ws[i - 2]), ws[i - 7], SmallSigma0(ws[i - 15]), ws[i - 16]);
    }
  }

  /** The eight macro calls of one iteration: after them every register is back in its place. */
  method EightRounds(r: Registers, ws: array<bv64>, ghost h: Registers, ghost m: block, i: nat) returns (r': Registers)
    requires ws.Length == 80 && i + 8 <= 80
    requires r == Rounds(h, m, i) && forall t :: 0 <= t < 80 ==> ws[t] == W(m, t)
    ensures r' == Rounds(h, m, i + 8)
  {
    hide W, Round, Rounds;
    RoundsStep(h, m, i + 0);
    RoundsStep(h, m, i + 1);
    RoundsStep(h, m, i + 2);
    RoundsStep(h, m, i + 3);
    RoundsStep(h, m, i + 4);
    RoundsStep(h, m, i + 5);
    RoundsStep(h, m, i + 6);
    RoundsStep(h, m, i + 7);
    var Registers(s0, s1, s2, s3, s4, s5, s6, s7) := r;
    s3, s7 := Step(s0, s1, s2, s3, s4, s5, s6, s7, i + 0, ws[i + 0]);
    s2, s6 := Step(s7, s0, s1, s2, s3, s4, s5, s6, i + 1, ws[i + 1]);
    s1, s5 := Step(s6, s7, s0, s1, s2, s3, s4, s5, i + 2, ws[i + 2]);
    s0, s4 := Step(s5, s6, s7, s0, s1, s2, s3, s4, i + 3, ws[i + 3]);
    s7, s3 := Step(s4, s5, s6, s7, s0, s1, s2, s3, i + 4, ws[i + 4]);
    s6, s2 := Step(s3, s4, s5, s6, s7, s0, s1, s2, i + 5, ws[i + 5]);
    s5, s1 := Step(s2, s3, s4, s5, s6, s7, s0, s1, i + 6, ws[i + 6]);
    s4, s0 := Step(s1, s2, s3, s4, s5, s6, s7, s0, i + 7, ws[i + 7]);
    r' := Registers(s0, s1, s2, s3, s4, s5, s6, s7);
  }

  /** _SHA512_Compress */
  method CompressInPlace(state: array<bv64>, m: block)
    requires state.Length == 8
    modifies state
    ensures OfArray(state[..]) == Compress(OfArray(old(state[..])), m)
  {
    hide W, Round, Rounds, Plus;
    var ws := Expand(m);
    var s := Registers(state[0], state[1], state[2], state[3], state[4], state[5], state[6], state[7]);
    ghost var h := OfArray(state[..]);
    assert Rounds(h, m, 0) == h by { NoRounds(h, m); }
    var i := 0;
    while i < 80
      invariant 0 <= i <= 80 && i % 8 == 0
      invariant s == Rounds(h, m, i)
      invariant forall t :: 0 <= t < 80 ==> ws[t] == W(m, t)
      invariant state[..] == old(state[..])
    {
      s := EightRounds(s, ws, h, m, i);
      i := i + 8;
    }
    Feedback(state, s);
  }

  method Feedback(state: array<bv64>, s: Registers)
    requires state.Length == 8
    modifies state
    ensures OfArray(state[..]) == Added(OfArray(old(state[..])), s)
  {
    hide Plus;
    state[0], state[1] := Plus(state[0], s.a), Plus(state[1], s.b);
    state[2], state[3] := Plus(state[2], s.c), Plus(state[3], s.d);
    state[4], state[5] := Plus(state[4], s.e), Plus(state[5], s.f);
    state[6], state[7] := Plus(state[6], s.g), Plus(state[7], s.h);
  }

  lemma NoRounds(h: Registers, m: block)
    ensures Rounds(h, m, 0) == h
  {
  }

  // ----- a whole message: sections 5.1.2, 5.2.2 and 6.4 -----

  const H0: Registers := Registers(0x6a09e667f3bcc908, 0xbb67ae8584caa73b, 0x3c6ef372fe94f82b, 0xa54ff53a5f1d36f1,
                                   0x510e527fade682d1, 0x9b05688c2b3e6c1f, 0x1f83d9abfb41bd6b, 0x5be0cd19137e2179)

  /** The state after a whole number of blocks. */
  function Hashed(data: seq<byte>): Registers
    requires |data| % BLOCK == 0
  {
    if |data| == 0 then H0
    else Compress(Hashed(data[..|data| - BLOCK]), data[|data| - BLOCK..])
  }

  /** How many zero bytes bring a message of n bytes and its 0x80 to sixteen bytes short of a block. */
  function ZeroCount(n: nat): (k: nat)
    ensures k < BLOCK && (n + 1 + k) % BLOCK == BLOCK - 16
  {
    (BLOCK - 16 - 1 - n) % BLOCK
  }

  /** A one bit, zeros, and the message length in bits, in 128 bits. */
  function Padded(data: seq<byte>): (p: seq<byte>)
    ensures |p| % BLOCK == 0
  {
    WholeBlocks(|data| + 1 + ZeroCount(|data|));
    data + [0x80] + Zeros(ZeroCount(|data|)) + BEBytes(8 * |data|, 16)
  }

  function WordBytes(x: bv64): seq<byte> { BEBytes(x as int, 8) }

  function Output(r: Registers): seq<byte> {
    WordBytes(r.a) + WordBytes(r.b) + WordBytes(r.c) + WordBytes(r.d)
    + WordBytes(r.e) + WordBytes(r.f) + WordBytes(r.g) + WordBytes(r.h)
  }

  function Digest(data: seq<byte>): seq<byte> { Output(Hashed(Padded(data))) }

  lemma HashedStep(data: seq<byte>, b: block)
    requires |data| % BLOCK == 0
    ensures Hashed(data + b) == Compress(Hashed(data), b)
  {
    hide Compress;
    var all := data + b;
    assert all[..|all| - BLOCK] == data && all[|all| - BLOCK..] == b;
  }

  // ----- the code -----

  /** SHA512_CTX_compat */
  class Context {
    var length: nat
    const state: array<bv64>
    var curlen: nat
    const buf: array<byte>
    /** The blocks the state has absorbed. */
    ghost var done: seq<byte>

    /** SHA512_Init_compat */
    constructor ()
      ensures Valid() && Message() == [] && fresh(state) && fresh(buf)
    {
      length, curlen, done := 0, 0, [];
      state := new bv64[8][
        0x6a09e667f3bcc908, 0xbb67ae8584caa73b, 0x3c6ef372fe94f82b, 0xa54ff53a5f1d36f1,
        0x510e527fade682d1, 0x9b05688c2b3e6c1f, 0x1f83d9abfb41bd6b, 0x5be0cd19137e2179];
      buf := new byte[128](i => 0);
    }

    ghost predicate Valid()
      reads this, state, buf
    {
      && state.Length == 8 && buf.Length == BLOCK && curlen < BLOCK && |done| % BLOCK == 0
      && OfArray(state[..]) == Hashed(done) && length == Bits(|done|)
    }

    /** Everything given so far: whole blocks, then the tail in the buffer. */
    ghost function Message(): seq<byte>
      requires Valid()
      reads this, state, buf
    {
      done + buf[..curlen]
    }

    /** Compress one block. */
    method Absorb(b: block)
      requires state.Length == 8 && |done| % BLOCK == 0 && OfArray(state[..]) == Hashed(done)
      modifies this`done, state
      ensures done == old(done) + b && |done| % BLOCK == 0 && OfArray(state[..]) == Hashed(done)
    {
      hide Compress, Hashed, OfArray;
      CompressInPlace(state, b);
      HashedStep(done, b);
      done := done + b;
    }

    /** Compress one block and count its bits. */
    method AbsorbAndCount(b: block)
      requires state.Length == 8 && |done| % BLOCK == 0 && OfArray(state[..]) == Hashed(done) && length == Bits(|done|)
      modifies this`done, this`length, state
      ensures done == old(done) + b && |done| % BLOCK == 0 && OfArray(state[..]) == Hashed(done)
        && length == Bits(|done|)
    {
      hide Hashed, OfArray, Bits;
      CountBits(|done|, BLOCK);
      Absorb(b);
      length := (length + BLOCK * 8) % WORD64;
    }

    /** SHA512_Update_compat */
    method Update(data: seq<byte>)
      requires Valid()
      modifies this, state, buf
      ensures Valid() && Message() == old(Message()) + data
    {
      hide Hashed, OfArray, Bits;
      var src := 0;
      ghost var before := Message();
      while src < |data|
        invariant src <= |data| && Valid() && Message() == before + data[..src]
      {
        ghost var from := src;
        if curlen == 0 && |data| - src >= BLOCK {
          assert buf[..0] == [];
          AbsorbAndCount(data[src..src + BLOCK]);
          assert buf[..0] == [];
          src := src + BLOCK;
        } else {
          src := Buffer(data, src);
        }
        NextPart(before, data, from, src);
      }
      assert data[..src] == data;
    }

    static lemma NextPart(before: seq<byte>, data: seq<byte>, i: nat, j: nat)
      requires i <= j <= |data|
      ensures before + data[..i] + data[i..j] == before + data[..j]
    {
      assert data[..j] == data[..i] + data[i..j];
    }

    /** Copy what fits into the buffer; compress it if it is full. */
    method Buffer(data: seq<byte>, src: nat) returns (next: nat)
      requires Valid() && src < |data|
      modifies this, state, buf
      ensures src < next <= |data| && Valid() && Message() == old(Message()) + data[src..next]
    {
      hide Hashed, OfArray, Bits;
      var n := if |data| - src < BLOCK - curlen then |data| - src else BLOCK - curlen;
      CopyInto(buf, curlen, data[src..src + n]);
      curlen := curlen + n;
      next := src + n;
      assert buf[..curlen] == old(buf[..curlen]) + data[src..next];
      if curlen == BLOCK {
        assert buf[..BLOCK] == buf[..];
        AbsorbAndCount(buf[..]);
        curlen := 0;
      }
    }

    /** SHA512_Final_compat. The upper half of the length field is always zero. */
    method Final() returns (digest: seq<byte>)
      requires Valid()
      modifies this, state, buf
      ensures digest == Output(Hashed(PaddedShort(old(Message()))))
    {
      hide Hashed, OfArray, Output, Bits, PaddedShort, BEBytes;
      ghost var blocks, tail := done, buf[..curlen];
      CountBits(|done|, curlen);
      PaddedBlocks(done, tail);
      length := (length + curlen * 8) % WORD64;
      CopyInto(buf, curlen, [0x80]);
      curlen := curlen + 1;
      assert buf[..curlen] == tail + [0x80];
      if curlen > 112 {
        CopyInto(buf, curlen, Zeros(BLOCK - curlen));
        assert buf[..] == tail + [0x80] + Zeros(BLOCK - curlen);
        Absorb(buf[..]);
        curlen := 0;
        assert buf[..curlen] == [];
      }
      LastBlock();
      digest := Output(OfArray(state[..]));
    }

    /** Zeros up to the low half of the length field, then the length, in a last block. */
    method LastBlock()
      requires state.Length == 8 && buf.Length == BLOCK && curlen <= 120
      requires |done| % BLOCK == 0 && OfArray(state[..]) == Hashed(done)
      modifies this`done, state, buf
      ensures done == old(done) + (old(buf[..curlen]) + Zeros(120 - curlen) + BEBytes(length, 8))
      ensures |done| % BLOCK == 0 && OfArray(state[..]) == Hashed(done)
    {
      hide Hashed, OfArray, BEBytes;
      CopyInto(buf, curlen, Zeros(120 - curlen));
      CopyInto(buf, 120, BEBytes(length, 8));
      Absorb(buf[..]);
    }
  }

  /** The padding the code writes: 64 bits of length behind 64 zero bits. */
  function PaddedShort(data: seq<byte>): (p: seq<byte>)
    ensures |p| % BLOCK == 0
  {
    WholeBlocks(|data| + 1 + ZeroCount(|data|));
    data + [0x80] + Zeros(ZeroCount(|data|) + 8) + BEBytes(Bits(|data|), 8)
  }

  lemma WholeBlocks(n: nat)
    requires n % BLOCK == BLOCK - 16
    ensures (n + 16) % BLOCK == 0
  {
  }

  /** The padded message in terms of the absorbed blocks and the tail: one more block, or two. */
  lemma PaddedBlocks(done: seq<byte>, tail: seq<byte>)
    requires |done| % BLOCK == 0 && |tail| < BLOCK
    ensures var n := |done + tail|;
            PaddedShort(done + tail) ==
            if |tail| < 112 then done + (tail + [0x80] + Zeros(119 - |tail|) + BEBytes(Bits(n), 8))
            else done + (tail + [0x80] + Zeros(127 - |tail|)) + ([] + Zeros(120) + BEBytes(Bits(n), 8))
  {
    var n := |done + tail|;
    PaddingLength(done, tail);
    hide BEBytes, ZeroCount, Bits;
    var length := BEBytes(Bits(n), 8);
    if |tail| < 112 {
      Regroup4(done, tail + [0x80], Zeros(119 - |tail|), length);
    } else {
      assert Zeros(ZeroCount(n) + 8) == Zeros(127 - |tail|) + Zeros(120);
      Regroup4(done, tail + [0x80], Zeros(127 - |tail|), Zeros(120) + length);
      assert [] + Zeros(120) + length == Zeros(120) + length;
    }
  }

  lemma PaddingLength(done: seq<byte>, tail: seq<byte>)
    requires |done| % BLOCK == 0 && |tail| < BLOCK
    ensures ZeroCount(|done + tail|) == if |tail| < 112 then 111 - |tail| else 127 - |tail| + 112
  {
  }

  /** The length of n bytes in bits, in 64 bits. */
  function Bits(n: nat): nat { 8 * n % WORD64 }

  lemma CountBits(n: nat, k: nat)
    ensures (Bits(n) + k * 8) % WORD64 == Bits(n + k)
  {
    ModAddMultiple(Bits(n) + k * 8, 8 * n / WORD64, WORD64);
  }

  /** The code's padding is the one of section 5.1.2 exactly for messages of less than 2^64 bits. */
  lemma {:induction false} ShortPadding(data: seq<byte>)
    requires 8 * |data| < WORD64 * WORD64
    ensures PaddedShort(data) == Padded(data) <==> 8 * |data| < WORD64
  {
    hide PaddedShort, Padded;
    var x := 8 * |data|;
    LengthFields(data);
    hide BEBytes, BE;
    if x < WORD64 {
      Pow2Table();
      PadZeros(x, 8, 8);
    } else {
      assert BE(Zeros(8) + BEBytes(Bits(|data|), 8)) < WORD64 <= x by { ShortField(Bits(|data|)); }
      LongField(x);
    }
  }

  /** Both paddings end in sixteen bytes of length, after the same bytes. */
  lemma LengthFields(data: seq<byte>)
    ensures var common := data + [0x80] + Zeros(ZeroCount(|data|));
            && PaddedShort(data) == common + (Zeros(8) + BEBytes(Bits(|data|), 8))
            && Padded(data) == common + BEBytes(8 * |data|, 16)
            && (PaddedShort(data) == Padded(data) <==> Zeros(8) + BEBytes(Bits(|data|), 8) == BEBytes(8 * |data|, 16))
  {
    ShortEnd(data);
    hide ZeroCount, BEBytes, Bits, PaddedShort;
    var common := data + [0x80] + Zeros(ZeroCount(|data|));
    SameFront(common, Zeros(8) + BEBytes(Bits(|data|), 8), BEBytes(8 * |data|, 16));
  }

  lemma ShortEnd(data: seq<byte>)
    ensures PaddedShort(data) ==
            data + [0x80] + Zeros(ZeroCount(|data|)) + (Zeros(8) + BEBytes(Bits(|data|), 8))
  {
    hide BEBytes, Bits;
    var k, front, length := ZeroCount(|data|), data + [0x80], BEBytes(Bits(|data|), 8);
    hide ZeroCount;
    assert Zeros(k + 8) == Zeros(k) + Zeros(8);
    Regroup4(front, Zeros(k), Zeros(8), length);
    assert front + Zeros(k) + Zeros(8) + length == front + Zeros(k) + (Zeros(8) + length);
  }

  lemma SameFront(c: seq<byte>, a: seq<byte>, b: seq<byte>)
    ensures c + a == c + b <==> a == b
  {
    if c + a == c + b {
      assert a == (c + a)[|c|..] && b == (c + b)[|c|..];
    }
  }

  lemma ShortField(x: nat)
    requires x < WORD64
    ensures BE(Zeros(8) + BEBytes(x, 8)) == x
  {
    hide BE, BEBytes;
    Pow2Table();
    PadZeros(x, 8, 8);
    LongField(x);
  }

  lemma LongField(x: nat)
    requires x < WORD64 * WORD64
    ensures BE(BEBytes(x, 16)) == x
  {
    hide BE, BEBytes;
    Pow2Table();
    Pow2Add(64, 64);
    BEOfBytes(x, 16);
  }

  lemma {:induction false} PadZeros(x: nat, n: nat, k: nat)
    requires x < Pow2(8 * k)
    ensures BEBytes(x, n + k) == Zeros(n) + BEBytes(x, k)
  {
    hide Zeros, BEBytes;
    BytesStep(x, n + k);
    BytesStep(x, k);
    if k > 0 {
      Pow2Table();
      Pow2Add(8, 8 * (k - 1));
      hide Pow2;
      PadZeros(x / 256, n, k - 1);
      assert Zeros(n) + BEBytes(x / 256, k - 1) + [x % 256] == Zeros(n) + (BEBytes(x / 256, k - 1) + [x % 256]);
    } else {
      assert x == 0;
      if n > 0 {
        PadZeros(0, n - 1, 0);
        ZerosStep(n);
      }
      assert Zeros(n) + [] == Zeros(n);
    }
  }

  lemma BytesStep(x: nat, n: nat)
    ensures BEBytes(x, n) == if n == 0 then [] else BEBytes(x / 256, n - 1) + [x % 256]
  {
  }

  lemma ZerosStep(n: nat)
    requires n > 0
    ensures Zeros(n) == Zeros(n - 1) + [0] && Zeros(0) == []
  {
  }

  /** However a message is cut into pieces, the digest is that of the whole message. */
  method DigestInPieces(pieces: seq<seq<byte>>) returns (digest: seq<byte>)
    ensures 8 * |Flatten(pieces)| < WORD64 ==> digest == Digest(Flatten(pieces))
  {
    hide Padded, PaddedShort, Hashed, Output;
    var c := new Context();
    for i := 0 to |pieces|
      invariant fresh(c) && fresh(c.state) && fresh(c.buf) && c.Valid() && c.Message() == Flatten(pieces[..i])
    {
      assert pieces[..i + 1][..i] == pieces[..i];
      c.Update(pieces[i]);
    }
    assert pieces[..|pieces|] == pieces;
    if 8 * |Flatten(pieces)| < WORD64 {
      assert WORD64 <= WORD64 * WORD64;
      ShortPadding(Flatten(pieces));
    }
    digest := c.Final();
  }

  // ----- what the constants are -----

  /** r + k / 2^64 is the cube root of p, cut to 64 fractional bits. */
  ghost predicate CubeRoot(r: nat, k: nat, p: nat) {
    var x := r * WORD64 + k;
    x * x * x <= p * (WORD64 * WORD64 * WORD64) < (x + 1) * (x + 1) * (x + 1)
  }

  /** The first eighty primes. */
  function Prime(t: nat): nat
    requires t < 80
  {
    match t
    case 0 => 2
    case 1 => 3
    case 2 => 5
    case 3 => 7
    case 4 => 11
    case 5 => 13
    case 6 => 17
    case 7 => 19
    case 8 => 23
    case 9 => 29
    case 10 => 31
    case 11 => 37
    case 12 => 41
    case 13 => 43
    case 14 => 47
    case 15 => 53
    case 16 => 59
    case 17 => 61
    case 18 => 67
    case 19 => 71
    case 20 => 73
    case 21 => 79
    case 22 => 83
    case 23 => 89
    case 24 => 97
    case 25 => 101
    case 26 => 103
    case 27 => 107
    case 28 => 109
    case 29 => 113
    case 30 => 127
    case 31 => 131
    case 32 => 137
    case 33 => 139
    case 34 => 149
    case 35 => 151
    case 36 => 157
    case 37 => 163
    case 38 => 167
    case 39 => 173
    case 40 => 179
    case 41 => 181
    case 42 => 191
    case 43 => 193
    case 44 => 197
    case 45 => 199
    case 46 => 211
    case 47 => 223
    case 48 => 227
    case 49 => 229
    case 50 => 233
    case 51 => 239
    case 52 => 241
    case 53 => 251
    case 54 => 257
    case 55 => 263
    case 56 => 269
    case 57 => 271
    case 58 => 277
    case 59 => 281
    case 60 => 283
    case 61 => 293
    case 62 => 307
    case 63 => 311
    case 64 => 313
    case 65 => 317
    case 66 => 331
    case 67 => 337
    case 68 => 347
    case 69 => 349
    case 70 => 353
    case 71 => 359
    case 72 => 367
    case 73 => 373
    case 74 => 379
    case 75 => 383
    case 76 => 389
    case 77 => 397
    case 78 => 401
    case _ => 409
  }

  function WholePart(p: nat): nat {
    if p < 8 then 1 else if p < 27 then 2 else if p < 64 then 3 else if p < 125 then 4 else if p < 216 then 5
    else if p < 343 then 6 else 7
  }

  /** The round constants are the fractional parts of the cube roots of the first eighty primes (section 4.2.3). */
  lemma ConstantsAreCubeRoots(t: nat)
    requires t < 80
    ensures CubeRoot(WholePart(Prime(t)), Constant(t), Prime(t))
  {
    hide CubeRoot, Constant, Prime, WholePart;
    if t < 40 {
      FirstConstants(t);
    } else {
      LastConstants(t);
    }
  }

  lemma FirstConstants(t: nat)
    requires t < 40
    ensures CubeRoot(WholePart(Prime(t)), Constant(t), Prime(t))
  {
  }

  lemma LastConstants(t: nat)
    requires 40 <= t < 80
    ensures CubeRoot(WholePart(Prime(t)), Constant(t), Prime(t))
  {
  }

  ghost predicate SquareRoot(r: nat, k: bv64, p: nat) {
    var x := r * WORD64 + k as nat;
    x * x <= p * (WORD64 * WORD64) < (x + 1) * (x + 1)
  }

  /** The initial state is the fractional parts of the square roots of the first eight primes (section 5.3.5). */
  lemma InitialStateIsSquareRoots()
    ensures SquareRoot(1, H0.a, 2) && SquareRoot(1, H0.b, 3) && SquareRoot(2, H0.c, 5) && SquareRoot(2, H0.d, 7)
    ensures SquareRoot(3, H0.e, 11) && SquareRoot(3, H0.f, 13) && SquareRoot(4, H0.g, 17) && SquareRoot(4, H0.h, 19)
  {
  }
}

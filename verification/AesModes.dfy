/** AES counter mode and CBC frames (NIST SP 800-38A), over any block cipher of 16-byte blocks. */
module AesModes {
  import opened Arithmetic
  import opened Buffers
  import Gf2

  const BLOCK: int := 16
  const WORD128: nat := 0x1_0000_0000_0000_0000_0000_0000_0000_0000

  /** A keyed block cipher: what AES_encrypt and AES_decrypt do under one key. */
  datatype Cipher = Cipher(encrypt: seq<byte> -> seq<byte>, decrypt: seq<byte> -> seq<byte>)
  {
    ghost predicate Valid() {
      forall b :: |b| == BLOCK ==>
        && |encrypt(b)| == BLOCK && |decrypt(b)| == BLOCK
        && decrypt(encrypt(b)) == b && encrypt(decrypt(b)) == b
    }
  }

  lemma BlockLength(c: Cipher, b: seq<byte>)
    requires c.Valid() && |b| == BLOCK
    ensures |c.encrypt(b)| == BLOCK && |c.decrypt(b)| == BLOCK
  {
  }

  function XorBytes(a: seq<byte>, b: seq<byte>): (c: seq<byte>)
    requires |a| <= |b|
    ensures |c| == |a|
  {
    seq(|a|, i requires 0 <= i < |a| => XorByte(a[i], b[i]))
  }

  lemma XorByteCancels(x: byte, y: byte)
    ensures XorByte(XorByte(x, y), y) == x
  {
    hide Xor;
    XorCancel(x, y);
    Gf2.XorComm(XorByte(x, y), y);
  }

  lemma XorBytesCancel(a: seq<byte>, b: seq<byte>)
    requires |a| <= |b|
    ensures XorBytes(XorBytes(a, b), b) == a
  {
    hide XorByte;
    forall i | 0 <= i < |a| ensures XorByte(XorByte(a[i], b[i]), b[i]) == a[i] {
      XorByteCancels(a[i], b[i]);
    }
  }

  // ----- counter mode: section 6.5 -----

  /** The counter block number k after the nonce, 128 bits wide. */
  function CounterBlock(nonce: nat, k: nat): seq<byte> { BEBytes(nonce + k, BLOCK) }

  /** Byte number i of the key stream. */
  ghost function KeyByte(c: Cipher, nonce: nat, i: nat): byte
    requires c.Valid()
  {
    hide Cipher.Valid;
    BlockLength(c, CounterBlock(nonce, i / BLOCK));
    c.encrypt(CounterBlock(nonce, i / BLOCK))[i % BLOCK]
  }

  /** data, which starts at byte pos of the stream, under the key stream. */
  ghost function Ctr(c: Cipher, nonce: nat, pos: nat, data: seq<byte>): (r: seq<byte>)
    requires c.Valid()
    ensures |r| == |data|
  {
    hide Cipher.Valid, XorByte;
    seq(|data|, i requires 0 <= i < |data| => XorByte(data[i], KeyByte(c, nonce, pos + i)))
  }

  /** However data is cut, each piece continues where the last one stopped. */
  lemma CtrConcat(c: Cipher, nonce: nat, pos: nat, a: seq<byte>, b: seq<byte>)
    requires c.Valid()
    ensures Ctr(c, nonce, pos, a + b) == Ctr(c, nonce, pos, a) + Ctr(c, nonce, pos + |a|, b)
  {
    hide XorByte, KeyByte, Cipher.Valid;
    var r, s := Ctr(c, nonce, pos, a + b), Ctr(c, nonce, pos, a) + Ctr(c, nonce, pos + |a|, b);
    forall i | 0 <= i < |r| ensures r[i] == s[i] {
      if i >= |a| {
        assert pos + |a| + (i - |a|) == pos + i;
      }
    }
  }

  /** Decryption is the same operation. */
  lemma {:induction false} CtrInverse(c: Cipher, nonce: nat, pos: nat, data: seq<byte>)
    requires c.Valid()
    ensures Ctr(c, nonce, pos, Ctr(c, nonce, pos, data)) == data
  {
    hide XorByte, KeyByte, Cipher.Valid;
    forall i | 0 <= i < |data|
      ensures Ctr(c, nonce, pos, Ctr(c, nonce, pos, data))[i] == data[i]
    {
      XorByteCancels(data[i], KeyByte(c, nonce, pos + i));
    }
  }

  /** AES_CTR_Increment */
  method Increment(counter: array<byte>)
    requires counter.Length == BLOCK
    modifies counter
    ensures counter[..] == BEBytes(BE(old(counter[..])) + 1, BLOCK)
  {
    hide BE, BEBytes;
    ghost var before := counter[..];
    var i := BLOCK - 1;
    while i >= 0
      invariant -1 <= i < BLOCK
      invariant counter[..] == before[..i + 1] + Zeros(BLOCK - 1 - i)
      invariant forall k :: i < k < BLOCK ==> before[k] == 255
    {
      assert counter[i] == before[i];
      counter[i] := (counter[i] as int + 1) % 256;
      CarryOn(before, i, counter[i]);
      assert counter[..] == (before[..i + 1] + Zeros(BLOCK - 1 - i))[i := counter[i]];
      if counter[i] != 0 {
        Carried(before[..i], before[i], before[i + 1..]);
        return;
      }
      i := i - 1;
    }
    AllOnes(before);
  }

  /** One more byte from the end on is done. */
  lemma CarryOn(before: seq<byte>, i: nat, x: byte)
    requires i < |before| == BLOCK
    ensures var now := (before[..i + 1] + Zeros(BLOCK - 1 - i))[i := x];
            && now == before[..i] + [x] + Zeros(BLOCK - 1 - i)
            && (x == 0 ==> now == before[..i] + Zeros(BLOCK - i))
    ensures before == before[..i] + [before[i]] + before[i + 1..]
  {
    assert [0] + Zeros(BLOCK - 1 - i) == Zeros(BLOCK - i);
  }

  lemma {:induction false} AllOnes(s: seq<byte>)
    requires forall k :: 0 <= k < |s| ==> s[k] == 255
    ensures BEBytes(BE(s) + 1, |s|) == Zeros(|s|)
  {
    if |s| > 0 {
      var n := |s| - 1;
      AllOnes(s[..n]);
      assert (BE(s) + 1) / 256 == BE(s[..n]) + 1 && (BE(s) + 1) % 256 == 0;
    }
  }

  /** Adding one to a number that ends in bytes of 255 clears those and adds one to the byte before them. */
  lemma {:induction false} Carried(high: seq<byte>, x: byte, ones: seq<byte>)
    requires x < 255 && forall k :: 0 <= k < |ones| ==> ones[k] == 255
    ensures var s := high + [x] + ones;
            BEBytes(BE(s) + 1, |s|) == high + [x + 1] + Zeros(|ones|)
    decreases |ones|
  {
    var s := high + [x] + ones;
    var n := |s| - 1;
    if |ones| == 0 {
      assert s[..n] == high && s[n] == x;
      BytesOfBE(high);
      assert (BE(s) + 1) / 256 == BE(high) && (BE(s) + 1) % 256 == x + 1;
    } else {
      var less := ones[..|ones| - 1];
      assert s[..n] == high + [x] + less && s[n] == 255;
      Carried(high, x, less);
      assert (BE(s) + 1) / 256 == BE(s[..n]) + 1 && (BE(s) + 1) % 256 == 0;
      assert Zeros(|ones|) == Zeros(|less|) + [0];
    }
  }

  /** AES_CTR_Context */
  class CtrContext {
    const cipher: Cipher
    const ctr: array<byte>
    const buf: array<byte>
    var used: nat
    var legacy: bool
    /** The initial counter, and how many bytes of the key stream have been consumed. */
    ghost const nonce: nat
    ghost var pos: nat

    /** AES_CTR_Init */
    constructor (cipher: Cipher, iv: seq<byte>)
      requires cipher.Valid() && |iv| == BLOCK
      ensures Valid() && this.cipher == cipher && nonce == BE(iv) && pos == 0 && !legacy
      ensures fresh(ctr) && fresh(buf)
    {
      this.cipher, used, legacy, nonce, pos := cipher, 0, false, BE(iv), 0;
      ctr := new byte[16](i => if 0 <= i < |iv| then iv[i] else 0);
      buf := new byte[16](i => 0);
      new;
      hide BE, BEBytes, Cipher.Valid;
      assert Blocks(0) == 0;
      assert ctr[..] == iv;
      BytesOfBE(iv);
    }

    /** The counter is the next unused one, and a partly used block is still in the buffer. */
    ghost predicate Valid()
      reads this, ctr, buf
    {
      && cipher.Valid() && ctr.Length == BLOCK && buf.Length == BLOCK && ctr != buf
      && used == pos % BLOCK && (legacy ==> used == 0)
      && ctr[..] == CounterBlock(nonce, Blocks(pos))
      && (used != 0 ==> buf[..] == cipher.encrypt(CounterBlock(nonce, pos / BLOCK)))
    }

    /** Encrypt the counter into the buffer and advance it. */
    method NextBlock()
      requires Valid() && used == 0
      modifies ctr, buf
      ensures buf[..] == cipher.encrypt(CounterBlock(nonce, pos / BLOCK))
      ensures ctr[..] == CounterBlock(nonce, pos / BLOCK + 1)
    {
      hide CounterBlock, BE, Blocks, Cipher.Valid;
      BlocksAt(pos);
      BlockLength(cipher, ctr[..]);
      var block := cipher.encrypt(ctr[..]);
      CopyInto(buf, 0, block);
      Increment(ctr);
      NextCounter(nonce, pos / BLOCK);
    }

    /** Use up to n bytes of the buffered block, from data[from..] into dst[from..]. */
    method Mask(src: array<byte>, dst: array<byte>, from: nat, n: nat, first: nat)
      requires from + n <= src.Length && from + n <= dst.Length && first + n <= buf.Length
      requires dst != buf && dst != ctr && src != buf
      modifies dst
      ensures dst[..] == old(dst[..from]) + XorBytes(old(src[from..from + n]), buf[first..first + n])
        + old(dst[from + n..])
    {
      hide XorByte, XorBytes, Cipher.Valid;
      ghost var was, data, key := dst[..], src[from..from + n], buf[first..first + n];
      MaskNothing(was, data, key, from);
      for i := 0 to n
        invariant dst[..] == Masked(was, data, key, from, i)
        invariant src == dst || src[from..from + n] == data
        invariant buf[first..first + n] == key
      {
        MaskStep(was, data, key, from, i);
        assert src[from + i] == data[i] && buf[first + i] == key[i];
        dst[from + i] := XorByte(src[from + i], buf[first + i]);
      }
      assert data[..n] == data && key[..n] == key;
    }

    /** dst after i bytes. */
    static ghost function Masked(was: seq<byte>, data: seq<byte>, key: seq<byte>, from: nat, i: nat): (r: seq<byte>)
      requires i <= |data| == |key| && from + |data| <= |was|
      ensures |r| == |was|
    {
      was[..from] + XorBytes(data[..i], key[..i]) + was[from + i..]
    }

    static lemma MaskNothing(was: seq<byte>, data: seq<byte>, key: seq<byte>, from: nat)
      requires |data| == |key| && from + |data| <= |was|
      ensures Masked(was, data, key, from, 0) == was
    {
    }

    static lemma MaskStep(was: seq<byte>, data: seq<byte>, key: seq<byte>, from: nat, i: nat)
      requires i < |data| == |key| && from + |data| <= |was|
      ensures Masked(was, data, key, from, i)[from + i] == was[from + i]
      ensures Masked(was, data, key, from, i + 1)
        == Masked(was, data, key, from, i)[from + i := XorByte(data[i], key[i])]
    {
      hide XorByte;
      assert data[..i + 1] == data[..i] + [data[i]] && key[..i + 1] == key[..i] + [key[i]];
      assert XorBytes(data[..i + 1], key[..i + 1]) == XorBytes(data[..i], key[..i]) + [XorByte(data[i], key[i])];
    }

    /** The first k bytes are done: dst holds them under the key stream, and the rest of src is as it was. */
    ghost predicate Done(src: array<byte>, dst: array<byte>, data: seq<byte>, was: seq<byte>, k: nat, start: nat)
      requires cipher.Valid()
      reads src, dst
    {
      && k <= |data| <= src.Length && |data| <= dst.Length == |was|
      && dst[..] == Ctr(cipher, nonce, start, data[..k]) + was[k..]
      && src[k..|data|] == data[k..]
    }

    /** Mask the next n bytes with the buffered block, from byte first of it on. */
    method Advance(src: array<byte>, dst: array<byte>, ghost data: seq<byte>, ghost was: seq<byte>, k: nat, n: nat,
                   first: nat,
                   ghost start: nat)
      requires cipher.Valid() && buf.Length == BLOCK && dst != buf && dst != ctr && src != buf
      requires Done(src, dst, data, was, k, start) && k + n <= |data| && (src == dst ==> was[..|data|] == data)
      requires first == (start + k) % BLOCK && first + n <= BLOCK
      requires buf[..] == cipher.encrypt(CounterBlock(nonce, (start + k) / BLOCK))
      modifies dst
      ensures Done(src, dst, data, was, k + n, start)
    {
      hide XorBytes, Cipher.Valid, CounterBlock, Ctr, KeyByte;
      ghost var before, x, y := dst[..], data[..k], data[k..k + n];
      RestParts(src[..], data, k, n);
      Mask(src, dst, k, n, first);
      MaskIsCtr(cipher, nonce, start + k, y, buf[..]);
      assert buf[first..first + n] == buf[..][first..first + n];
      ghost var cx, cy := Ctr(cipher, nonce, start, x), Ctr(cipher, nonce, start + k, y);
      assert dst[..] == before[..k] + cy + before[k + n..];
      CtrConcat(cipher, nonce, start, x, y);
      assert x + y == data[..k + n];
      Extended(before, cx, cy, was, k, n);
      assert dst[..] == cx + cy + was[k + n..];
      assert src[k + n..|data|] == data[k + n..] by {
        if src == dst {
          InPlaceRest(dst[..], cx + cy, was, data);
        }
      }
    }

    /** Key stream left over from before is used first. */
    method UseLeftover(src: array<byte>, dst: array<byte>, ghost data: seq<byte>, ghost was: seq<byte>,
                       len: nat) returns (k: nat)
      requires Valid() && dst != buf && dst != ctr && src != buf && src != ctr && |data| == len
      requires Done(src, dst, data, was, 0, pos) && (src == dst ==> was[..|data|] == data)
      modifies this`used, this`pos, dst
      ensures Valid() && k <= len && pos == old(pos) + k && (used == 0 || k == len)
      ensures Done(src, dst, data, was, k, old(pos)) && (used == 0 ==> legacy || pos % BLOCK == 0)
    {
      hide Cipher.Valid, CounterBlock, Blocks, Done;
      k := 0;
      if used != 0 {
        k := if len < BLOCK - used then len else BLOCK - used;
        UsedUp(pos, used, k);
        Bounded(src, dst, data, was, 0, pos);
        Advance(src, dst, data, was, 0, k, used, pos);
        used := (used + k) % BLOCK;
        pos := pos + k;
      }
    }

    lemma Bounded(src: array<byte>, dst: array<byte>, data: seq<byte>, was: seq<byte>, k: nat, start: nat)
      requires cipher.Valid() && Done(src, dst, data, was, k, start)
      ensures k <= |data| <= src.Length && |data| <= dst.Length == |was|
    {
      hide Cipher.Valid;
    }

    /** Whole blocks. */
    method WholeBlocks(src: array<byte>, dst: array<byte>, ghost data: seq<byte>, ghost was: seq<byte>, len: nat,
                       from: nat,
                       ghost start: nat) returns (k: nat)
      requires Valid() && dst != buf && dst != ctr && src != buf && src != ctr && |data| == len && from <= len
      requires pos == start + from && (used == 0 || from == len)
      requires Done(src, dst, data, was, from, start) && (src == dst ==> was[..|data|] == data)
      modifies this`pos, ctr, buf, dst
      ensures Valid() && from <= k <= len < k + BLOCK && pos == start + k && (used == 0 || k == len)
      ensures Done(src, dst, data, was, k, start)
    {
      hide Cipher.Valid, CounterBlock, Blocks, Done;
      k := from;
      while len - k >= BLOCK
        invariant Valid() && from <= k <= len && pos == start + k && (used == 0 || k == len)
        invariant Done(src, dst, data, was, k, start)
      {
        BlocksAt(pos);
        BlocksAt(pos + BLOCK);
        NextBlock();
        Advance(src, dst, data, was, k, BLOCK, 0, start);
        k := k + BLOCK;
        pos := pos + BLOCK;
      }
    }

    /** A last, partial block. In legacy mode the rest of its key stream is thrown away. */
    method LastBytes(src: array<byte>, dst: array<byte>, ghost data: seq<byte>, ghost was: seq<byte>, len: nat, k: nat,
                     ghost start: nat)
      requires Valid() && dst != buf && dst != ctr && src != buf && src != ctr && |data| == len && k < len < k + BLOCK
      requires pos == start + k && used == 0
      requires Done(src, dst, data, was, k, start) && (src == dst ==> was[..|data|] == data)
      modifies this`used, this`pos, ctr, buf, dst
      ensures Valid() && Done(src, dst, data, was, len, start)
      ensures pos == if legacy then Blocks(start + len) * BLOCK else start + len
    {
      hide Cipher.Valid, CounterBlock, Blocks, Done;
      BlocksAt(pos);
      BlocksAt(pos + (len - k));
      BlocksAt(pos + BLOCK);
      NextBlock();
      Advance(src, dst, data, was, k, len - k, 0, start);
      if legacy {
        pos := pos + BLOCK;
      } else {
        used := len - k;
        pos := pos + (len - k);
      }
    }

    /** AES_CTR_Update. src and dst may be the same buffer. */
    method Update(src: array<byte>, dst: array<byte>, len: nat)
      requires Valid() && len <= src.Length && len <= dst.Length
      requires dst != buf && dst != ctr && src != buf && src != ctr
      modifies this`used, this`pos, ctr, buf, dst
      ensures Valid() && legacy == old(legacy)
      ensures dst[..] == Ctr(cipher, nonce, old(pos), old(src[..len])) + old(dst[len..])
      ensures pos == if legacy then Blocks(old(pos) + len) * BLOCK else old(pos) + len
    {
      hide Cipher.Valid, CounterBlock, Ctr, Blocks, Done;
      ghost var start, data, was := pos, src[..len], dst[..];
      NothingDone(src, dst, data, was, start);
      var k := UseLeftover(src, dst, data, was, len);
      k := WholeBlocks(src, dst, data, was, len, k, start);
      if k < len {
        LastBytes(src, dst, data, was, len, k, start);
      } else {
        BlocksAt(pos);
      }
      Finished(src, dst, data, was, start);
    }

    lemma NothingDone(src: array<byte>, dst: array<byte>, data: seq<byte>, was: seq<byte>, start: nat)
      requires cipher.Valid() && |data| <= src.Length && src[..|data|] == data && dst[..] == was && |data| <= |was|
      ensures Done(src, dst, data, was, 0, start)
    {
      hide Cipher.Valid, Ctr;
      CtrOfNothing(cipher, nonce, start);
      assert data[..0] == [] && [] + was[0..] == was;
    }

    lemma Finished(src: array<byte>, dst: array<byte>, data: seq<byte>, was: seq<byte>, start: nat)
      requires cipher.Valid() && Done(src, dst, data, was, |data|, start)
      ensures |data| <= |was| && dst[..] == Ctr(cipher, nonce, start, data) + was[|data|..]
    {
      hide Cipher.Valid, Ctr;
      assert data[..|data|] == data;
    }
  }

  /** The next n bytes of the source, and those after them. */
  lemma RestParts(src: seq<byte>, data: seq<byte>, k: nat, n: nat)
    requires k + n <= |data| <= |src| && src[k..|data|] == data[k..]
    ensures src[k..k + n] == data[k..k + n] && src[k + n..|data|] == data[k + n..]
  {
    var rest := src[k..|data|];
    assert src[k..k + n] == rest[..n] && data[k..k + n] == data[k..][..n];
    assert src[k + n..|data|] == rest[n..] && data[k + n..] == data[k..][n..];
  }

  lemma InPlaceRest(dst: seq<byte>, done: seq<byte>, was: seq<byte>, data: seq<byte>)
    requires |done| <= |data| <= |was| && dst == done + was[|done|..] && was[..|data|] == data
    ensures dst[|done|..|data|] == data[|done|..]
  {
  }

  lemma Extended(dst: seq<byte>, x: seq<byte>, y: seq<byte>, was: seq<byte>, k: nat, n: nat)
    requires |x| == k && |y| == n && k + n <= |was| && dst == x + was[k..]
    ensures dst[..k] + y + dst[k + n..] == x + y + was[k + n..]
  {
    assert dst[..k] == x;
    assert dst[k + n..] == was[k + n..];
  }

  lemma CtrOfNothing(c: Cipher, nonce: nat, pos: nat)
    requires c.Valid()
    ensures Ctr(c, nonce, pos, []) == []
  {
  }

  lemma UsedUp(pos: nat, used: nat, k: nat)
    requires used == pos % BLOCK && 0 < used && used + k <= BLOCK
    ensures (used + k) % BLOCK == (pos + k) % BLOCK && Blocks(pos + k) == Blocks(pos)
    ensures used + k < BLOCK ==> (pos + k) / BLOCK == pos / BLOCK
  {
  }

  /** Masking with part of a key stream block is counter mode at that position. */
  lemma MaskIsCtr(c: Cipher, nonce: nat, pos: nat, data: seq<byte>, block: seq<byte>)
    requires c.Valid() && |block| == BLOCK && block == c.encrypt(CounterBlock(nonce, pos / BLOCK))
    requires pos % BLOCK + |data| <= BLOCK
    ensures XorBytes(data, block[pos % BLOCK..pos % BLOCK + |data|]) == Ctr(c, nonce, pos, data)
  {
    hide XorByte, Cipher.Valid, CounterBlock;
    var mask := block[pos % BLOCK..pos % BLOCK + |data|];
    forall i | 0 <= i < |data|
      ensures mask[i] == KeyByte(c, nonce, pos + i)
    {
      assert (pos + i) / BLOCK == pos / BLOCK && (pos + i) % BLOCK == pos % BLOCK + i;
    }
  }

  lemma NextCounter(nonce: nat, k: nat)
    ensures |CounterBlock(nonce, k)| == BLOCK
    ensures BEBytes(BE(CounterBlock(nonce, k)) + 1, BLOCK) == CounterBlock(nonce, k + 1)
  {
    hide BE, BEBytes;
    var x := nonce + k;
    BEOfBytes(x, BLOCK);
    BELow(x + 1, BLOCK);
    var m := Pow2(8 * BLOCK);
    BELow(x % m + 1, BLOCK);
    hide Pow2;
    ModAddMultiple(x % m + 1, x / m, m);
    DivMod(x, m);
  }

  /** How many blocks the first pos bytes touch. */
  function Blocks(pos: nat): nat { (pos + BLOCK - 1) / BLOCK }

  lemma BlocksAt(pos: nat)
    ensures Blocks(pos) == if pos % BLOCK == 0 then pos / BLOCK else pos / BLOCK + 1
  {
  }

  /** Encrypting a message piece by piece, in place, is counter mode on the whole message. */
  method CryptPieces(c: Cipher, iv: seq<byte>, pieces: seq<seq<byte>>) returns (out: seq<byte>)
    requires c.Valid() && |iv| == BLOCK
    ensures out == Ctr(c, BE(iv), 0, Flatten(pieces))
  {
    hide Cipher.Valid, Ctr, BE;
    var context := new CtrContext(c, iv);
    out := [];
    CtrOfNothing(c, BE(iv), 0);
    for i := 0 to |pieces|
      invariant fresh(context) && fresh(context.ctr) && fresh(context.buf) && context.Valid() && !context.legacy
      invariant context.cipher == c && context.nonce == BE(iv) && context.pos == |Flatten(pieces[..i])|
      invariant out == Ctr(c, BE(iv), 0, Flatten(pieces[..i]))
    {
      var piece := pieces[i];
      assert pieces[..i + 1][..i] == pieces[..i];
      var buffer := new byte[|piece|](k => if 0 <= k < |piece| then piece[k] else 0);
      assert buffer[..|piece|] == piece;
      context.Update(buffer, buffer, |piece|);
      CtrConcat(c, BE(iv), 0, Flatten(pieces[..i]), piece);
      out := out + buffer[..];
    }
    assert pieces[..|pieces|] == pieces;
  }

  /** Running it again from the same start gives the message back. */
  method CryptTwice(c: Cipher, iv: seq<byte>, pieces: seq<seq<byte>>, cuts: seq<seq<byte>>) returns (out: seq<byte>)
    requires c.Valid() && |iv| == BLOCK && Flatten(cuts) == Ctr(c, BE(iv), 0, Flatten(pieces))
    ensures out == Flatten(pieces)
  {
    hide Cipher.Valid, Ctr, BE;
    out := CryptPieces(c, iv, cuts);
    CtrInverse(c, BE(iv), 0, Flatten(pieces));
  }

  // ----- cipher block chaining: section 6.2 -----

  /** The last block of data, or iv. */
  function LastBlock(iv: seq<byte>, data: seq<byte>): (b: seq<byte>)
    requires |iv| == BLOCK && |data| % BLOCK == 0
    ensures |b| == BLOCK
  {
    if |data| == 0 then iv else data[|data| - BLOCK..]
  }

  ghost function CbcEncrypt(c: Cipher, iv: seq<byte>, data: seq<byte>): (r: seq<byte>)
    requires c.Valid() && |iv| == BLOCK && |data| % BLOCK == 0
    ensures |r| == |data|
  {
    if |data| == 0 then []
    else
      hide Cipher.Valid;
      var n := |data| - BLOCK;
      var front := CbcEncrypt(c, iv, data[..n]);
      var x := XorBytes(data[n..], LastBlock(iv, front));
      BlockLength(c, x);
      front + c.encrypt(x)
  }

  ghost function CbcDecrypt(c: Cipher, iv: seq<byte>, data: seq<byte>): (r: seq<byte>)
    requires c.Valid() && |iv| == BLOCK && |data| % BLOCK == 0
    ensures |r| == |data|
  {
    if |data| == 0 then []
    else
      hide Cipher.Valid;
      var n := |data| - BLOCK;
      BlockLength(c, data[n..]);
      CbcDecrypt(c, iv, data[..n]) + XorBytes(c.decrypt(data[n..]), LastBlock(iv, data[..n]))
  }

  lemma CbcEncryptStep(c: Cipher, iv: seq<byte>, data: seq<byte>, block: seq<byte>)
    requires c.Valid() && |iv| == BLOCK && |data| % BLOCK == 0 && |block| == BLOCK
    ensures CbcEncrypt(c, iv, data + block) ==
            CbcEncrypt(c, iv, data) + c.encrypt(XorBytes(block, LastBlock(iv, CbcEncrypt(c, iv, data))))
  {
    hide Cipher.Valid, XorBytes, LastBlock;
    var all := data + block;
    assert all[..|all| - BLOCK] == data && all[|all| - BLOCK..] == block;
  }

  lemma CbcDecryptStep(c: Cipher, iv: seq<byte>, data: seq<byte>, block: seq<byte>)
    requires c.Valid() && |iv| == BLOCK && |data| % BLOCK == 0 && |block| == BLOCK
    ensures |c.decrypt(block)| == BLOCK
    ensures CbcDecrypt(c, iv, data + block) ==
            CbcDecrypt(c, iv, data) + XorBytes(c.decrypt(block), LastBlock(iv, data))
  {
    hide Cipher.Valid, XorBytes, LastBlock;
    BlockLength(c, block);
    var all := data + block;
    assert all[..|all| - BLOCK] == data && all[|all| - BLOCK..] == block;
  }

  lemma DecryptEncrypt(c: Cipher, b: seq<byte>)
    requires c.Valid() && |b| == BLOCK
    ensures |c.encrypt(b)| == BLOCK && c.decrypt(c.encrypt(b)) == b
  {
  }

  /** Decryption with the same initialization vector gives whole blocks back. */
  lemma {:induction false} CbcInverse(c: Cipher, iv: seq<byte>, data: seq<byte>)
    requires c.Valid() && |iv| == BLOCK && |data| % BLOCK == 0
    ensures CbcDecrypt(c, iv, CbcEncrypt(c, iv, data)) == data
    decreases |data|
  {
    hide Cipher.Valid, XorBytes, LastBlock;
    if |data| > 0 {
      var n := |data| - BLOCK;
      var front, block := data[..n], data[n..];
      assert data == front + block;
      CbcInverse(c, iv, front);
      hide CbcEncrypt, CbcDecrypt;
      var chained := CbcEncrypt(c, iv, front);
      var x := XorBytes(block, LastBlock(iv, chained));
      CbcEncryptStep(c, iv, front, block);
      DecryptEncrypt(c, x);
      CbcDecryptStep(c, iv, chained, c.encrypt(x));
      XorBytesCancel(block, LastBlock(iv, chained));
    }
  }

  /** A second run whose initialization vector is the last ciphertext block continues the first. */
  lemma {:induction false} CbcEncryptConcat(c: Cipher, iv: seq<byte>, a: seq<byte>, b: seq<byte>)
    requires c.Valid() && |iv| == BLOCK && |a| % BLOCK == 0 && |b| % BLOCK == 0
    ensures CbcEncrypt(c, iv, a + b) ==
            CbcEncrypt(c, iv, a) + CbcEncrypt(c, LastBlock(iv, CbcEncrypt(c, iv, a)), b)
    decreases |b|
  {
    hide Cipher.Valid, XorBytes, LastBlock, CbcEncrypt;
    var x := CbcEncrypt(c, iv, a);
    var l := LastBlock(iv, x);
    if |b| == 0 {
      assert a + b == a && x + [] == x;
      EncryptNothing(c, l);
    } else {
      var n := |b| - BLOCK;
      var front, block := b[..n], b[n..];
      assert (a + front) + block == a + b && front + block == b;
      CbcEncryptConcat(c, iv, a, front);
      CbcEncryptStep(c, iv, a + front, block);
      CbcEncryptStep(c, l, front, block);
      LastOfConcat(iv, x, CbcEncrypt(c, l, front));
      var y := c.encrypt(XorBytes(block, LastBlock(l, CbcEncrypt(c, l, front))));
      assert (x + CbcEncrypt(c, l, front)) + y == x + (CbcEncrypt(c, l, front) + y);
    }
  }

  lemma LastOfConcat(iv: seq<byte>, a: seq<byte>, b: seq<byte>)
    requires |iv| == BLOCK && |a| % BLOCK == 0 && |b| % BLOCK == 0
    ensures LastBlock(iv, a + b) == LastBlock(LastBlock(iv, a), b)
  {
  }

  lemma {:induction false} CbcDecryptConcat(c: Cipher, iv: seq<byte>, a: seq<byte>, b: seq<byte>)
    requires c.Valid() && |iv| == BLOCK && |a| % BLOCK == 0 && |b| % BLOCK == 0
    ensures CbcDecrypt(c, iv, a + b) == CbcDecrypt(c, iv, a) + CbcDecrypt(c, LastBlock(iv, a), b)
    decreases |b|
  {
    hide Cipher.Valid, XorBytes, LastBlock, CbcDecrypt;
    if |b| == 0 {
      assert a + b == a;
      DecryptNothing(c, LastBlock(iv, a));
    } else {
      var n := |b| - BLOCK;
      var front, block, l := b[..n], b[n..], LastBlock(iv, a);
      assert (a + front) + block == a + b && front + block == b;
      CbcDecryptConcat(c, iv, a, front);
      CbcDecryptStep(c, iv, a + front, block);
      CbcDecryptStep(c, l, front, block);
      LastOfConcat(iv, a, front);
      var x := XorBytes(c.decrypt(block), LastBlock(l, front));
      assert (CbcDecrypt(c, iv, a) + CbcDecrypt(c, l, front)) + x
          == CbcDecrypt(c, iv, a) + (CbcDecrypt(c, l, front) + x);
    }
  }

  lemma DecryptNothing(c: Cipher, iv: seq<byte>)
    requires c.Valid() && |iv| == BLOCK
    ensures CbcDecrypt(c, iv, []) == [] && LastBlock(iv, []) == iv
  {
  }

  /** The part of a buffer that starts at off. */
  datatype Pointer = Pointer(buf: array<byte>, off: nat)

  /** result has replaced the first bytes of the output, and the input behind them is as it was. */
  ghost predicate Written(src: Pointer, dst: Pointer, data: seq<byte>, was: seq<byte>, result: seq<byte>)
    reads src.buf, dst.buf
  {
    && |result| <= |data| && src.off + |data| <= src.buf.Length && dst.off + |data| <= dst.buf.Length == |was|
    && (src.buf == dst.buf ==> src.off == dst.off && was[src.off..src.off + |data|] == data)
    && dst.buf[..] == was[..dst.off] + result + was[dst.off + |result|..]
    && src.buf[src.off + |result|..src.off + |data|] == data[|result|..]
  }

  /** The next block of the input. */
  method ReadBlock(src: Pointer, dst: Pointer, ghost data: seq<byte>, ghost was: seq<byte>, ghost result: seq<byte>,
                   k: nat)
      returns (block: seq<byte>)
    requires Written(src, dst, data, was, result) && k == |result| && k + BLOCK <= |data|
    ensures block == data[k..k + BLOCK]
  {
    block := src.buf[src.off + k..src.off + k + BLOCK];
    assert block == src.buf[src.off + k..src.off + |data|][..BLOCK];
  }

  /** Write the next block of the output. */
  method WriteBlock(src: Pointer, dst: Pointer, ghost data: seq<byte>, ghost was: seq<byte>, ghost result: seq<byte>,
                    k: nat, block: seq<byte>)
    requires Written(src, dst, data, was, result) && k == |result| && k + BLOCK <= |data| && |block| == BLOCK
    modifies dst.buf
    ensures Written(src, dst, data, was, result + block)
  {
    ghost var before, rest := dst.buf[..], src.buf[src.off + k..src.off + |data|];
    CopyInto(dst.buf, dst.off + k, block);
    assert dst.buf[..] == before[..dst.off + k] + block + before[dst.off + k + BLOCK..];
    Replaced(before, was[..dst.off], result, was, block);
    assert dst.buf[..] == was[..dst.off] + (result + block) + was[dst.off + k + BLOCK..];
    assert src.buf[src.off + k + BLOCK..src.off + |data|] == data[k + BLOCK..] by {
      if src.buf == dst.buf {
        BehindResult(dst.buf[..], result + block, was, data, dst.off);
      } else {
        assert src.buf[src.off + k + BLOCK..src.off + |data|] == rest[BLOCK..];
      }
    }
  }

  lemma Replaced(dst: seq<byte>, head: seq<byte>, result: seq<byte>, was: seq<byte>, block: seq<byte>)
    requires |head| + |result| + |block| <= |was| && dst == head + result + was[|head| + |result|..]
    ensures var j := |head| + |result|;
            dst[..j] + block + dst[j + |block|..] == head + (result + block) + was[j + |block|..]
  {
    var j := |head| + |result|;
    assert dst[..j] == head + result;
    assert dst[j + |block|..] == was[j + |block|..];
  }

  lemma BehindResult(dst: seq<byte>, result: seq<byte>, was: seq<byte>, data: seq<byte>, off: nat)
    requires off + |data| <= |was| && |result| <= |data| && was[off..off + |data|] == data
    requires dst == was[..off] + result + was[off + |result|..]
    ensures dst[off + |result|..off + |data|] == data[|result|..]
  {
    assert dst[off + |result|..off + |data|] == was[off + |result|..off + |data|];
  }

  /** AES_cbc_encrypt, first branch. iv follows the pointer into the last block written. */
  method EncryptBlocks(c: Cipher, src: Pointer, dst: Pointer, length: nat, ivec: array<byte>, ghost data: seq<byte>,
                       ghost was: seq<byte>)
    requires c.Valid() && ivec.Length == BLOCK && length == |data| && length % BLOCK == 0
    requires ivec != src.buf && ivec != dst.buf && Written(src, dst, data, was, [])
    modifies dst.buf, ivec
    ensures var r := CbcEncrypt(c, old(ivec[..]), data);
            Written(src, dst, data, was, r) && ivec[..] == LastBlock(old(ivec[..]), r)
  {
    hide Cipher.Valid, XorBytes, CbcEncrypt, Written;
    ghost var iv0 := ivec[..];
    var iv, k := ivec[..], 0;
    EncryptNothing(c, iv0);
    while length - k >= BLOCK
      invariant k <= length && k % BLOCK == 0 && ivec[..] == iv0
      invariant Written(src, dst, data, was, CbcEncrypt(c, iv0, data[..k]))
      invariant iv == LastBlock(iv0, CbcEncrypt(c, iv0, data[..k]))
    {
      ghost var r := CbcEncrypt(c, iv0, data[..k]);
      var block := ReadBlock(src, dst, data, was, r, k);
      var x := XorBytes(block, iv);
      BlockLength(c, x);
      CbcEncryptStep(c, iv0, data[..k], block);
      assert data[..k] + block == data[..k + BLOCK];
      var y := c.encrypt(x);
      WriteBlock(src, dst, data, was, r, k, y);
      iv := y;
      k := k + BLOCK;
      LastAdded(iv0, r, y);
    }
    assert data[..k] == data;
    CopyInto(ivec, 0, iv);
    assert ivec[..] == iv;
  }

  lemma EncryptNothing(c: Cipher, iv: seq<byte>)
    requires c.Valid() && |iv| == BLOCK
    ensures CbcEncrypt(c, iv, []) == []
  {
  }

  lemma LastAdded(iv: seq<byte>, data: seq<byte>, block: seq<byte>)
    requires |iv| == BLOCK && |block| == BLOCK && |data| % BLOCK == 0
    ensures LastBlock(iv, data + block) == block
  {
  }

  /** AES_cbc_encrypt, second branch: input and output are different buffers. iv follows the pointer into the input. */
  method DecryptApart(c: Cipher, src: Pointer, dst: Pointer, length: nat, ivec: array<byte>, ghost data: seq<byte>,
                      ghost was: seq<byte>)
    requires c.Valid() && ivec.Length == BLOCK && length == |data| && length % BLOCK == 0
    requires ivec != src.buf && ivec != dst.buf && src.buf != dst.buf && Written(src, dst, data, was, [])
    modifies dst.buf, ivec
    ensures Written(src, dst, data, was, CbcDecrypt(c, old(ivec[..]), data))
      && ivec[..] == LastBlock(old(ivec[..]), data)
  {
    hide Cipher.Valid, XorBytes, CbcDecrypt, Written, LastBlock;
    ghost var iv0 := ivec[..];
    var iv, k := ivec[..], 0;
    DecryptNothing(c, iv0);
    while length - k >= BLOCK
      invariant k <= length && k % BLOCK == 0 && ivec[..] == iv0
      invariant Written(src, dst, data, was, CbcDecrypt(c, iv0, data[..k])) && iv == LastBlock(iv0, data[..k])
    {
      ghost var r := CbcDecrypt(c, iv0, data[..k]);
      var block := ReadBlock(src, dst, data, was, r, k);
      BlockLength(c, block);
      CbcDecryptStep(c, iv0, data[..k], block);
      assert data[..k] + block == data[..k + BLOCK];
      LastAdded(iv0, data[..k], block);
      WriteBlock(src, dst, data, was, r, k, XorBytes(c.decrypt(block), iv));
      iv := block;
      k := k + BLOCK;
    }
    assert data[..k] == data;
    CopyInto(ivec, 0, iv);
    assert ivec[..] == iv;
  }

  /** AES_cbc_encrypt, third branch: in place, with the ciphertext block saved before it is overwritten. */
  method DecryptInPlace(c: Cipher, src: Pointer, length: nat, ivec: array<byte>, ghost data: seq<byte>,
                        ghost was: seq<byte>)
    requires c.Valid() && ivec.Length == BLOCK && length == |data| && length % BLOCK == 0
    requires ivec != src.buf && Written(src, src, data, was, [])
    modifies src.buf, ivec
    ensures Written(src, src, data, was, CbcDecrypt(c, old(ivec[..]), data))
      && ivec[..] == LastBlock(old(ivec[..]), data)
  {
    hide Cipher.Valid, XorBytes, CbcDecrypt, Written, LastBlock;
    ghost var iv0 := ivec[..];
    var k := 0;
    DecryptNothing(c, iv0);
    while length - k >= BLOCK
      invariant k <= length && k % BLOCK == 0
      invariant Written(src, src, data, was, CbcDecrypt(c, iv0, data[..k])) && ivec[..] == LastBlock(iv0, data[..k])
    {
      ghost var r := CbcDecrypt(c, iv0, data[..k]);
      var tmp := ReadBlock(src, src, data, was, r, k);
      BlockLength(c, tmp);
      CbcDecryptStep(c, iv0, data[..k], tmp);
      assert data[..k] + tmp == data[..k + BLOCK];
      LastAdded(iv0, data[..k], tmp);
      WriteBlock(src, src, data, was, r, k, XorBytes(c.decrypt(tmp), ivec[..]));
      CopyInto(ivec, 0, tmp);
      assert ivec[..] == tmp;
      k := k + BLOCK;
    }
    assert data[..k] == data;
  }

  /** CBC in either direction, and the block that the next run would chain to. */
  ghost function Cbc(c: Cipher, encrypt: bool, iv: seq<byte>, data: seq<byte>): (r: seq<byte>)
    requires c.Valid() && |iv| == BLOCK && |data| % BLOCK == 0
    ensures |r| == |data|
  {
    if encrypt then CbcEncrypt(c, iv, data) else CbcDecrypt(c, iv, data)
  }

  ghost function Chained(c: Cipher, encrypt: bool, iv: seq<byte>, data: seq<byte>): (r: seq<byte>)
    requires c.Valid() && |iv| == BLOCK && |data| % BLOCK == 0
    ensures |r| == BLOCK
  {
    LastBlock(iv, if encrypt then CbcEncrypt(c, iv, data) else data)
  }

  /** The block loops of AES_cbc_encrypt. */
  method CbcBlocks(c: Cipher, src: Pointer, dst: Pointer, length: nat, ivec: array<byte>, encrypt: bool)
    requires c.Valid() && ivec.Length == BLOCK && length % BLOCK == 0 && ivec != src.buf && ivec != dst.buf
    requires src.off + length <= src.buf.Length && dst.off + length <= dst.buf.Length
      && (src.buf == dst.buf ==> src.off == dst.off)
    modifies dst.buf, ivec
    ensures var data := old(src.buf[..])[src.off..src.off + length];
            && dst.buf[..] == Placed(old(dst.buf[..]), dst.off, Cbc(c, encrypt, old(ivec[..]), data))
            && ivec[..] == Chained(c, encrypt, old(ivec[..]), data)
  {
    hide Cipher.Valid, CbcEncrypt, CbcDecrypt, LastBlock;
    ghost var data, was := src.buf[src.off..src.off + length], dst.buf[..];
    if encrypt {
      EncryptBlocks(c, src, dst, length, ivec, data, was);
    } else if src.buf != dst.buf {
      DecryptApart(c, src, dst, length, ivec, data, was);
    } else {
      DecryptInPlace(c, src, length, ivec, data, was);
    }
  }

  // ----- a partial last block -----

  function WholePart(n: nat): nat { n / BLOCK * BLOCK }

  function RoundedUp(n: nat): nat { if n % BLOCK == 0 then n else WholePart(n) + BLOCK }

  /** Encrypting a last block of n bytes: the rest of it is the chaining block alone, as if zeros followed the data. */
  method EncryptTail(c: Cipher, src: Pointer, dst: Pointer, at: nat, n: nat, ivec: array<byte>)
    requires c.Valid() && 0 < n < BLOCK && ivec.Length == BLOCK && ivec != dst.buf
    requires src.off + at + n <= src.buf.Length && dst.off + at + BLOCK <= dst.buf.Length
    modifies dst.buf, ivec
    ensures var part := old(src.buf[..])[src.off + at..src.off + at + n];
            var y := c.encrypt(XorBytes(part + Zeros(BLOCK - n), old(ivec[..])));
            |y| == BLOCK && ivec[..] == y && dst.buf[..] == Placed(old(dst.buf[..]), dst.off + at, y)
  {
    hide Cipher.Valid, XorByte;
    ghost var iv := ivec[..];
    var part := src.buf[src.off + at..src.off + at + n];
    var x := XorBytes(part, ivec[..n]) + ivec[n..];
    ZerosKeep(part, iv);
    assert x == XorBytes(part + Zeros(BLOCK - n), iv);
    BlockLength(c, x);
    var y := c.encrypt(x);
    assert part == src.buf[..][src.off + at..src.off + at + n];
    CopyInto(dst.buf, dst.off + at, y);
    CopyInto(ivec, 0, y);
    assert ivec[..] == y;
  }

  lemma ZerosKeep(part: seq<byte>, iv: seq<byte>)
    requires |part| < BLOCK == |iv|
    ensures XorBytes(part + Zeros(BLOCK - |part|), iv) == XorBytes(part, iv[..|part|]) + iv[|part|..]
  {
    hide XorByte;
    forall i | |part| <= i < BLOCK
      ensures XorByte(0, iv[i]) == iv[i]
    {
      XorByteZero(iv[i]);
    }
  }

  lemma XorByteZero(x: byte)
    ensures XorByte(0, x) == x
  {
  }

  /**
   * Decrypting a last block of n bytes: the whole ciphertext block is read, and n bytes are written. In place the
   * code writes the block over itself and puts back what lies behind the n bytes.
   */
  method DecryptTail(c: Cipher, src: Pointer, dst: Pointer, at: nat, n: nat, ivec: array<byte>)
    requires c.Valid() && 0 < n < BLOCK && ivec.Length == BLOCK && ivec != dst.buf
    requires src.off + at + BLOCK <= src.buf.Length && dst.off + at + n <= dst.buf.Length
    requires src.buf == dst.buf ==> src.off == dst.off
    modifies dst.buf, ivec
    ensures var block := old(src.buf[..])[src.off + at..src.off + at + BLOCK];
            && |c.decrypt(block)| == BLOCK && ivec[..] == block
            && dst.buf[..] == Placed(old(dst.buf[..]), dst.off + at, XorBytes(c.decrypt(block), old(ivec[..]))[..n])
  {
    hide Cipher.Valid, XorByte;
    ghost var iv, was := ivec[..], dst.buf[..];
    var tmp := src.buf[src.off + at..src.off + at + BLOCK];
    assert tmp == src.buf[..][src.off + at..src.off + at + BLOCK];
    BlockLength(c, tmp);
    var plain := c.decrypt(tmp);
    var front := XorBytes(plain[..n], ivec[..n]);
    assert front == XorBytes(plain, iv)[..n];
    if src.buf != dst.buf {
      CopyInto(dst.buf, dst.off + at, front);
    } else {
      BackInPlace(was, dst.off + at, front);
      CopyInto(dst.buf, dst.off + at, front + tmp[n..]);
    }
    CopyInto(ivec, 0, tmp);
    assert ivec[..] == tmp;
  }

  lemma BackInPlace(was: seq<byte>, at: nat, front: seq<byte>)
    requires at + BLOCK <= |was| && |front| < BLOCK
    ensures Placed(was, at, front + was[at..at + BLOCK][|front|..]) == Placed(was, at, front)
  {
    var n := |front|;
    assert was[at + n..] == was[at..at + BLOCK][n..] + was[at + BLOCK..];
  }

  /** What AES_cbc_encrypt works on: to encrypt, the data filled with zeros; to decrypt, the whole blocks it reads. */
  ghost function CbcInput(cells: seq<byte>, off: nat, length: nat, encrypt: bool): (r: seq<byte>)
    requires off + (if encrypt then length else RoundedUp(length)) <= |cells|
    ensures |r| == RoundedUp(length) && |r| % BLOCK == 0
  {
    if encrypt then cells[off..off + length] + Zeros(RoundedUp(length) - length)
    else cells[off..off + RoundedUp(length)]
  }

  /** What it writes: whole blocks to encrypt, exactly the length to decrypt. */
  ghost function CbcOutput(c: Cipher, encrypt: bool, iv: seq<byte>, input: seq<byte>, length: nat): (r: seq<byte>)
    requires c.Valid() && |iv| == BLOCK && |input| == RoundedUp(length)
    ensures |r| == if encrypt then RoundedUp(length) else length
  {
    if encrypt then Cbc(c, true, iv, input) else Cbc(c, false, iv, input)[..length]
  }

  /** AES_cbc_encrypt for any length. */
  method CbcCrypt(c: Cipher, src: Pointer, dst: Pointer, length: nat, ivec: array<byte>, encrypt: bool)
    requires c.Valid() && ivec.Length == BLOCK && ivec != src.buf && ivec != dst.buf
    requires src.off + (if encrypt then length else RoundedUp(length)) <= src.buf.Length
    requires dst.off + (if encrypt then RoundedUp(length) else length) <= dst.buf.Length
    requires src.buf == dst.buf ==> src.off == dst.off
    modifies dst.buf, ivec
    ensures var input := old(CbcInput(src.buf[..], src.off, length, encrypt));
            var output := CbcOutput(c, encrypt, old(ivec[..]), input, length);
            && dst.buf[..] == Placed(old(dst.buf[..]), dst.off, output)
            && ivec[..] == Chained(c, encrypt, old(ivec[..]), input)
  {
    hide Cipher.Valid, Cbc, Chained, XorBytes, Placed, RoundedUp, CbcInput, CbcOutput;
    ghost var iv, was, from := ivec[..], dst.buf[..], src.buf[..];
    var whole := WholePart(length);
    var n := length - whole;
    ghost var input := CbcInput(from, src.off, length, encrypt);
    InputParts(from, src.off, length, encrypt);
    ghost var first, last := input[..whole], input[whole..];
    ghost var body := Cbc(c, encrypt, iv, first);
    CbcBlocks(c, src, dst, whole, ivec, encrypt);
    if n == 0 {
      assert input == first;
      OutputWhole(c, encrypt, iv, input, length);
      return;
    }
    BehindPlaced(was, dst.off, body);
    SameLast(from, src.buf[..], src.off + whole, n);
    if encrypt {
      EncryptedParts(c, iv, first, last, length);
      EncryptTail(c, src, dst, whole, n, ivec);
      PlacedTwice(was, dst.off, body, TailCipher(c, iv, first, last));
    } else {
      DecryptedParts(c, iv, first, last, length);
      DecryptTail(c, src, dst, whole, n, ivec);
      PlacedTwice(was, dst.off, body, TailPlain(c, iv, first, last)[..n]);
    }
  }

  /** The input is its whole blocks and, if there is a partial block, one block more. */
  lemma InputParts(cells: seq<byte>, off: nat, length: nat, encrypt: bool)
    requires off + (if encrypt then length else RoundedUp(length)) <= |cells|
    ensures var input, whole := CbcInput(cells, off, length, encrypt), WholePart(length);
            var n := length - whole;
            && n < BLOCK && whole % BLOCK == 0 && off + whole <= |cells|
            && |input| == (if n == 0 then whole else whole + BLOCK)
            && input == input[..whole] + input[whole..] && input[..whole] == cells[off..off + whole]
            && (n == 0 ==> RoundedUp(length) == whole && input == input[..whole])
            && (n > 0 ==> RoundedUp(length) == whole + BLOCK)
            && (n > 0 && encrypt ==> input[whole..] == cells[off + whole..off + whole + n] + Zeros(BLOCK - n))
            && (n > 0 && !encrypt ==> input[whole..] == cells[off + whole..off + whole + BLOCK])
  {
  }

  lemma OutputWhole(c: Cipher, encrypt: bool, iv: seq<byte>, input: seq<byte>, length: nat)
    requires c.Valid() && |iv| == BLOCK && |input| == RoundedUp(length) == length
    ensures CbcOutput(c, encrypt, iv, input, length) == Cbc(c, encrypt, iv, input)
  {
    hide Cipher.Valid, Cbc;
  }

  lemma EncryptedParts(c: Cipher, iv: seq<byte>, first: seq<byte>, last: seq<byte>, length: nat)
    requires c.Valid() && |iv| == BLOCK && |first| == WholePart(length) && |last| == BLOCK
    requires |first| + BLOCK == RoundedUp(length) && |first| % BLOCK == 0
    ensures var y := TailCipher(c, iv, first, last);
            && CbcOutput(c, true, iv, first + last, length) == Cbc(c, true, iv, first) + y
            && Chained(c, true, iv, first + last) == y
  {
    hide Cipher.Valid, Cbc, Chained, TailCipher, RoundedUp;
    CbcTail(c, true, iv, first, last);
  }

  lemma DecryptedParts(c: Cipher, iv: seq<byte>, first: seq<byte>, last: seq<byte>, length: nat)
    requires c.Valid() && |iv| == BLOCK && |first| == WholePart(length) <= length && |last| == BLOCK
    requires |first| + BLOCK == RoundedUp(length) && |first| % BLOCK == 0 && length - |first| < BLOCK
    ensures Chained(c, false, iv, first + last) == last
    ensures var z := TailPlain(c, iv, first, last);
            CbcOutput(c, false, iv, first + last, length) == Cbc(c, false, iv, first) + z[..length - |first|]
  {
    hide Cipher.Valid, Cbc, Chained, TailPlain, RoundedUp;
    CbcTail(c, false, iv, first, last);
    var body, z := Cbc(c, false, iv, first), TailPlain(c, iv, first, last);
    assert (body + z)[..length] == body + z[..length - |first|];
  }

  /** Behind the blocks already written the input is as it was, in place or not. */
  lemma BehindPlaced(was: seq<byte>, off: nat, body: seq<byte>)
    requires off + |body| <= |was|
    ensures Placed(was, off, body)[off + |body|..] == was[off + |body|..]
  {
  }

  lemma SameLast(from: seq<byte>, now: seq<byte>, at: nat, n: nat)
    requires at + n <= |from| == |now|
    ensures from[at..] == now[at..] ==> from[at..at + n] == now[at..at + n]
    ensures from[at..] == now[at..] && at + BLOCK <= |from| ==> from[at..at + BLOCK] == now[at..at + BLOCK]
  {
    assert from[at..at + n] == from[at..][..n] && now[at..at + n] == now[at..][..n];
    if at + BLOCK <= |from| {
      assert from[at..at + BLOCK] == from[at..][..BLOCK] && now[at..at + BLOCK] == now[at..][..BLOCK];
    }
  }

  lemma PlacedTwice(cells: seq<byte>, at: nat, x: seq<byte>, y: seq<byte>)
    requires at + |x| + |y| <= |cells|
    ensures Placed(Placed(cells, at, x), at + |x|, y) == Placed(cells, at, x + y)
  {
    var mid := Placed(cells, at, x);
    assert mid[..at + |x|] == cells[..at] + x;
    assert mid[at + |x| + |y|..] == cells[at + |x| + |y|..];
  }

  /** On whole blocks there is nothing to fill or to cut. */
  lemma WholeInput(cells: seq<byte>, off: nat, length: nat, encrypt: bool)
    requires off + length <= |cells| && length % BLOCK == 0
    ensures RoundedUp(length) == length && CbcInput(cells, off, length, encrypt) == cells[off..off + length]
  {
  }

  /** The block that a last block becomes, and the block it is decrypted to. */
  ghost function TailCipher(c: Cipher, iv: seq<byte>, first: seq<byte>, last: seq<byte>): (y: seq<byte>)
    requires c.Valid() && |iv| == BLOCK && |first| % BLOCK == 0 && |last| == BLOCK
    ensures |y| == BLOCK
  {
    hide Cipher.Valid, XorBytes, Chained;
    var x := XorBytes(last, Chained(c, true, iv, first));
    BlockLength(c, x);
    c.encrypt(x)
  }

  ghost function TailPlain(c: Cipher, iv: seq<byte>, first: seq<byte>, last: seq<byte>): (z: seq<byte>)
    requires c.Valid() && |iv| == BLOCK && |first| % BLOCK == 0 && |last| == BLOCK
    ensures |z| == BLOCK
  {
    hide Cipher.Valid, XorBytes, Chained;
    BlockLength(c, last);
    XorBytes(c.decrypt(last), Chained(c, false, iv, first))
  }

  lemma CbcTail(c: Cipher, encrypt: bool, iv: seq<byte>, first: seq<byte>, last: seq<byte>)
    requires c.Valid() && |iv| == BLOCK && |first| % BLOCK == 0 && |last| == BLOCK
    ensures encrypt ==>
      && Cbc(c, true, iv, first + last) == Cbc(c, true, iv, first) + TailCipher(c, iv, first, last)
      && Chained(c, true, iv, first + last) == TailCipher(c, iv, first, last)
    ensures !encrypt ==>
      && Cbc(c, false, iv, first + last) == Cbc(c, false, iv, first) + TailPlain(c, iv, first, last)
      && Chained(c, false, iv, first + last) == last
  {
    hide Cipher.Valid, XorBytes, LastBlock, CbcEncrypt, CbcDecrypt;
    BlockLength(c, last);
    if encrypt {
      var x := XorBytes(last, Chained(c, true, iv, first));
      BlockLength(c, x);
      CbcEncryptStep(c, iv, first, last);
      LastAdded(iv, CbcEncrypt(c, iv, first), c.encrypt(x));
    } else {
      CbcDecryptStep(c, iv, first, last);
      LastAdded(iv, first, last);
    }
  }

  /** Decrypting what was encrypted gives the data back, for any length. */
  lemma {:induction false} CbcRoundTrip(c: Cipher, iv: seq<byte>, data: seq<byte>)
    requires c.Valid() && |iv| == BLOCK
    ensures var input := CbcInput(data, 0, |data|, true);
            var text := CbcOutput(c, true, iv, input, |data|);
            CbcOutput(c, false, iv, CbcInput(text, 0, |data|, false), |data|) == data
  {
    hide Cipher.Valid, CbcEncrypt, CbcDecrypt;
    var input := CbcInput(data, 0, |data|, true);
    var text := CbcOutput(c, true, iv, input, |data|);
    CbcInverse(c, iv, input);
    assert CbcInput(text, 0, |data|, false) == text;
    assert input[..|data|] == data;
  }

  // ----- CBC frames -----

  /** A frame: whole blocks in CBC mode, and a tail that is only copied. */
  ghost function FrameOf(c: Cipher, encrypt: bool, iv: seq<byte>, data: seq<byte>): (r: seq<byte>)
    requires c.Valid() && |iv| == BLOCK
    ensures |r| == |data|
  {
    Cbc(c, encrypt, iv, data[..WholePart(|data|)]) + data[WholePart(|data|)..]
  }

  lemma CbcConcat(c: Cipher, encrypt: bool, iv: seq<byte>, a: seq<byte>, b: seq<byte>)
    requires c.Valid() && |iv| == BLOCK && |a| % BLOCK == 0 && |b| % BLOCK == 0
    ensures Cbc(c, encrypt, iv, a + b) == Cbc(c, encrypt, iv, a) + Cbc(c, encrypt, Chained(c, encrypt, iv, a), b)
    ensures Chained(c, encrypt, iv, a + b) == Chained(c, encrypt, Chained(c, encrypt, iv, a), b)
  {
    hide Cipher.Valid, CbcEncrypt, CbcDecrypt, LastBlock;
    if encrypt {
      CbcEncryptConcat(c, iv, a, b);
      LastOfConcat(iv, CbcEncrypt(c, iv, a), CbcEncrypt(c, LastBlock(iv, CbcEncrypt(c, iv, a)), b));
    } else {
      CbcDecryptConcat(c, iv, a, b);
      LastOfConcat(iv, a, b);
    }
  }

  lemma CbcNothing(c: Cipher, encrypt: bool, iv: seq<byte>)
    requires c.Valid() && |iv| == BLOCK
    ensures Cbc(c, encrypt, iv, []) == [] && Chained(c, encrypt, iv, []) == iv
  {
  }

  /** Decrypting an encrypted frame gives it back, tail included. */
  lemma {:induction false} FrameInverse(c: Cipher, iv: seq<byte>, data: seq<byte>)
    requires c.Valid() && |iv| == BLOCK
    ensures FrameOf(c, false, iv, FrameOf(c, true, iv, data)) == data
  {
    hide Cipher.Valid, CbcEncrypt, CbcDecrypt;
    var n := WholePart(|data|);
    var f := FrameOf(c, true, iv, data);
    assert f[..n] == Cbc(c, true, iv, data[..n]) && f[n..] == data[n..];
    CbcInverse(c, iv, data[..n]);
    assert data == data[..n] + data[n..];
  }

  /** AES_CBCFrame_Context */
  class FrameContext {
    const cipher: Cipher
    const encrypt: bool
    const iv: seq<byte>

    /** AES_CBCFrame_Init */
    constructor (cipher: Cipher, iv: seq<byte>, encrypt: bool)
      requires cipher.Valid() && |iv| == BLOCK
      ensures Valid() && this.cipher == cipher && this.iv == iv && this.encrypt == encrypt
    {
      this.cipher, this.iv, this.encrypt := cipher, iv, encrypt;
    }

    ghost predicate Valid() { cipher.Valid() && |iv| == BLOCK }

    /** AES_CBCFrame_Update. src and dst may be the same buffer. The context keeps its initialization vector. */
    method Update(src: array<byte>, srcLen: nat, dst: array<byte>)
      requires Valid() && srcLen <= src.Length && srcLen <= dst.Length
      modifies dst
      ensures dst[..] == FrameOf(cipher, encrypt, iv, old(src[..srcLen])) + old(dst[srcLen..])
    {
      hide Cipher.Valid, Cbc, Chained, CbcInput, CbcOutput, RoundedUp, Placed;
      ghost var data, was, from := src[..srcLen], dst[..], src[..];
      var len := WholePart(srcLen);
      var ivec := new byte[16](i => if 0 <= i < |iv| then iv[i] else 0);
      assert ivec[..] == iv;
      assert from[0..len] == data[..len];
      WholeInput(from, 0, len, encrypt);
      OutputWhole(cipher, encrypt, iv, data[..len], len);
      CbcCrypt(cipher, Pointer(src, 0), Pointer(dst, 0), len, ivec, encrypt);
      ghost var whole := Cbc(cipher, encrypt, iv, data[..len]);
      BehindPlaced(was, 0, whole);
      assert src[..][len..] == from[len..];
      assert src[len..srcLen] == src[..][len..][..srcLen - len] == data[len..];
      CopyTailTo(dst, len, src[len..srcLen]);
      PlacedTwice(was, 0, whole, data[len..]);
      PlacedFront(was, whole + data[len..]);
    }

    method CopyTailTo(dst: array<byte>, at: nat, tail: seq<byte>)
      requires at + |tail| <= dst.Length
      modifies dst
      ensures dst[..] == Placed(old(dst[..]), at, tail)
    {
      CopyInto(dst, at, tail);
    }

    static lemma PlacedFront(cells: seq<byte>, x: seq<byte>)
      requires |x| <= |cells|
      ensures Placed(cells, 0, x) == x + cells[|x|..]
    {
    }

    /**
     * AES_CBCFrame_Update2. The first buffer may be the destination; the second may only be if the first is empty,
     * because its front would be overwritten before it is read.
     */
    method Update2(src1: array<byte>, len1: nat, src2: array<byte>, len2: nat, dst: array<byte>)
      requires Valid() && len1 <= src1.Length && len2 <= src2.Length && len1 + len2 <= dst.Length
      requires dst == src2 ==> len1 == 0
      modifies dst
      ensures dst[..] == FrameOf(cipher, encrypt, iv, old(src1[..len1] + src2[..len2])) + old(dst[len1 + len2..])
    {
      hide Cipher.Valid, Cbc, Chained, Blocked, WholePart, FrameOf, CbcInput, CbcOutput, RoundedUp, Placed;
      ghost var in1, in2, was := src1[..len1], src2[..len2], dst[..];
      ghost var data := in1 + in2;
      var ivec := new byte[16](i => if 0 <= i < |iv| then iv[i] else 0);
      assert ivec[..] == iv;
      NothingBlocked(data, was);
      var done := FirstBuffer(src1, len1, dst, ivec, data, was);
      var from1, from2 := done, 0;
      if from1 != len1 && (len1 - from1) + len2 >= BLOCK {
        from2 := Straddle(src1, len1, src2, len2, dst, done, ivec, in1, was);
        from1, done := len1, done + BLOCK;
      }
      var n2 := WholePart(len2 - from2);
      FrameEnd(len1, len2, from1, from2, done);
      if n2 > 0 {
        Pieces(in1, in2, from2, n2);
        RestOfSecond(src2[..], dst[..], ivec[..], in1, in2, was, from2, src2 == dst);
        assert src2[from2..from2 + n2] == src2[from2..len2][..n2] == in2[from2..from2 + n2];
        NextBlocks(src2, from2, dst, done, n2, ivec, data, was);
        from2, done := from2 + n2, done + n2;
      }
      RestOfSecond(src2[..], dst[..], ivec[..], in1, in2, was, from2, src2 == dst);
      CopyTail(src1, from1, len1, src2, from2, len2, dst, done, ivec, in1, in2, was);
    }

    lemma NothingBlocked(data: seq<byte>, was: seq<byte>)
      requires Valid() && |data| <= |was|
      ensures Blocked(was, iv, data, was, 0)
    {
      hide Cipher.Valid, Cbc, Chained;
      CbcNothing(cipher, encrypt, iv);
      assert data[..0] == [];
    }

    /** All whole blocks of the first buffer. */
    method FirstBuffer(src1: array<byte>, len1: nat, dst: array<byte>, ivec: array<byte>, ghost data: seq<byte>,
                       ghost was: seq<byte>)
        returns (done: nat)
      requires Valid() && ivec.Length == BLOCK && ivec != src1 && ivec != dst
      requires len1 <= src1.Length && src1[..len1] <= data && |data| <= dst.Length
      requires Blocked(dst[..], ivec[..], data, was, 0) && dst[..] == was
      modifies dst, ivec
      ensures done == WholePart(len1) <= len1 < done + BLOCK && done % BLOCK == 0
      ensures Blocked(dst[..], ivec[..], data, was, done)
      ensures src1[done..len1] == data[done..len1]
    {
      hide Cipher.Valid, Blocked;
      ghost var first := src1[..];
      done := WholePart(len1);
      assert src1[0..done] == data[0..done] by {
        assert src1[..len1][..done] == data[..len1][..done];
      }
      NextBlocks(src1, 0, dst, 0, done, ivec, data, was);
      RestOfFirst(first, src1[..], dst[..], ivec[..], data, was, len1, done, src1 == dst);
    }

    /** Bytes behind the finished blocks are still what they were, in place or not. */
    lemma RestOfFirst(before: seq<byte>, now: seq<byte>, dst: seq<byte>, ivec: seq<byte>, data: seq<byte>,
                      was: seq<byte>,
                      len1: nat, done: nat, inPlace: bool)
      requires Valid() && Blocked(dst, ivec, data, was, done) && done <= len1 <= |before| && |now| == |before|
        && before[..len1] <= data
      requires if inPlace then now == dst && before == was else now == before
      ensures now[done..len1] == data[done..len1]
    {
      hide Cipher.Valid, Cbc, Chained;
      assert before[done..len1] == before[..len1][done..] == data[..len1][done..];
      if inPlace {
        assert dst[done..len1] == was[done..][..len1 - done];
      }
    }

    lemma RestOfSecond(now: seq<byte>, dst: seq<byte>, ivec: seq<byte>, in1: seq<byte>, in2: seq<byte>, was: seq<byte>,
                       from2: nat, inPlace: bool)
      requires Valid() && from2 <= |in2| <= |now|
      requires if inPlace then now == dst && in1 == [] && in2 <= was && |was| == |now|
        && Blocked(dst, ivec, in1 + in2, was, from2)
               else in2 <= now
      ensures now[from2..|in2|] == in2[from2..]
    {
      hide Cipher.Valid, Cbc, Chained;
      if inPlace {
        assert dst[from2..|in2|] == was[from2..][..|in2| - from2];
      }
    }

    /** A block that starts in the first buffer and ends in the second. */
    method Straddle(src1: array<byte>, len1: nat, src2: array<byte>, len2: nat, dst: array<byte>, done: nat,
                    ivec: array<byte>,
                    ghost in1: seq<byte>, ghost was: seq<byte>) returns (from2: nat)
      requires Valid() && ivec.Length == BLOCK && ivec != dst && ivec != src1 && ivec != src2 && dst != src2
      requires done < len1 < done + BLOCK && len1 <= src1.Length && len2 <= src2.Length && len1 - done + len2 >= BLOCK
      requires |in1| == len1 && src1[done..len1] == in1[done..] && len1 + len2 <= dst.Length
      requires Blocked(dst[..], ivec[..], in1 + src2[..len2], was, done)
      modifies dst, ivec
      ensures from2 == done + BLOCK - len1 && Blocked(dst[..], ivec[..], in1 + src2[..len2], was, done + BLOCK)
    {
      hide Cipher.Valid, Blocked;
      ghost var data := in1 + src2[..len2];
      from2 := done + BLOCK - len1;
      var buf := new byte[16](i => 0);
      CopyInto(buf, 0, src1[done..len1]);
      CopyInto(buf, len1 - done, src2[..from2]);
      assert buf[..] == src1[done..len1] + src2[..from2];
      assert buf[0..BLOCK] == buf[..];
      Joint(in1, src2[..len2], done, from2);
      NextBlocks(buf, 0, dst, done, BLOCK, ivec, data, was);
    }

    /** What is left of either buffer is copied unencrypted. */
    method CopyTail(src1: array<byte>, from1: nat, len1: nat, src2: array<byte>, from2: nat, len2: nat,
                    dst: array<byte>, done: nat,
                    ivec: array<byte>, ghost in1: seq<byte>, ghost in2: seq<byte>, ghost was: seq<byte>)
      requires Valid() && |in1| == len1 && |in2| == len2 && len1 + len2 <= dst.Length
      requires from1 <= len1 <= src1.Length && from2 <= len2 <= src2.Length
      requires src1[from1..len1] == in1[from1..] && src2[from2..len2] == in2[from2..]
      requires if from1 == len1 then done == len1 + from2 else done == from1 && from2 == 0
      requires done == WholePart(len1 + len2) && Blocked(dst[..], ivec[..], in1 + in2, was, done)
      modifies dst
      ensures dst[..] == FrameOf(cipher, encrypt, iv, in1 + in2) + was[len1 + len2..]
    {
      hide Cipher.Valid, Cbc, Chained, WholePart;
      ghost var before, data := dst[..], in1 + in2;
      var tail := src1[from1..len1] + src2[from2..len2];
      assert tail == data[done..];
      CopyInto(dst, done, tail);
      assert dst[..] == before[..done] + tail + before[|data|..];
      Extended(before, Cbc(cipher, encrypt, iv, data[..done]), tail, was, done, |data| - done);
    }

    /** The first k bytes of data are done, and ivec chains to the next block. */
    ghost predicate Blocked(dst: seq<byte>, ivec: seq<byte>, data: seq<byte>, was: seq<byte>, k: nat)
      requires Valid()
    {
      && k % BLOCK == 0 && k <= |data| <= |was|
      && dst == Cbc(cipher, encrypt, iv, data[..k]) + was[k..] && ivec == Chained(cipher, encrypt, iv, data[..k])
    }

    /** Run CBC on the next n bytes. */
    method NextBlocks(src: array<byte>, from: nat, dst: array<byte>, k: nat, n: nat, ivec: array<byte>,
                      ghost data: seq<byte>, ghost was: seq<byte>)
      requires Valid() && ivec.Length == BLOCK && ivec != src && ivec != dst && n % BLOCK == 0
        && (src == dst ==> from == k)
      requires from + n <= src.Length && k + n <= |data| <= dst.Length
      requires Blocked(dst[..], ivec[..], data, was, k) && src[from..from + n] == data[k..k + n]
      modifies dst, ivec
      ensures Blocked(dst[..], ivec[..], data, was, k + n)
    {
      hide Cipher.Valid, Cbc, Chained;
      ghost var before := dst[..];
      ghost var x, y := data[..k], data[k..k + n];
      CbcConcat(cipher, encrypt, iv, x, y);
      assert x + y == data[..k + n];
      WholeInput(src[..], from, n, encrypt);
      CbcCrypt(cipher, Pointer(src, from), Pointer(dst, k), n, ivec, encrypt);
      ghost var cx, cy := Cbc(cipher, encrypt, iv, x), Cbc(cipher, encrypt, Chained(cipher, encrypt, iv, x), y);
      assert dst[..] == before[..k] + cy + before[k + n..];
      Extended(before, cx, cy, was, k, n);
    }
  }

  lemma FrameEnd(len1: nat, len2: nat, from1: nat, from2: nat, done: nat)
    requires from1 <= len1 && from2 <= len2
    requires if from1 == len1 then done % BLOCK == 0 && done == len1 + from2
             else from2 == 0 && done == from1 == WholePart(len1) && len1 - from1 + len2 < BLOCK
    ensures WholePart(len1 + len2) == done + WholePart(len2 - from2)
    ensures WholePart(len2 - from2) <= len2 - from2 && WholePart(len2 - from2) % BLOCK == 0
    ensures from1 < len1 ==> WholePart(len2 - from2) == 0
  {
  }

  lemma Pieces(a: seq<byte>, b: seq<byte>, i: nat, n: nat)
    requires i + n <= |b|
    ensures (a + b)[|a| + i..|a| + i + n] == b[i..i + n]
  {
  }

  lemma Joint(a: seq<byte>, b: seq<byte>, i: nat, j: nat)
    requires i <= |a| && j <= |b|
    ensures (a + b)[i..|a| + j] == a[i..] + b[..j]
  {
  }
}

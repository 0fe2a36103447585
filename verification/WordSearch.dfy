/** STRCHR and MEMCHR: searching a word at a time with bit tricks, against searching byte by byte. */
module WordSearch {
  const MAGIC: bv32 := 0x7efefeff
  const ONES: bv32 := 0x01010101

  /** Four bytes of memory as a little-endian word. */
  function Word(b0: bv8, b1: bv8, b2: bv8, b3: bv8): bv32 {
    (b0 as bv32) | ((b1 as bv32) << 8) | ((b2 as bv32) << 16) | ((b3 as bv32) << 24)
  }

  function Byte0(w: bv32): bv32 { w & 0xff }
  function Byte1(w: bv32): bv32 { (w >> 8) & 0xff }
  function Byte2(w: bv32): bv32 { (w >> 16) & 0xff }
  function Byte3(w: bv32): bv32 { (w >> 24) & 0xff }

  predicate HasZero(w: bv32) { Byte0(w) == 0 || Byte1(w) == 0 || Byte2(w) == 0 || Byte3(w) == 0 }

  // ----- the two tests -----

  /** STRCHR's test: adding MAGIC leaves one of the hole bits as it was. */
  predicate HoleUnchanged(w: bv32) { ((w + MAGIC) ^ !w) & !MAGIC != 0 }

  /** MEMCHR's test: subtracting one from every byte borrows. */
  predicate Borrows(w: bv32) { ((w - ONES) & !w) & (ONES << 7) != 0 }

  /** The test finds every zero byte; it misfires exactly on a top byte of 0x80. */
  lemma HoleTest(w: bv32)
    ensures HoleUnchanged(w) <==> HasZero(w) || Byte3(w) == 0x80
  {
    if HoleUnchanged(w) {
      HolesFire(w);
    } else {
      HolesMiss(w);
    }
  }

  lemma HolesFire(w: bv32)
    requires HoleUnchanged(w)
    ensures HasZero(w) || Byte3(w) == 0x80
  {
  }

  lemma HolesMiss(w: bv32)
    requires !HoleUnchanged(w)
    ensures !HasZero(w) && Byte3(w) != 0x80
  {
  }

  /** The test finds a zero byte exactly when there is one. */
  lemma BorrowTest(w: bv32)
    ensures Borrows(w) <==> HasZero(w)
  {
  }

  /** A word each of whose bytes is c, the way the code builds it. */
  function Repeated(c: bv8): bv32 {
    var half := (c as bv32) | ((c as bv32) << 8);
    half | (half << 16)
  }

  function Wide(b: bv8): bv32 { b as bv32 }
  function Xor32(x: bv32, y: bv32): bv32 { x ^ y }

  lemma WordBytes(b0: bv8, b1: bv8, b2: bv8, b3: bv8)
    ensures Byte0(Word(b0, b1, b2, b3)) == Wide(b0) && Byte1(Word(b0, b1, b2, b3)) == Wide(b1)
    ensures Byte2(Word(b0, b1, b2, b3)) == Wide(b2) && Byte3(Word(b0, b1, b2, b3)) == Wide(b3)
  {
  }

  lemma RepeatedBytes(c: bv8)
    ensures Repeated(c) == Word(c, c, c, c)
  {
  }

  lemma XorOfByte0(x: bv32, y: bv32)
    ensures Byte0(Xor32(x, y)) == Xor32(Byte0(x), Byte0(y))
  {
  }

  lemma XorOfByte1(x: bv32, y: bv32)
    ensures Byte1(Xor32(x, y)) == Xor32(Byte1(x), Byte1(y))
  {
  }

  lemma XorOfByte2(x: bv32, y: bv32)
    ensures Byte2(Xor32(x, y)) == Xor32(Byte2(x), Byte2(y))
  {
  }

  lemma XorOfByte3(x: bv32, y: bv32)
    ensures Byte3(Xor32(x, y)) == Xor32(Byte3(x), Byte3(y))
  {
  }

  lemma SameByte(x: bv8, y: bv8)
    ensures Xor32(Wide(x), Wide(y)) == 0 <==> x == y
    ensures Wide(x) == 0 <==> x == 0
  {
  }

  /** Adding the repeated character turns exactly its occurrences into zero bytes. */
  lemma XorFinds(b0: bv8, b1: bv8, b2: bv8, b3: bv8, c: bv8)
    ensures HasZero(Xor32(Word(b0, b1, b2, b3), Repeated(c))) <==> b0 == c || b1 == c || b2 == c || b3 == c
  {
    hide Word, Byte0, Byte1, Byte2, Byte3, Repeated, Wide, Xor32;
    RepeatedBytes(c);
    WordBytes(b0, b1, b2, b3);
    WordBytes(c, c, c, c);
    XorOfByte0(Word(b0, b1, b2, b3), Repeated(c));
    XorOfByte1(Word(b0, b1, b2, b3), Repeated(c));
    XorOfByte2(Word(b0, b1, b2, b3), Repeated(c));
    XorOfByte3(Word(b0, b1, b2, b3), Repeated(c));
    SameByte(b0, c);
    SameByte(b1, c);
    SameByte(b2, c);
    SameByte(b3, c);
  }

  lemma WordZero(b0: bv8, b1: bv8, b2: bv8, b3: bv8)
    ensures HasZero(Word(b0, b1, b2, b3)) <==> b0 == 0 || b1 == 0 || b2 == 0 || b3 == 0
  {
    hide Word, Byte0, Byte1, Byte2, Byte3, Wide;
    WordBytes(b0, b1, b2, b3);
    SameByte(b0, 0);
    SameByte(b1, 0);
    SameByte(b2, 0);
    SameByte(b3, 0);
  }

  // ----- byte by byte -----

  datatype Found = Nowhere | At(i: nat)

  /** strchr one byte at a time: the first c, unless a zero byte comes before it. */
  function FindChar(mem: seq<bv8>, s: nat, c: bv8): (r: Found)
    requires s <= |mem|
    ensures r.At? ==> s <= r.i < |mem| && mem[r.i] == c && forall k :: s <= k < r.i ==> mem[k] != c && mem[k] != 0
    decreases |mem| - s
  {
    if s == |mem| then Nowhere
    else if mem[s] == c then At(s)
    else if mem[s] == 0 then Nowhere
    else FindChar(mem, s + 1, c)
  }

  /** memchr one byte at a time: the first c before end. */
  function FindByte(mem: seq<bv8>, s: nat, end: nat, c: bv8): (r: Found)
    requires s <= end <= |mem|
    ensures r.At? ==> s <= r.i < end && mem[r.i] == c
    decreases end - s
  {
    if s == end then Nowhere else if mem[s] == c then At(s) else FindByte(mem, s + 1, end, c)
  }

  /** Nowhere means that no c comes before the terminator. */
  lemma {:induction false} CharAbsent(mem: seq<bv8>, s: nat, c: bv8, terminator: nat)
    requires s <= terminator < |mem| && mem[terminator] == 0 && forall k :: s <= k < terminator ==> mem[k] != 0
    ensures FindChar(mem, s, c).Nowhere? <==> c != 0 && forall k :: s <= k < terminator ==> mem[k] != c
    decreases terminator - s
  {
    if s < terminator && mem[s] != c {
      CharAbsent(mem, s + 1, c, terminator);
    }
  }

  lemma {:induction false} ByteAbsent(mem: seq<bv8>, s: nat, end: nat, c: bv8)
    requires s <= end <= |mem|
    ensures FindByte(mem, s, end, c).Nowhere? <==> forall k :: s <= k < end ==> mem[k] != c
    ensures FindByte(mem, s, end, c).At? ==> forall k :: s <= k < FindByte(mem, s, end, c).i ==> mem[k] != c
    decreases end - s
  {
    if s < end && mem[s] != c {
      ByteAbsent(mem, s + 1, end, c);
    }
  }

  // ----- the code -----

  /** Memory that a word read may touch: it starts at a word boundary and is a whole number of words. */
  predicate Aligned(mem: seq<bv8>) { |mem| % 4 == 0 }

  function WordAt(mem: seq<bv8>, i: nat): bv32
    requires i + 4 <= |mem|
  {
    Word(mem[i], mem[i + 1], mem[i + 2], mem[i + 3])
  }

  /** A word without c and without a zero byte can be skipped. */
  lemma SkipWord(mem: seq<bv8>, i: nat, c: bv8)
    requires i + 4 <= |mem| && !HoleUnchanged(WordAt(mem, i)) && !HoleUnchanged(Xor32(WordAt(mem, i), Repeated(c)))
    ensures FindChar(mem, i, c) == FindChar(mem, i + 4, c)
  {
    hide Word, HasZero, HoleUnchanged, Repeated, FindChar, Xor32;
    HoleTest(WordAt(mem, i));
    HoleTest(Xor32(WordAt(mem, i), Repeated(c)));
    WordZero(mem[i], mem[i + 1], mem[i + 2], mem[i + 3]);
    XorFinds(mem[i], mem[i + 1], mem[i + 2], mem[i + 3], c);
    SkipByte(mem, i, c);
    SkipByte(mem, i + 1, c);
    SkipByte(mem, i + 2, c);
    SkipByte(mem, i + 3, c);
  }

  lemma SkipByte(mem: seq<bv8>, i: nat, c: bv8)
    requires i < |mem|
    ensures FindChar(mem, i, c) ==
            if mem[i] == c then At(i) else if mem[i] == 0 then Nowhere else FindChar(mem, i + 1, c)
  {
  }

  /** STRCHR, on a string that starts at s in memory and is terminated by a zero byte. */
  method StrChr(mem: seq<bv8>, s: nat, c: bv8, ghost terminator: nat) returns (r: Found)
    requires Aligned(mem) && s <= terminator < |mem| && mem[terminator] == 0
    ensures r == FindChar(mem, s, c)
  {
    hide HoleUnchanged, Word, Repeated, FindChar, Xor32;
    var p := s;
    // Byte by byte up to a word boundary.
    while p % 4 != 0
      invariant s <= p <= terminator
      invariant FindChar(mem, p, c) == FindChar(mem, s, c)
      decreases terminator + 4 - p
    {
      SkipByte(mem, p, c);
      if mem[p] == c {
        return At(p);
      } else if mem[p] == 0 {
        return Nowhere;
      }
      p := p + 1;
    }
    var charmask := Repeated(c);
    while true
      invariant p % 4 == 0 && s <= p <= terminator && FindChar(mem, p, c) == FindChar(mem, s, c)
      decreases terminator - p
    {
      var longword := WordAt(mem, p);
      if HoleUnchanged(longword) || HoleUnchanged(Xor32(longword, charmask)) {
        // One of the four bytes is c or zero, or this is a misfire.
        for i := 0 to 4
          invariant p + i <= terminator && FindChar(mem, p + i, c) == FindChar(mem, s, c)
        {
          SkipByte(mem, p + i, c);
          if mem[p + i] == c {
            return At(p + i);
          } else if mem[p + i] == 0 {
            return Nowhere;
          }
        }
      } else {
        SkipWord(mem, p, c);
        NoTerminator(mem, p, c, terminator);
      }
      p := p + 4;
    }
  }

  /** A word that both tests pass over does not hold the terminator. */
  lemma NoTerminator(mem: seq<bv8>, p: nat, c: bv8, terminator: nat)
    requires p <= terminator && p + 4 <= |mem| && terminator < |mem| && mem[terminator] == 0
      && !HoleUnchanged(WordAt(mem, p))
    ensures p + 4 <= terminator
  {
    hide Word, HasZero, HoleUnchanged;
    HoleTest(WordAt(mem, p));
    WordZero(mem[p], mem[p + 1], mem[p + 2], mem[p + 3]);
  }

  /** MEMCHR */
  method MemChr(mem: seq<bv8>, s: nat, c: bv8, len: nat) returns (r: Found)
    requires s + len <= |mem|
    ensures r == FindByte(mem, s, s + len, c)
  {
    hide Borrows, Word, Repeated, FindByte, Xor32;
    var p, n := s, len;
    while n > 0 && p % 4 != 0
      invariant p + n == s + len && FindByte(mem, p, p + n, c) == FindByte(mem, s, s + len, c)
    {
      StepByte(mem, p, p + n, c);
      if mem[p] == c {
        return At(p);
      }
      n, p := n - 1, p + 1;
    }
    var repeatedC := Repeated(c);
    while n >= 4
      invariant p + n == s + len && FindByte(mem, p, p + n, c) == FindByte(mem, s, s + len, c)
    {
      if Borrows(Xor32(WordAt(mem, p), repeatedC)) {
        break;
      }
      StepWord(mem, p, p + n, c);
      p, n := p + 4, n - 4;
    }
    while n > 0
      invariant p + n == s + len && FindByte(mem, p, p + n, c) == FindByte(mem, s, s + len, c)
    {
      StepByte(mem, p, p + n, c);
      if mem[p] == c {
        return At(p);
      }
      n, p := n - 1, p + 1;
    }
    NoBytes(mem, p, c);
    return Nowhere;
  }

  lemma NoBytes(mem: seq<bv8>, p: nat, c: bv8)
    requires p <= |mem|
    ensures FindByte(mem, p, p, c) == Nowhere
  {
  }

  lemma StepByte(mem: seq<bv8>, p: nat, end: nat, c: bv8)
    requires p < end <= |mem|
    ensures FindByte(mem, p, end, c) == if mem[p] == c then At(p) else FindByte(mem, p + 1, end, c)
  {
  }

  lemma StepWord(mem: seq<bv8>, p: nat, end: nat, c: bv8)
    requires p + 4 <= end <= |mem| && !Borrows(Xor32(WordAt(mem, p), Repeated(c)))
    ensures FindByte(mem, p, end, c) == FindByte(mem, p + 4, end, c)
  {
    hide Word, HasZero, Borrows, Repeated, FindByte, Xor32;
    BorrowTest(Xor32(WordAt(mem, p), Repeated(c)));
    XorFinds(mem[p], mem[p + 1], mem[p + 2], mem[p + 3], c);
    StepByte(mem, p, end, c);
    StepByte(mem, p + 1, end, c);
    StepByte(mem, p + 2, end, c);
    StepByte(mem, p + 3, end, c);
  }
}

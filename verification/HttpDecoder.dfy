/**
 * Chunked bodies: what a complete one decodes to, what a sender may produce, and what the code makes of the input
 * when some of its CR LF reads come back short.
 */
module HttpDecoder {
  import opened Arithmetic
  import opened HttpLines

  // ----- the reference decoder -----

  /** Of a malformed body, the data up to the defect. */
  datatype Decoded = Malformed(data: seq<byte>) | Body(data: seq<byte>, rest: seq<byte>)

  /** The n bytes from start on are there, and CR LF after them. */
  predicate ChunkAt(s: seq<byte>, start: nat, n: nat) {
    |s| >= start + n + 2 && s[start + n] == CR && s[start + n + 1] == LF
  }

  function Prepend(data: seq<byte>, d: Decoded): Decoded {
    d.(data := data + d.data)
  }

  /** The complete body at the front of s, its size lines no longer than the buffer; rest follows the last size line. */
  function Decode(s: seq<byte>, prior: nat, bufLen: nat): Decoded
    decreases |s|
  {
    var i := LineEnd(s, bufLen);
    if i < 0 then Malformed([])
    else
      var n := Size(s[..i], prior);
      if n == 0 then Body([], s[i + 2..])
      else if !ChunkAt(s, i + 2, n) then Malformed(AtMost(s[i + 2..], n))
      else Prepend(s[i + 2..i + 2 + n], Decode(s[i + n + 4..], n, bufLen))
  }

  // ----- reads that come back short -----

  /**
   * How the two-byte read of CR LF behind a chunk ended. OneByte: it returned one byte, and the byte after it in
   * the buffer, left from an earlier read, is stale.
   */
  datatype End = Both | OneByte(stale: byte)

  /** The code takes this for the end of the chunk: it looks at two bytes of the buffer however many were read. */
  predicate EndAt(s: seq<byte>, start: nat, n: nat, end: End) {
    match end
    case Both => ChunkAt(s, start, n)
    case OneByte(stale) => |s| > start + n && s[start + n] == CR && stale == LF
  }

  function Taken(end: End): nat { if end.Both? then 2 else 1 }

  function EndOf(ends: seq<End>): End { if |ends| == 0 then Both else ends[0] }

  function Later(ends: seq<End>): seq<End> { if |ends| == 0 then [] else ends[1..] }

  /** What the code makes of s when the CR LF reads end like this. */
  function Follow(s: seq<byte>, prior: nat, bufLen: nat, ends: seq<End>): Decoded
    decreases |s|
  {
    var i := LineEnd(s, bufLen);
    if i < 0 then Malformed([])
    else
      var n := Size(s[..i], prior);
      if n == 0 then Body([], s[i + 2..])
      else if !EndAt(s, i + 2, n, EndOf(ends)) then Malformed(AtMost(s[i + 2..], n))
      else Prepend(s[i + 2..i + 2 + n], Follow(s[i + 2 + n + Taken(EndOf(ends))..], n, bufLen, Later(ends)))
  }

  lemma ChunkInside(s: seq<byte>, start: nat, n: nat)
    requires ChunkAt(s, start, n)
    ensures start + n + 2 <= |s|
  {
  }

  /** Without short reads the code does what the reference decoder does. */
  lemma {:induction false} FollowBoth(s: seq<byte>, prior: nat, bufLen: nat)
    ensures Follow(s, prior, bufLen, []) == Decode(s, prior, bufLen)
    decreases |s|
  {
    hide Size, LineEnd, AtMost, ChunkAt, Prepend;
    var i := LineEnd(s, bufLen);
    if i >= 0 {
      var n := Size(s[..i], prior);
      if n > 0 && ChunkAt(s, i + 2, n) {
        ChunkInside(s, i + 2, n);
        FollowBoth(s[i + n + 4..], n, bufLen);
        assert i + 2 + n + Taken(Both) == i + n + 4;
      }
    }
  }

  /**
   * Where the code reads CR LF into the buffer behind a size line, there is room for two bytes, whether the CR LF
   * reads before it returned one byte or two.
   */
  predicate LinesFit(s: seq<byte>, prior: nat, bufLen: nat)
    decreases |s|
  {
    var i := LineEnd(s, bufLen);
    i < 0 ||
    var n := Size(s[..i], prior);
    n == 0 || |s| <= i + 2 + n ||
    (&& i + 4 <= bufLen
     && (s[i + 2 + n] == CR ==> LinesFit(s[i + n + 3..], n, bufLen))
     && (ChunkAt(s, i + 2, n) ==> LinesFit(s[i + n + 4..], n, bufLen)))
  }

  lemma LineFits(u: seq<byte>, prior: nat, bufLen: nat)
    requires LinesFit(u, prior, bufLen)
    ensures var i := LineEnd(u, bufLen);
            i >= 0 && Size(u[..i], prior) > 0 ==>
              var n := Size(u[..i], prior);
              || |u| <= i + 2 + n
              || (i + 4 <= bufLen
                  && forall end :: EndAt(u, i + 2, n, end) ==> LinesFit(u[i + 2 + n + Taken(end)..], n, bufLen))
  {
    hide Size, LineEnd;
  }

  /** One turn of Follow, with the ends that are read. */
  lemma FollowTurn(u: seq<byte>, prior: nat, bufLen: nat, end: End, t: seq<End>)
    requires var i := LineEnd(u, bufLen); i >= 0 && Size(u[..i], prior) > 0
    ensures var i := LineEnd(u, bufLen);
            var n := Size(u[..i], prior);
            Follow(u, prior, bufLen, [end] + t) ==
            if EndAt(u, i + 2, n, end) then
              Prepend(u[i + 2..i + 2 + n], Follow(u[i + 2 + n + Taken(end)..], n, bufLen, t))
            else Malformed(AtMost(u[i + 2..], n))
  {
    hide Size, LineEnd, EndAt, Prepend;
    assert Later([end] + t) == t && EndOf([end] + t) == end;
  }

  // ----- what a sender may produce -----

  datatype Chunk = Chunk(line: seq<byte>, data: seq<byte>)

  /** A size line without CR that fits the buffer, with room for CR LF twice and a byte left over from a short read. */
  predicate PlainLine(line: seq<byte>, bufLen: nat) { 0 < |line| && |line| + 5 <= bufLen && CR !in line }

  /** A non-empty chunk whose size line announces its length, possibly with extensions, and has no leading zero. */
  predicate GoodChunk(c: Chunk, bufLen: nat) {
    PlainLine(c.line, bufLen) && c.line[0] != ZERO && |c.data| > 0 && ScanHex(c.line, 0) == |c.data|
  }

  predicate GoodChunks(chunks: seq<Chunk>, bufLen: nat) { forall c :: c in chunks ==> GoodChunk(c, bufLen) }

  /** The last chunk's size line: the digit 0, or several, and perhaps extensions. */
  predicate LastLine(line: seq<byte>, bufLen: nat) {
    PlainLine(line, bufLen) && line[0] == ZERO && ScanHex(line, 0) == 0
  }

  lemma ZeroLine(bufLen: nat)
    requires 6 <= bufLen
    ensures LastLine([ZERO], bufLen)
  {
    assert [ZERO][1..] == [];
    assert HexValue([ZERO], 0) == HexValue([], 0);
  }

  function Encode(chunks: seq<Chunk>, last: seq<byte>): seq<byte> {
    if |chunks| == 0 then last + [CR, LF]
    else chunks[0].line + [CR, LF] + chunks[0].data + [CR, LF] + Encode(chunks[1..], last)
  }

  function Data(chunks: seq<Chunk>): seq<byte> {
    if |chunks| == 0 then [] else chunks[0].data + Data(chunks[1..])
  }

  /** What a short read leaves in front of the next size line: the LF it did not take. */
  function Drift(drifted: bool): seq<byte> { if drifted then [LF] else [] }

  /** The scan skips the LF, and then no longer sees a leading zero as the end. */
  lemma DriftedSize(line: seq<byte>, prior: nat, drifted: bool)
    requires |line| > 0
    ensures Size(Drift(drifted) + line, prior) == if drifted then ScanHex(line, prior) else Size(line, prior)
  {
    hide HexValue;
    if drifted {
      assert ([LF] + line)[1..] == line;
      hide SkipSpace;
      assert SkipSpace([LF] + line) == SkipSpace(line) by { SkipOne(LF, line); }
    } else {
      assert [] + line == line;
    }
  }

  /** The size line at the front is read with or without the LF before it. */
  lemma SizeRead(line: seq<byte>, more: seq<byte>, prior: nat, bufLen: nat, drifted: bool)
    requires PlainLine(line, bufLen)
    requires (line[0] != ZERO && ScanHex(line, 0) > 0) || LastLine(line, bufLen)
    ensures var s := Drift(drifted) + (line + [CR, LF] + more);
            var k := |Drift(drifted)| + |line|;
            LineEnd(s, bufLen) == k && Size(s[..k], prior) == ScanHex(line, 0)
            && s[k + 2..] == more
  {
    hide ScanHex, LineEnd, Size;
    var front := Drift(drifted) + line;
    assert Drift(drifted) + (line + [CR, LF] + more) == front + [CR, LF] + more;
    LineFound(front, more, bufLen);
    DriftedSize(line, prior, drifted);
    SizeKnown(line, prior);
    assert (front + [CR, LF] + more)[..|front|] == front;
    SizeOfPlain(line, prior);
  }

  /** Every short CR LF read among the first k found a stale LF. */
  ghost predicate Survives(ends: seq<End>, k: nat)
    decreases k
  {
    k == 0 || ((EndOf(ends).OneByte? ==> EndOf(ends).stale == LF) && Survives(Later(ends), k - 1))
  }

  /**
   * On a well-formed body, however its CR LF reads end, the code succeeds exactly when every short one found a
   * stale LF, and then with the right data: the LF it did not take is skipped before the next size.
   */
  lemma {:induction false} FollowEncode(chunks: seq<Chunk>, last: seq<byte>, rest: seq<byte>, prior: nat, bufLen: nat,
                                        ends: seq<End>, drifted: bool)
    requires GoodChunks(chunks, bufLen) && LastLine(last, bufLen)
    ensures var d := Follow(Drift(drifted) + (Encode(chunks, last) + rest), prior, bufLen, ends);
            if Survives(ends, |chunks|) then d == Body(Data(chunks), rest) else d.Malformed?
    decreases |chunks|
  {
    hide ScanHex, LineEnd, Size, Follow;
    if |chunks| == 0 {
      assert Encode(chunks, last) + rest == last + [CR, LF] + rest;
      SizeRead(last, rest, prior, bufLen, drifted);
      FollowLast(Drift(drifted) + (last + [CR, LF] + rest), prior, bufLen, ends);
    } else {
      var c, tail, end := chunks[0], Encode(chunks[1..], last) + rest, EndOf(ends);
      assert GoodChunk(c, bufLen);
      var more := c.data + [CR, LF] + tail;
      assert Encode(chunks, last) + rest == c.line + [CR, LF] + more;
      SizeRead(c.line, more, prior, bufLen, drifted);
      var s := Drift(drifted) + (c.line + [CR, LF] + more);
      FollowFirst(s, prior, bufLen, ends, c, tail);
      FollowEncode(chunks[1..], last, rest, |c.data|, bufLen, Later(ends), end.OneByte?);
    }
  }

  lemma FollowLast(s: seq<byte>, prior: nat, bufLen: nat, ends: seq<End>)
    requires var i := LineEnd(s, bufLen); i >= 0 && Size(s[..i], prior) == 0
    ensures Follow(s, prior, bufLen, ends) == Body([], s[LineEnd(s, bufLen) + 2..])
  {
    hide Size, LineEnd;
  }

  lemma ChunkSlices(s: seq<byte>, start: nat, data: seq<byte>, tail: seq<byte>)
    requires start <= |s| && s[start..] == data + [CR, LF] + tail
    ensures var n := |data|;
            && start + n + 2 <= |s| && s[start..start + n] == data && s[start + n] == CR && s[start + n + 1] == LF
            && s[start + n + 1..] == Drift(true) + tail && s[start + n + 2..] == Drift(false) + tail
  {
    var more, n := s[start..], |data|;
    assert forall k :: 0 <= k <= |more| ==> s[start + k..] == more[k..];
    assert s[start + n] == more[n] && s[start + n + 1] == more[n + 1];
    assert s[start..start + n] == more[..n];
    assert more[n + 1..] == [LF] + tail && more[n + 2..] == [] + tail;
  }

  lemma FollowFirst(s: seq<byte>, prior: nat, bufLen: nat, ends: seq<End>, c: Chunk, tail: seq<byte>)
    requires var i := LineEnd(s, bufLen);
             i >= 0 && Size(s[..i], prior) == |c.data| > 0 && s[i + 2..] == c.data + [CR, LF] + tail
    ensures var end := EndOf(ends);
            var d := Follow(s, prior, bufLen, ends);
            if end.OneByte? && end.stale != LF then d.Malformed?
            else d == Prepend(c.data, Follow(Drift(end.OneByte?) + tail, |c.data|, bufLen, Later(ends)))
  {
    hide Size, LineEnd, Prepend;
    ChunkSlices(s, LineEnd(s, bufLen) + 2, c.data, tail);
  }

  /** The size lines of a well-formed body fit, whatever its CR LF reads return. */
  lemma {:induction false} EncodeFits(chunks: seq<Chunk>, last: seq<byte>, rest: seq<byte>, prior: nat, bufLen: nat,
                                      drifted: bool)
    requires GoodChunks(chunks, bufLen) && LastLine(last, bufLen)
    ensures LinesFit(Drift(drifted) + (Encode(chunks, last) + rest), prior, bufLen)
    decreases |chunks|
  {
    hide ScanHex, LineEnd, Size, LinesFit;
    if |chunks| == 0 {
      assert Encode(chunks, last) + rest == last + [CR, LF] + rest;
      SizeRead(last, rest, prior, bufLen, drifted);
      LastFits(Drift(drifted) + (last + [CR, LF] + rest), prior, bufLen);
    } else {
      var c, tail := chunks[0], Encode(chunks[1..], last) + rest;
      assert GoodChunk(c, bufLen);
      var more := c.data + [CR, LF] + tail;
      assert Encode(chunks, last) + rest == c.line + [CR, LF] + more;
      SizeRead(c.line, more, prior, bufLen, drifted);
      EncodeFits(chunks[1..], last, rest, |c.data|, bufLen, false);
      EncodeFits(chunks[1..], last, rest, |c.data|, bufLen, true);
      FirstFits(Drift(drifted) + (c.line + [CR, LF] + more), prior, bufLen, c, tail);
    }
  }

  lemma LastFits(s: seq<byte>, prior: nat, bufLen: nat)
    requires var i := LineEnd(s, bufLen); i >= 0 && Size(s[..i], prior) == 0
    ensures LinesFit(s, prior, bufLen)
  {
    hide Size, LineEnd;
  }

  lemma FirstFits(s: seq<byte>, prior: nat, bufLen: nat, c: Chunk, tail: seq<byte>)
    requires var i := LineEnd(s, bufLen);
             i >= 0 && i + 4 <= bufLen && Size(s[..i], prior) == |c.data| > 0 && s[i + 2..] == c.data + [CR, LF] + tail
    requires LinesFit(Drift(false) + tail, |c.data|, bufLen) && LinesFit(Drift(true) + tail, |c.data|, bufLen)
    ensures LinesFit(s, prior, bufLen)
  {
    hide Size, LineEnd;
    ChunkSlices(s, LineEnd(s, bufLen) + 2, c.data, tail);
    var i, n := LineEnd(s, bufLen), |c.data|;
    assert i + 2 + n + 1 == i + n + 3 && i + 2 + n + 2 == i + n + 4;
  }

  /** Every well-formed body is decoded to its data, whatever length was announced before. */
  lemma DecodeEncode(chunks: seq<Chunk>, last: seq<byte>, rest: seq<byte>, prior: nat, bufLen: nat)
    requires GoodChunks(chunks, bufLen) && LastLine(last, bufLen)
    ensures Decode(Encode(chunks, last) + rest, prior, bufLen) == Body(Data(chunks), rest)
    ensures LinesFit(Encode(chunks, last) + rest, prior, bufLen)
  {
    hide Decode, Follow, LinesFit, LastLine;
    var s := Encode(chunks, last) + rest;
    assert Drift(false) + s == s;
    FollowEncode(chunks, last, rest, prior, bufLen, [], false);
    AllBothSurvive(|chunks|);
    FollowBoth(s, prior, bufLen);
    EncodeFits(chunks, last, rest, prior, bufLen, false);
  }

  lemma {:induction false} AllBothSurvive(k: nat)
    ensures Survives([], k)
  {
    if k > 0 {
      AllBothSurvive(k - 1);
    }
  }
}

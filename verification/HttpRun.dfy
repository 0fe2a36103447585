/** A run of the chunk reader as a function of the buffer, the input and the way the network splits it. */
module HttpRun {
  import opened Arithmetic
  import opened Buffers
  import opened HttpLines
  import opened HttpDecoder

  // ----- reads -----

  function Min(a: nat, b: nat): nat { if a <= b then a else b }

  /**
   * How much a read returns when the network hands the bytes over in these pieces, and as many as fit when none are
   * left.
   */
  function ReadSize(pieces: seq<nat>, max: nat, available: nat): (n: nat)
    ensures n <= max && n <= available && (n == 0 <==> max == 0 || available == 0)
  {
    var most := Min(max, available);
    if |pieces| == 0 || pieces[0] == 0 then most else Min(most, pieces[0])
  }

  function MorePieces(pieces: seq<nat>): seq<nat> { if |pieces| == 0 then [] else pieces[1..] }

  /** The network never hands over a single byte. */
  ghost predicate NoOnes(pieces: seq<nat>) {
    forall k :: 0 <= k < |pieces| ==> pieces[k] != 1
  }

  lemma FewerPieces(pieces: seq<nat>)
    ensures NoOnes(pieces) ==> NoOnes(MorePieces(pieces))
  {
  }

  /** The chunk buffer, how much of it is filled, what the peer will still send, and how the network will split it. */
  datatype Reader = Reader(cells: seq<byte>, held: nat, incoming: seq<byte>, pieces: seq<nat>)
  {
    ghost predicate Valid() { held <= |cells| }

    /** The bytes not yet taken: those in the buffer, then those still to come. */
    function Unread(): seq<byte>
      requires held <= |cells|
    {
      cells[..held] + incoming
    }
  }

  /** One read of at most max bytes to position at. */
  function ReadTo(r: Reader, at: nat, max: nat): (t: Reader)
    requires at + Min(max, |r.incoming|) <= |r.cells|
    ensures |t.cells| == |r.cells| && |t.incoming| <= |r.incoming| && t.held == r.held
  {
    var n := ReadSize(r.pieces, max, |r.incoming|);
    Reader(Placed(r.cells, at, r.incoming[..n]), r.held, r.incoming[n..], MorePieces(r.pieces))
  }

  /** The same behind the bytes already held. */
  function ReadOn(r: Reader): (t: Reader)
    requires r.Valid()
    ensures t.Valid() && |t.cells| == |r.cells| && t.Unread() == r.Unread()
    ensures r.held < |r.cells| && |r.incoming| > 0 ==> |t.incoming| < |r.incoming|
  {
    var room := |r.cells| - r.held;
    var n := ReadSize(r.pieces, room, |r.incoming|);
    var t := ReadTo(r, r.held, room).(held := r.held + n);
    assert t.cells[..t.held] == r.cells[..r.held] + r.incoming[..n];
    assert r.incoming == r.incoming[..n] + r.incoming[n..];
    t
  }

  // ----- one chunk -----

  /** A size line is complete in the buffer. */
  predicate HasLine(r: Reader)
    requires r.Valid()
  {
    FirstCrlf(r.cells[..r.held]) < r.held
  }

  /** After reading until a size line is complete, the buffer is full, or nothing comes any more. */
  function Filled(r: Reader): (f: Reader)
    requires r.Valid()
    ensures f.Valid() && |f.cells| == |r.cells| && f.Unread() == r.Unread()
    ensures HasLine(f) || f.held == |f.cells| || f.incoming == []
    decreases |r.incoming|
  {
    if HasLine(r) || r.held == |r.cells| || r.incoming == [] then r else Filled(ReadOn(r))
  }

  /** Whenever the input starts with a size line that fits the buffer, reading ends with that line in the buffer. */
  lemma LineFilled(r: Reader)
    requires r.Valid() && LineEnd(r.Unread(), |r.cells|) >= 0
    ensures LineEnd(r.Unread(), |r.cells|) + 2 <= Filled(r).held
  {
    hide LineEnd, FirstCrlf, Filled;
    var f, u := Filled(r), r.Unread();
    assert f.cells[..f.held] == u[..f.held];
    if HasLine(f) {
      LineThere(u, f.held, |r.cells|);
    } else {
      LineNotThere(u, f.held, |r.cells|);
    }
  }

  /** After reading left bytes of chunk data to position at, or as many as come. */
  function Loaded(r: Reader, at: nat, left: nat): (t: Reader)
    requires at <= |r.cells|
    ensures |t.cells| == |r.cells| && t.held == r.held && |t.incoming| <= |r.incoming|
    decreases left
  {
    var max := Min(left, |r.cells| - at);
    var n := ReadSize(r.pieces, max, |r.incoming|);
    if n == 0 then r else Loaded(ReadTo(r, at, max), at, left - n)
  }

  /** After moving the bytes from position behind on to the front; the buffer's last bytes stay behind them. */
  function Dropped(r: Reader, behind: nat): (t: Reader)
    requires r.Valid() && behind <= r.held
    ensures t.Valid() && |t.cells| == |r.cells| && t.held == r.held - behind && t.incoming == r.incoming
      && t.pieces == r.pieces
    ensures t.Unread() == r.Unread()[behind..]
  {
    var t := Reader(r.cells[behind..] + r.cells[|r.cells| - behind..], r.held - behind, r.incoming, r.pieces);
    assert t.cells[..t.held] == r.cells[behind..r.held] == r.cells[..r.held][behind..];
    t
  }

  /** How a CR LF read ends. */
  function CrlfEnd(stale: byte, incoming: seq<byte>, pieces: seq<nat>): End {
    if ReadSize(pieces, 2, |incoming|) == 1 then OneByte(stale) else Both
  }

  /** How the end of a chunk of n bytes at position at is read: as two bytes, unless it comes in a read of its own. */
  function ChunkEnd(r: Reader, at: nat, n: nat): End
    requires at <= r.held && r.Valid()
  {
    if r.held > at + n then Both
    else
      var t := Loaded(r.(held := 0), at, at + n - r.held);
      if at + 1 < |t.cells| then CrlfEnd(t.cells[at + 1], t.incoming, t.pieces) else Both
  }

  /** Where the loop stands after it has taken that chunk. */
  function AfterChunk(r: Reader, at: nat, n: nat): (t: Reader)
    requires 0 < at <= r.held && r.Valid()
    ensures t.Valid() && |t.cells| == |r.cells| && t.held + |t.incoming| < r.held + |r.incoming|
  {
    if r.held >= at + n + 2 then Dropped(r, at + n + 2)
    else if r.held == at + n + 1 then ReadTo(r.(held := 0), at, 1)
    else
      var t := Loaded(r.(held := 0), at, at + n - r.held);
      if at + 2 <= |t.cells| then ReadTo(t, at, 2) else t
  }

  // ----- all chunks -----

  /** The size line at the front of the input, and the size it announces. */
  function FrontLine(r: Reader): int requires r.Valid() { LineEnd(r.Unread(), |r.cells|) }

  function FrontSize(r: Reader, prior: nat): nat
    requires r.Valid() && FrontLine(r) >= 0
  {
    Size(r.Unread()[..FrontLine(r)], prior)
  }

  /** How the end of the next chunk is read, and where the loop stands after it. */
  ghost function NextEnd(r: Reader, prior: nat): End
    requires r.Valid() && FrontLine(r) >= 0
  {
    LineFilled(r);
    ChunkEnd(Filled(r), FrontLine(r) + 2, FrontSize(r, prior))
  }

  ghost function Next(r: Reader, prior: nat): (t: Reader)
    requires r.Valid() && FrontLine(r) >= 0
    ensures t.Valid() && |t.cells| == |r.cells| && |t.Unread()| < |r.Unread()|
  {
    LineFilled(r);
    assert |Filled(r).Unread()| == |r.Unread()|;
    AfterChunk(Filled(r), FrontLine(r) + 2, FrontSize(r, prior))
  }

  /** How the ends of all chunks are read that the loop meets from here on. */
  ghost function EndsFrom(r: Reader, prior: nat): seq<End>
    requires r.Valid()
    decreases |r.Unread()|
  {
    if FrontLine(r) < 0 || FrontSize(r, prior) == 0 then []
    else if !EndAt(r.Unread(), FrontLine(r) + 2, FrontSize(r, prior), NextEnd(r, prior)) then [NextEnd(r, prior)]
    else [NextEnd(r, prior)] + EndsFrom(Next(r, prior), FrontSize(r, prior))
  }

  /** What the code makes of the input. */
  ghost function Outcome(r: Reader, prior: nat): Decoded
    requires r.Valid()
  {
    Follow(r.Unread(), prior, |r.cells|, EndsFrom(r, prior))
  }

  // ----- what one chunk takes from the input -----

  lemma LoadedStep(r: Reader, at: nat, left: nat)
    requires at <= |r.cells|
    ensures var max := Min(left, |r.cells| - at);
            var n := ReadSize(r.pieces, max, |r.incoming|);
            && ReadTo(r, at, max).incoming == r.incoming[n..] && ReadTo(r, at, max).pieces == MorePieces(r.pieces)
            && Loaded(r, at, left) == if n == 0 then r else Loaded(ReadTo(r, at, max), at, left - n)
  {
    hide Placed, ReadSize, MorePieces;
  }

  lemma {:induction false} LoadedTakes(r: Reader, at: nat, left: nat)
    requires at < |r.cells|
    ensures var t := Loaded(r, at, left);
            t.incoming == if left <= |r.incoming| then r.incoming[left..] else []
    ensures NoOnes(r.pieces) ==> NoOnes(Loaded(r, at, left).pieces)
    decreases left
  {
    hide Loaded, ReadTo, ReadSize, MorePieces, NoOnes;
    var max := Min(left, |r.cells| - at);
    var n := ReadSize(r.pieces, max, |r.incoming|);
    LoadedStep(r, at, left);
    if n > 0 {
      FewerPieces(r.pieces);
      LoadedTakes(ReadTo(r, at, max), at, left - n);
      if left <= |r.incoming| {
        assert r.incoming[n..][left - n..] == r.incoming[left..];
      }
    }
  }

  /** A chunk whose end passes is gone from the input, with the bytes its end took. */
  lemma ChunkGone(r: Reader, at: nat, n: nat)
    requires 0 < at <= r.held && r.Valid() && EndAt(r.Unread(), at, n, ChunkEnd(r, at, n)) && at + 2 <= |r.cells|
    ensures AfterChunk(r, at, n).Unread() == r.Unread()[at + n + Taken(ChunkEnd(r, at, n))..]
  {
    hide Loaded;
    var u, t := r.Unread(), AfterChunk(r, at, n);
    var behind := at + n + 2;
    if r.held >= behind {
    } else if r.held == at + n + 1 {
      assert u[behind..] == r.incoming[1..];
    } else {
      LoadedTakes(r.(held := 0), at, at + n - r.held);
      assert u[at + n..] == r.incoming[at + n - r.held..];
      var k := Taken(ChunkEnd(r, at, n));
      assert u[at + n..][k..] == u[at + n + k..];
    }
  }

  /** If the network never splits off a single byte, only the end of the stream makes a CR LF read short. */
  lemma ShortAtEnd(r: Reader, at: nat, n: nat)
    requires at <= r.held && r.Valid() && NoOnes(r.pieces) && at + 2 <= |r.cells|
    ensures ChunkEnd(r, at, n).OneByte? ==> |r.Unread()| == at + n + 1
  {
    hide Loaded;
    if r.held <= at + n {
      LoadedTakes(r.(held := 0), at, at + n - r.held);
    }
  }

  lemma {:induction false} FilledPieces(r: Reader)
    requires r.Valid()
    ensures NoOnes(r.pieces) ==> NoOnes(Filled(r).pieces)
    decreases |r.incoming|
  {
    hide FirstCrlf;
    if !(HasLine(r) || r.held == |r.cells| || r.incoming == []) {
      FilledPieces(ReadOn(r));
    }
  }

  lemma NextPieces(r: Reader, at: nat, n: nat)
    requires 0 < at <= r.held && r.Valid() && at < |r.cells|
    ensures NoOnes(r.pieces) ==> NoOnes(AfterChunk(r, at, n).pieces)
  {
    hide Loaded;
    if r.held <= at + n {
      LoadedTakes(r.(held := 0), at, at + n - r.held);
    }
  }

  /** Everything about the next chunk in terms of the input. */
  lemma NextChunk(r: Reader, prior: nat)
    requires r.Valid() && LinesFit(r.Unread(), prior, |r.cells|) && FrontLine(r) >= 0 && FrontSize(r, prior) > 0
    ensures var u, at, n, end := r.Unread(), FrontLine(r) + 2, FrontSize(r, prior), NextEnd(r, prior);
            EndAt(u, at, n, end) ==>
              && at + n + Taken(end) <= |u| && Next(r, prior).Unread() == u[at + n + Taken(end)..]
              && LinesFit(Next(r, prior).Unread(), n, |r.cells|)
    ensures NoOnes(r.pieces) && |r.Unread()| > FrontLine(r) + 2 + FrontSize(r, prior) ==>
      && NoOnes(Next(r, prior).pieces)
      && (NextEnd(r, prior).OneByte? ==> |r.Unread()| == FrontLine(r) + 2 + FrontSize(r, prior) + 1)
  {
    hide Size, LineEnd, Filled, ChunkEnd, AfterChunk, LinesFit, NoOnes, HasLine;
    var f, at, n := Filled(r), FrontLine(r) + 2, FrontSize(r, prior);
    LineFilled(r);
    LineFits(r.Unread(), prior, |r.cells|);
    if |r.Unread()| > at + n {
      if EndAt(r.Unread(), at, n, NextEnd(r, prior)) {
        ChunkGone(f, at, n);
      }
      FilledPieces(r);
      NextPieces(f, at, n);
      if NoOnes(f.pieces) {
        ShortAtEnd(f, at, n);
      }
    }
  }

  // ----- what the code makes of the input, chunk by chunk -----

  /** One turn of the loop. */
  lemma OutcomeTurn(r: Reader, prior: nat)
    requires r.Valid() && LinesFit(r.Unread(), prior, |r.cells|)
    ensures var u, i := r.Unread(), FrontLine(r);
            Outcome(r, prior) ==
            if i < 0 then Malformed([])
            else if FrontSize(r, prior) == 0 then Body([], u[i + 2..])
            else
              var n := FrontSize(r, prior);
              if EndAt(u, i + 2, n, NextEnd(r, prior)) then Prepend(u[i + 2..i + 2 + n], Outcome(Next(r, prior), n))
              else Malformed(AtMost(u[i + 2..], n))
  {
    hide Size, LineEnd, NextEnd, Next, Prepend, EndAt;
    var u, i, ends := r.Unread(), FrontLine(r), EndsFrom(r, prior);
    if i >= 0 && FrontSize(r, prior) > 0 {
      NextChunk(r, prior);
      assert ends == [NextEnd(r, prior)] + ends[1..];
      FollowTurn(u, prior, |r.cells|, NextEnd(r, prior), ends[1..]);
      hide Follow;
    }
  }

  /** The input is accepted exactly when the next chunk's end passes and what the end leaves is accepted. */
  lemma AcceptedExactly(r: Reader, prior: nat)
    requires r.Valid() && LinesFit(r.Unread(), prior, |r.cells|)
    ensures Outcome(r, prior).Body? <==>
            && FrontLine(r) >= 0
            && (|| FrontSize(r, prior) == 0
                || (&& EndAt(r.Unread(), FrontLine(r) + 2, FrontSize(r, prior), NextEnd(r, prior))
                    && Outcome(Next(r, prior), FrontSize(r, prior)).Body?))
  {
    hide Size, LineEnd, NextEnd, Next, EndAt, Outcome;
    OutcomeTurn(r, prior);
  }

  /**
   * A chunk that ends in CR and no LF is taken exactly when the CR LF read returns the CR alone and the byte behind
   * it in the buffer is a stale LF; then the rest must be accepted from the byte after the CR on.
   */
  lemma MissingLfTaken(r: Reader, prior: nat)
    requires r.Valid() && LinesFit(r.Unread(), prior, |r.cells|) && FrontLine(r) >= 0 && FrontSize(r, prior) > 0
    requires var u, stop := r.Unread(), FrontLine(r) + 2 + FrontSize(r, prior);
             |u| > stop && u[stop] == CR && !ChunkAt(u, FrontLine(r) + 2, FrontSize(r, prior))
    ensures Outcome(r, prior).Body? <==>
            NextEnd(r, prior) == OneByte(LF) && Outcome(Next(r, prior), FrontSize(r, prior)).Body?
    ensures NextEnd(r, prior) == OneByte(LF) ==>
            Next(r, prior).Unread() == r.Unread()[FrontLine(r) + 2 + FrontSize(r, prior) + 1..]
  {
    hide Size, LineEnd, NextEnd, Next, Outcome;
    AcceptedExactly(r, prior);
    NextChunk(r, prior);
  }

  /** A complete chunk is not taken exactly when the CR LF read returns the CR alone and the stale byte is not LF. */
  lemma CompleteChunkTaken(r: Reader, prior: nat)
    requires r.Valid() && LinesFit(r.Unread(), prior, |r.cells|) && FrontLine(r) >= 0 && FrontSize(r, prior) > 0
    requires ChunkAt(r.Unread(), FrontLine(r) + 2, FrontSize(r, prior))
    ensures Outcome(r, prior).Body? <==>
            && (NextEnd(r, prior) == Both || NextEnd(r, prior) == OneByte(LF))
            && Outcome(Next(r, prior), FrontSize(r, prior)).Body?
    ensures NextEnd(r, prior) == Both || NextEnd(r, prior) == OneByte(LF) ==>
            Next(r, prior).Unread() == r.Unread()[FrontLine(r) + 2 + FrontSize(r, prior) + Taken(NextEnd(r, prior))..]
  {
    hide Size, LineEnd, NextEnd, Next, Outcome;
    AcceptedExactly(r, prior);
    NextChunk(r, prior);
  }

  lemma DecodeTurn(s: seq<byte>, prior: nat, bufLen: nat)
    ensures var i := LineEnd(s, bufLen);
            Decode(s, prior, bufLen) ==
            if i < 0 then Malformed([])
            else
              var n := Size(s[..i], prior);
              if n == 0 then Body([], s[i + 2..])
              else if !ChunkAt(s, i + 2, n) then Malformed(AtMost(s[i + 2..], n))
              else Prepend(s[i + 2..i + 2 + n], Decode(s[i + n + 4..], n, bufLen))
  {
    hide LineEnd, Size, AtMost, Prepend;
  }

  /** Unless the network splits off single bytes, the code does what the reference decoder does. */
  lemma {:induction false} OutcomeDecodes(r: Reader, prior: nat)
    requires r.Valid() && LinesFit(r.Unread(), prior, |r.cells|) && NoOnes(r.pieces)
    ensures Outcome(r, prior) == Decode(r.Unread(), prior, |r.cells|)
    decreases |r.Unread()|
  {
    hide Size, LineEnd, NextEnd, Next, Outcome, NoOnes, Prepend, AtMost, LinesFit, Decode;
    OutcomeTurn(r, prior);
    DecodeTurn(r.Unread(), prior, |r.cells|);
    if FrontLine(r) >= 0 && FrontSize(r, prior) > 0 {
      NextChunk(r, prior);
      var u, at, n := r.Unread(), FrontLine(r) + 2, FrontSize(r, prior);
      if EndAt(u, at, n, NextEnd(r, prior)) {
        OutcomeDecodes(Next(r, prior), n);
        DecodeTurn(Next(r, prior).Unread(), n, |r.cells|);
        if NextEnd(r, prior).OneByte? {
          NothingLeft(u, at, n, |r.cells|);
        }
      }
    }
  }

  lemma NothingLeft(u: seq<byte>, at: nat, n: nat, bufLen: nat)
    requires |u| == at + n + 1
    ensures u[at + n + 1..] == [] && LineEnd([], bufLen) == -1
    ensures Prepend(u[at..at + n], Malformed([])) == Malformed(AtMost(u[at..], n))
  {
  }

  /** With a size line and its data, and nothing else, in the buffer, the CR LF read is the next one. */
  lemma HeldChunkEnd(r: Reader, prior: nat)
    requires r.Valid() && FrontLine(r) >= 0 && FrontSize(r, prior) > 0
    requires r.held == FrontLine(r) + 2 + FrontSize(r, prior) && FrontLine(r) + 3 < |r.cells|
    ensures NextEnd(r, prior) == CrlfEnd(r.cells[FrontLine(r) + 3], r.incoming, r.pieces)
  {
    hide LineEnd, Size, FirstCrlf;
    LineInFront(r.Unread(), r.held, |r.cells|);
    assert r.cells[..r.held] == r.Unread()[..r.held];
  }

  lemma FirstEnd(r: Reader, prior: nat)
    requires r.Valid() && FrontLine(r) >= 0 && FrontSize(r, prior) > 0
    ensures EndOf(EndsFrom(r, prior)) == NextEnd(r, prior)
  {
    hide Size, LineEnd, NextEnd, Next, EndAt;
  }
}

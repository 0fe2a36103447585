/**
 * The chunk loop of the HTTP reader: it delivers a body through callbacks while the socket hands over the bytes in
 * pieces of any size.
 */
module HttpChunked {
  import opened Arithmetic
  import opened Buffers
  import opened HttpLines
  import opened HttpDecoder
  import opened HttpRun

  const READ_LENGTH: nat := 1500

  // ----- what the callback sees -----

  datatype Call = Call(pos: nat, data: seq<byte>)

  function Joined(calls: seq<Call>): seq<byte> {
    if |calls| == 0 then [] else Joined(calls[..|calls| - 1]) + calls[|calls| - 1].data
  }

  /** Each position is the number of bytes delivered before, in 32 bits. */
  predicate Contiguous(calls: seq<Call>) {
    forall k :: 0 <= k < |calls| ==> calls[k].pos == |Joined(calls[..k])| % WORD32
  }

  lemma CallAppended(calls: seq<Call>, c: Call)
    ensures Joined(calls + [c]) == Joined(calls) + c.data
    ensures Contiguous(calls) && c.pos == |Joined(calls)| % WORD32 ==> Contiguous(calls + [c])
  {
    var all := calls + [c];
    assert all[..|calls|] == calls;
    forall k | 0 <= k < |all| && Contiguous(calls) && c.pos == |Joined(calls)| % WORD32
      ensures all[k].pos == |Joined(all[..k])| % WORD32
    {
      assert all[..k] == calls[..k];
      assert calls[..|calls|] == calls;
    }
  }

  lemma AddWrapped(a: nat, b: nat)
    ensures (a % WORD32 + b) % WORD32 == (a + b) % WORD32
  {
    ModAddMultiple(a % WORD32 + b, a / WORD32, WORD32);
  }

  // ----- what the loop and its branches do -----

  datatype Status = NoErr | MalformedErr | ConnectionErr

  /** What a branch of the loop does with the chunk of n bytes at start of u, given how its end was read. */
  ghost predicate Took(u: seq<byte>, start: nat, n: nat, err: Status, end: End, before: seq<byte>, after: seq<byte>,
                       left: seq<byte>) {
    && start <= |u|
    && (err == NoErr <==> EndAt(u, start, n, end))
    && (err == NoErr ==> left == u[start + n + Taken(end)..] && after == before + u[start..start + n])
    && before <= after <= before + AtMost(u[start..], n)
  }

  lemma TookAll(u: seq<byte>, start: nat, n: nat, end: End, before: seq<byte>)
    requires start <= |u| && EndAt(u, start, n, end)
    ensures start + n + Taken(end) <= |u|
    ensures Took(u, start, n, NoErr, end, before, before + u[start..start + n], u[start + n + Taken(end)..])
  {
  }

  lemma TookPart(u: seq<byte>, start: nat, n: nat, err: Status, end: End, before: seq<byte>, after: seq<byte>,
                 left: seq<byte>)
    requires start <= |u| && !EndAt(u, start, n, end) && err != NoErr
      && before <= after <= before + AtMost(u[start..], n)
    ensures Took(u, start, n, err, end, before, after, left)
  {
  }

  /** All of the data is there, but not what should follow it. */
  lemma TookNothing(u: seq<byte>, start: nat, n: nat, err: Status, end: End, before: seq<byte>, after: seq<byte>,
                    left: seq<byte>)
    requires start + n <= |u| && !EndAt(u, start, n, end) && err != NoErr
    requires after == before || after == before + u[start..start + n]
    ensures Took(u, start, n, err, end, before, after, left)
  {
    assert AtMost(u[start..], n) == u[start..start + n];
  }

  /** What one turn of the loop does: read a size line, then take the chunk it announces. */
  ghost predicate Turned(r: Reader, prior: nat, err: Status, headerLen: nat, size: nat, before: seq<byte>,
                         after: seq<byte>,
                         left: seq<byte>)
    requires r.Valid()
  {
    if FrontLine(r) < 0 then err != NoErr && after == before
    else
      && headerLen == FrontLine(r) + 2 && size == FrontSize(r, prior)
      && if size == 0 then err == NoErr && left == r.Unread() && after == before
         else Took(r.Unread(), headerLen, size, err, NextEnd(r, prior), before, after, left)
  }

  /** The whole input becomes what has been delivered since the start, and then what the code makes of the rest. */
  ghost predicate InLoop(whole: Decoded, before: seq<byte>, sofar: seq<byte>, rest: Decoded) {
    before <= sofar && whole == Prepend(sofar[|before|..], rest)
  }

  lemma LoopStarts(d: Decoded, before: seq<byte>)
    ensures InLoop(d, before, before, d)
  {
    assert before[|before|..] + d.data == d.data;
  }

  /** One turn keeps it, or ends the loop with what the code makes of the whole input. */
  lemma LoopTurns(whole: Decoded, before: seq<byte>, sofar: seq<byte>, after: seq<byte>, r: Reader, prior: nat,
                  left: seq<byte>, err: Status, headerLen: nat, size: nat)
    requires r.Valid() && LinesFit(r.Unread(), prior, |r.cells|) && InLoop(whole, before, sofar, Outcome(r, prior))
    requires Turned(r, prior, err, headerLen, size, sofar, after, left)
    ensures if err == NoErr && size > 0 then
              && FrontLine(r) >= 0 && InLoop(whole, before, after, Outcome(Next(r, prior), size))
              && left == Next(r, prior).Unread() && LinesFit(left, size, |r.cells|)
            else
              && (err == NoErr <==> whole.Body?) && before <= after <= before + whole.data
              && (err == NoErr ==>
                   headerLen <= |left| && whole == Body(whole.data, left[headerLen..]) && after == before + whole.data)
  {
    hide Size, LineEnd, LinesFit, Outcome, Next, NextEnd, AtMost, EndAt, NoOnes, InLoop, Prepend;
    OutcomeTurn(r, prior);
    var u := r.Unread();
    if FrontLine(r) >= 0 && FrontSize(r, prior) > 0 {
      NextChunk(r, prior);
      var at, n := FrontLine(r) + 2, FrontSize(r, prior);
      if err == NoErr {
        DoneMore(whole, before, sofar, u[at..at + n], Outcome(Next(r, prior), n));
      } else {
        DoneFails(whole, before, sofar, AtMost(u[at..], n), after);
      }
    } else if FrontLine(r) >= 0 {
      DoneEnds(whole, before, sofar, u[headerLen..]);
    } else {
      DoneFails(whole, before, sofar, [], after);
    }
  }

  lemma DoneMore(whole: Decoded, before: seq<byte>, sofar: seq<byte>, data: seq<byte>, rest: Decoded)
    requires InLoop(whole, before, sofar, Prepend(data, rest))
    ensures InLoop(whole, before, sofar + data, rest)
  {
    var done := sofar[|before|..];
    assert (sofar + data)[|before|..] == done + data;
    assert done + (data + rest.data) == done + data + rest.data;
  }

  lemma DoneFails(whole: Decoded, before: seq<byte>, sofar: seq<byte>, data: seq<byte>, after: seq<byte>)
    requires InLoop(whole, before, sofar, Malformed(data)) && sofar <= after <= sofar + data
    ensures whole.Malformed? && before <= after <= before + whole.data
  {
    assert sofar == before + sofar[|before|..];
    assert before + (sofar[|before|..] + data) == sofar + data;
  }

  lemma DoneEnds(whole: Decoded, before: seq<byte>, sofar: seq<byte>, rest: seq<byte>)
    requires InLoop(whole, before, sofar, Body([], rest))
    ensures whole == Body(whole.data, rest) && sofar == before + whole.data
  {
    assert sofar[|before|..] + [] == sofar[|before|..];
  }

  // ----- the code -----

  /** A connected socket. incoming is what the peer will still send, pieces how the network will split it. */
  class Socket {
    var incoming: seq<byte>
    var pieces: seq<nat>

    constructor (incoming: seq<byte>, pieces: seq<nat>)
      ensures this.incoming == incoming && this.pieces == pieces
    {
      this.incoming, this.pieces := incoming, pieces;
    }

    /** read: some bytes, at most max, or nothing when the peer has closed. */
    method Read(buffer: array<byte>, off: nat, max: nat) returns (n: nat)
      requires off + Min(max, |incoming|) <= buffer.Length
      modifies this, buffer
      ensures n == ReadSize(old(pieces), max, |old(incoming)|) && pieces == MorePieces(old(pieces))
      ensures incoming == old(incoming)[n..]
      ensures buffer[..] == old(buffer[..off]) + old(incoming)[..n] + old(buffer[off + n..])
    {
      n := ReadSize(pieces, max, |incoming|);
      ghost var before := buffer[..];
      for i := 0 to n
        invariant incoming == old(incoming) && pieces == old(pieces)
        invariant buffer[..] == before[..off] + incoming[..i] + before[off + i..]
      {
        buffer[off + i] := incoming[i];
      }
      incoming, pieces := incoming[n..], MorePieces(pieces);
    }
  }

  /** The fields of an HTTPHeader_t that the chunk loop uses, and the callbacks it has made. */
  class HttpBody {
    const socket: Socket
    const buffer: array<byte>
    var extraDataLen: nat
    var contentLength: nat
    var pos: nat
    var calls: seq<Call>

    /** The end of SocketReadHTTPHeader: the bytes that came with the header start the chunk buffer. */
    constructor (socket: Socket, extra: seq<byte>, contentLength: nat)
      requires contentLength < WORD32
      ensures Valid() && this.socket == socket && fresh(buffer) && this.contentLength == contentLength && calls == []
      ensures buffer.Length == (if |extra| > READ_LENGTH then |extra| else READ_LENGTH)
      ensures extraDataLen == |extra| <= buffer.Length && State().Unread() == extra + socket.incoming
      ensures State().pieces == socket.pieces && State().incoming == socket.incoming
    {
      this.socket, this.contentLength := socket, contentLength;
      extraDataLen, pos, calls := |extra|, 0, [];
      var bufLen := if |extra| > READ_LENGTH then |extra| else READ_LENGTH;
      buffer := new byte[bufLen](i => if 0 <= i < |extra| then extra[i] else 0);
      new;
      assert buffer[..][..extraDataLen] == extra;
    }

    ghost predicate Valid()
      reads this
    {
      && contentLength < WORD32
      && pos == |Joined(calls)| % WORD32 && Contiguous(calls)
    }

    /** The buffer and the socket. */
    ghost function Source(): (r: Reader)
      reads buffer, socket
      ensures r.held == 0 && |r.cells| == buffer.Length
    {
      Reader(buffer[..], 0, socket.incoming, socket.pieces)
    }

    /** With what the buffer holds. */
    ghost function State(): Reader
      reads this`extraDataLen, buffer, socket
    {
      Source().(held := extraDataLen)
    }

    // ----- where the buffer and the socket are touched -----

    lemma CellIs(i: nat)
      requires i < buffer.Length
      ensures buffer[i] == Source().cells[i]
    {
    }

    /** onReceivedDataCallback on buffer[from..from + len], and the advance of pos. */
    method Deliver(from: nat, len: nat)
      requires Valid() && from + len <= buffer.Length
      modifies this`calls, this`pos
      ensures Valid() && Joined(calls) == old(Joined(calls)) + Source().cells[from..from + len]
    {
      ghost var before := |Joined(calls)|;
      assert buffer[..][from..from + len] == buffer[from..from + len];
      CallAppended(calls, Call(pos, buffer[from..from + len]));
      calls := calls + [Call(pos, buffer[from..from + len])];
      AddWrapped(before, len);
      pos := (pos + len) % WORD32;
    }

    /** read into the buffer */
    method Read(at: nat, max: nat) returns (n: nat)
      requires at + Min(max, |Source().incoming|) <= buffer.Length
      modifies buffer, socket
      ensures Source() == ReadTo(old(Source()), at, max)
      ensures n == old(ReadSize(Source().pieces, max, |Source().incoming|))
    {
      n := socket.Read(buffer, at, max);
      assert buffer[..] == Placed(old(buffer[..]), at, old(socket.incoming)[..n]);
    }

    /** memmove to the front of the buffer */
    method MoveDown(from: nat)
      requires from <= buffer.Length
      modifies buffer
      ensures Source()
        == old(Source()).(cells := old(Source()).cells[from..] + old(Source()).cells[buffer.Length - from..])
    {
      ghost var all := buffer[..];
      for i := 0 to buffer.Length - from
        invariant buffer[..i] == all[from..from + i] && buffer[i..] == all[i..]
      {
        buffer[i] := buffer[from + i];
      }
      assert buffer[..] == all[from..] + all[buffer.Length - from..];
    }

    /** findCRLF on what the buffer holds */
    method FindLine() returns (found: bool, next: nat)
      requires extraDataLen <= buffer.Length
      ensures found <==> HasLine(State())
      ensures found ==> next == FirstCrlf(State().cells[..extraDataLen]) + 2 <= extraDataLen
    {
      hide FirstCrlf;
      assert buffer[..extraDataLen] == buffer[..][..extraDataLen];
      found, next := FindCrlf(buffer, extraDataLen);
    }

    /** Scan the complete size line in the buffer. */
    method ScanLength(lineLen: nat)
      requires Valid() && lineLen < buffer.Length && (lineLen == 0 ==> Source().cells[0] == CR)
      modifies this`contentLength
      ensures Valid() && contentLength == Size(Source().cells[..lineLen], old(contentLength))
    {
      hide ScanHex, Joined, Contiguous;
      assert buffer[..lineLen] == buffer[..][..lineLen];
      ScanBounded(buffer[..lineLen], contentLength);
      if buffer[0] == ZERO {
        contentLength := 0;
      } else {
        contentLength := ParseHex(buffer[..lineLen], contentLength);
      }
    }

    // ----- the size line -----

    /** One read behind the bytes in the buffer. */
    method ReadMore() returns (more: bool)
      requires Valid() && extraDataLen < buffer.Length
      modifies this`extraDataLen, buffer, socket
      ensures Valid() && extraDataLen <= buffer.Length && State() == ReadOn(old(State()))
      ensures more <==> old(State()).incoming != []
    {
      hide Joined, Contiguous, Source, Placed;
      ReadOnIs(State());
      var n := Read(extraDataLen, buffer.Length - extraDataLen);
      extraDataLen := extraDataLen + n;
      return n > 0;
    }

    static lemma ReadOnIs(r: Reader)
      requires r.Valid()
      ensures var room := |r.cells| - r.held;
              ReadOn(r) == ReadTo(r.(held := 0), r.held, room).(held := r.held + ReadSize(r.pieces, room, |r.incoming|))
    {
    }

    /** Read until the buffer holds a whole size line, and scan it. */
    method FindLength() returns (err: Status, headerLen: nat)
      requires Valid() && extraDataLen <= buffer.Length
      modifies this`extraDataLen, this`contentLength, buffer, socket
      ensures Valid() && extraDataLen <= buffer.Length
      ensures err == NoErr <==> old(FrontLine(State())) >= 0
      ensures err == NoErr ==>
        && State() == Filled(old(State()))
        && headerLen == old(FrontLine(State())) + 2 <= extraDataLen
        && contentLength == old(FrontSize(State(), contentLength))
    {
      hide Size, FirstCrlf, Joined, Contiguous, LineEnd, Filled, ReadOn, HasLine, Source;
      ghost var start := State();
      var found, next := FindLine();
      while !found
        invariant Valid() && extraDataLen <= buffer.Length && contentLength == old(contentLength)
        invariant State().Unread() == start.Unread() && Filled(State()) == Filled(start)
        invariant found <==> HasLine(State())
        invariant found ==> next == FirstCrlf(State().cells[..extraDataLen]) + 2 <= extraDataLen
        decreases |State().incoming|, !found
      {
        FilledStep(State());
        if extraDataLen >= buffer.Length {
          return MalformedErr, 0;
        }
        var more := ReadMore();
        if !more {
          return ConnectionErr, 0;
        }
        found, next := FindLine();
      }
      FilledStep(State());
      LineHeld(State(), next - 2);
      ScanLength(next - 2);
      return NoErr, next;
    }

    /** What each turn of that loop knows. */
    static lemma FilledStep(r: Reader)
      requires r.Valid()
      ensures HasLine(r) ==> Filled(r) == r
      ensures !HasLine(r) && (r.held == |r.cells| || r.incoming == []) ==> FrontLine(r) < 0
      ensures !HasLine(r) && r.held < |r.cells| && r.incoming != [] ==>
        Filled(r) == Filled(ReadOn(r)) && |ReadOn(r).incoming| < |r.incoming|
    {
      hide FirstCrlf, LineEnd;
      if !HasLine(r) {
        LineNotThere(r.Unread(), r.held, |r.cells|);
        assert r.Unread()[..r.held] == r.cells[..r.held];
      }
    }

    static lemma LineHeld(r: Reader, i: nat)
      requires r.Valid() && HasLine(r) && i == FirstCrlf(r.cells[..r.held])
      ensures FrontLine(r) == i && i + 2 <= r.held && r.cells[..i] == r.Unread()[..i] && r.cells[i] == CR
    {
      var u := r.Unread();
      assert u[..r.held] == r.cells[..r.held];
      LineThere(u, r.held, |r.cells|);
      assert r.cells[..r.held][i] == CR;
    }

    // ----- one chunk -----

    /** The bytes left after a branch of the loop; nothing if it ended in an error. */
    ghost function Left(): seq<byte>
      reads this`extraDataLen, buffer, socket
    {
      if extraDataLen <= buffer.Length then State().Unread() else []
    }

    /** The whole chunk is in the buffer: deliver it and move the rest to the front. */
    method TakeWhole(headerLen: nat) returns (err: Status)
      requires Valid() && 0 < headerLen && contentLength + headerLen + 2 <= extraDataLen <= buffer.Length
      modifies this`extraDataLen, this`calls, this`pos, buffer
      ensures Valid() && extraDataLen <= buffer.Length
      ensures Took(old(Left()), headerLen, contentLength, err, Both, old(Joined(calls)), Joined(calls), Left())
      ensures err == NoErr ==> State() == AfterChunk(old(State()), headerLen, contentLength)
    {
      hide Joined, Contiguous, Took, EndAt, AfterChunk, Source;
      ghost var r, before := State(), Joined(calls);
      var stop := headerLen + contentLength;
      WholeCase(r, headerLen, contentLength);
      CellIs(stop);
      CellIs(stop + 1);
      if buffer[stop] != CR || buffer[stop + 1] != LF {
        TookNothing(r.Unread(), headerLen, contentLength, MalformedErr, Both, before, before, Left());
        return MalformedErr;
      }
      TookAll(r.Unread(), headerLen, contentLength, Both, before);
      Deliver(headerLen, contentLength);
      MoveDown(stop + 2);
      extraDataLen := extraDataLen - (stop + 2);
      return NoErr;
    }

    static lemma WholeCase(r: Reader, at: nat, n: nat)
      requires r.Valid() && 0 < at && at + n + 2 <= r.held
      ensures AfterChunk(r, at, n) == Dropped(r, at + n + 2) && ChunkEnd(r, at, n) == Both
      ensures EndAt(r.Unread(), at, n, Both) <==> r.cells[at + n] == CR && r.cells[at + n + 1] == LF
      ensures r.Unread()[at..at + n] == r.cells[at..at + n]
    {
    }

    /** All of the chunk but its last LF is in the buffer: deliver it and read the LF. */
    method TakeAllButLf(headerLen: nat) returns (err: Status)
      requires Valid() && 0 < headerLen && extraDataLen == contentLength + headerLen + 1 <= buffer.Length
      modifies this`extraDataLen, this`calls, this`pos, buffer, socket
      ensures Valid() && extraDataLen <= buffer.Length
      ensures Took(old(Left()), headerLen, contentLength, err, Both, old(Joined(calls)), Joined(calls), Left())
      ensures err == NoErr ==> State() == AfterChunk(old(State()), headerLen, contentLength)
    {
      hide Joined, Contiguous, Took, EndAt, AfterChunk, Source, ReadTo, MorePieces;
      ghost var r, before := State(), Joined(calls);
      AllButLfCase(r, headerLen, contentLength);
      CellIs(extraDataLen - 1);
      if buffer[extraDataLen - 1] != CR {
        TookNothing(r.Unread(), headerLen, contentLength, MalformedErr, Both, before, before, Left());
        return MalformedErr;
      }
      Deliver(headerLen, extraDataLen - headerLen - 1);
      var n := Read(headerLen, 1);
      if n == 0 {
        TookNothing(r.Unread(), headerLen, contentLength, ConnectionErr, Both, before, Joined(calls), Left());
        return ConnectionErr;
      }
      CellIs(headerLen);
      if buffer[headerLen] != LF {
        TookNothing(r.Unread(), headerLen, contentLength, MalformedErr, Both, before, Joined(calls), Left());
        return MalformedErr;
      }
      extraDataLen := 0;
      TookAll(r.Unread(), headerLen, contentLength, Both, before);
      return NoErr;
    }

    static lemma AllButLfCase(r: Reader, at: nat, n: nat)
      requires r.Valid() && 0 < at && r.held == at + n + 1
      ensures var u, t := r.Unread(), ReadTo(r.(held := 0), at, 1);
              && AfterChunk(r, at, n) == t && ChunkEnd(r, at, n) == Both
              && u[at..at + n] == r.cells[at..at + n]
              && (EndAt(u, at, n, Both) <==> r.cells[at + n] == CR && |r.incoming| > 0 && t.cells[at] == LF)
              && (|r.incoming| > 0 ==> t.Unread() == u[at + n + 2..])
    {
      hide MorePieces;
      var u, t := r.Unread(), ReadTo(r.(held := 0), at, 1);
      assert u[at..at + n] == r.cells[at..at + n] && u[at + n] == r.cells[at + n];
      if |r.incoming| > 0 {
        assert t.cells[at] == r.incoming[0] && t.Unread() == r.incoming[1..];
        assert u[at + n + 1] == r.incoming[0] && u[at + n + 2..] == r.incoming[1..];
      }
    }

    /** One read of chunk data to the place behind the size line, and its delivery. */
    method ReadPiece(headerLen: nat, max: nat) returns (n: nat)
      requires Valid() && headerLen + max <= buffer.Length
      modifies this`extraDataLen, this`calls, this`pos, buffer, socket
      ensures Valid() && n == old(ReadSize(Source().pieces, max, |Source().incoming|))
        && extraDataLen == old(extraDataLen) + n
      ensures Source() == ReadTo(old(Source()), headerLen, max)
      ensures Joined(calls) == old(Joined(calls)) + old(Source()).incoming[..n]
    {
      hide Joined, Contiguous, ReadSize, Source, MorePieces;
      ghost var r := Source();
      n := Read(headerLen, max);
      assert Source().cells[headerLen..headerLen + n] == r.incoming[..n];
      if n == 0 {
        assert Joined(calls) + r.incoming[..0] == Joined(calls);
        return n;
      }
      extraDataLen := extraDataLen + n;
      Deliver(headerLen, n);
    }

    /** Deliver the rest of the chunk as it arrives. extraDataLen counts on past the end of the buffer. */
    method ReadData(headerLen: nat, ghost u: seq<byte>) returns (ok: bool)
      requires Valid() && headerLen <= extraDataLen <= contentLength + headerLen && headerLen <= buffer.Length
      requires extraDataLen <= |u| && Source().incoming == u[extraDataLen..]
      modifies this`extraDataLen, this`calls, this`pos, buffer, socket
      ensures Valid() && old(extraDataLen) <= extraDataLen <= contentLength + headerLen && extraDataLen <= |u|
      ensures ok ==> extraDataLen == contentLength + headerLen
      ensures headerLen < buffer.Length && contentLength + headerLen <= |u| ==> ok
      ensures Source().incoming == u[extraDataLen..]
        && Joined(calls) == old(Joined(calls)) + u[old(extraDataLen)..extraDataLen]
      ensures ok ==> Source() == Loaded(old(Source()), headerLen, contentLength + headerLen - old(extraDataLen))
    {
      hide Joined, Contiguous, Loaded, ReadTo, ReadSize, MorePieces, Source;
      ghost var from, before, stop := extraDataLen, Joined(calls), contentLength + headerLen;
      ghost var goal := Loaded(Source(), headerLen, stop - extraDataLen);
      while extraDataLen < contentLength + headerLen
        invariant Valid() && headerLen <= from <= extraDataLen <= stop
        invariant extraDataLen <= |u| && Source().incoming == u[extraDataLen..]
        invariant Joined(calls) == before + u[from..extraDataLen]
        invariant Loaded(Source(), headerLen, stop - extraDataLen) == goal
      {
        ghost var done := extraDataLen;
        var left := contentLength - (extraDataLen - headerLen);
        var room := buffer.Length - headerLen;
        var readLength := if left > room then room else left;
        ghost var r := Source();
        LoadedStep(r, headerLen, left);
        var n := ReadPiece(headerLen, readLength);
        if n == 0 {
          return false;
        }
        NextSlice(u, before, from, done, n);
      }
      LoadedStep(Source(), headerLen, 0);
      return true;
    }

    static lemma NextSlice(u: seq<byte>, before: seq<byte>, from: nat, done: nat, n: nat)
      requires from <= done && done + n <= |u|
      ensures u[done..][n..] == u[done + n..] && u[done..][..n] == u[done..done + n]
      ensures before + u[from..done] + u[done..done + n] == before + u[from..done + n]
    {
      assert u[from..done] + u[done..done + n] == u[from..done + n];
    }

    /** Deliver the part of the chunk that is in the buffer, then the rest as it arrives. */
    method TakeData(headerLen: nat) returns (ok: bool)
      requires Valid() && headerLen <= extraDataLen <= contentLength + headerLen && extraDataLen <= buffer.Length
      modifies this`extraDataLen, this`calls, this`pos, buffer, socket
      ensures Valid()
      ensures var u, stop, start := old(Left()), headerLen + contentLength, old(Joined(calls));
              && start <= Joined(calls) <= start + AtMost(u[headerLen..], contentLength)
              && (ok ==> stop <= |u| && Source().incoming == u[stop..] && Joined(calls) == start + u[headerLen..stop])
              && (headerLen < buffer.Length && stop <= |u| ==> ok)
      ensures ok ==> Source() == Loaded(old(Source()), headerLen, contentLength + headerLen - old(extraDataLen))
    {
      hide Joined, Contiguous, Loaded, AtMost, Source;
      ghost var u, before, middle := Left(), Joined(calls), extraDataLen;
      HeldPart(State(), headerLen);
      Deliver(headerLen, extraDataLen - headerLen);
      ok := ReadData(headerLen, u);
      NextSlice(u, before, headerLen, middle, extraDataLen - middle);
      PartOfChunk(u, before, headerLen, extraDataLen, contentLength);
    }

    static lemma HeldPart(r: Reader, at: nat)
      requires r.Valid() && at <= r.held
      ensures r.Unread()[r.held..] == r.incoming && r.Unread()[at..r.held] == r.cells[at..r.held]
    {
    }

    static lemma PartOfChunk(u: seq<byte>, before: seq<byte>, start: nat, upTo: nat, n: nat)
      requires start <= upTo <= |u| && upTo <= start + n
      ensures before <= before + u[start..upTo] <= before + AtMost(u[start..], n)
    {
      assert u[start..upTo] <= AtMost(u[start..], n);
    }

    /** Part of the chunk is in the buffer: deliver it, then what arrives, then read CR LF. */
    method TakePart(headerLen: nat) returns (err: Status)
      requires Valid() && 0 < headerLen <= extraDataLen <= contentLength + headerLen && extraDataLen <= buffer.Length
      requires headerLen + 2 <= buffer.Length || |State().Unread()| <= contentLength + headerLen
      modifies this`extraDataLen, this`calls, this`pos, buffer, socket
      ensures Valid() && (err == NoErr ==> extraDataLen == 0)
      ensures var end := old(ChunkEnd(State(), headerLen, contentLength));
              Took(old(Left()), headerLen, contentLength, err, end, old(Joined(calls)), Joined(calls), Left())
      ensures err == NoErr ==> State() == AfterChunk(old(State()), headerLen, contentLength)
    {
      hide Joined, Contiguous, Loaded, AtMost, CrlfEnd, EndAt, ReadSize, MorePieces, Took, ChunkEnd, AfterChunk, ReadTo,
        Source;
      ghost var r, before := State(), Joined(calls);
      ghost var u, stop, end := r.Unread(), contentLength + headerLen, ChunkEnd(r, headerLen, contentLength);
      NoEnd(u, headerLen, contentLength, end);
      if headerLen + 2 <= buffer.Length {
        PartCases(r, headerLen, contentLength);
      }
      var ok := TakeData(headerLen);
      if !ok {
        TookPart(u, headerLen, contentLength, ConnectionErr, end, before, Joined(calls), Left());
        return ConnectionErr;
      }
      err := ReadCrlf(headerLen);
      ShiftedEnd(u, headerLen, contentLength, end);
      if err == NoErr {
        extraDataLen := 0;
        NothingHeld(State());
        TookAll(u, headerLen, contentLength, end, before);
      } else {
        TookPart(u, headerLen, contentLength, err, end, before, Joined(calls), Left());
      }
    }

    static lemma NothingHeld(r: Reader)
      requires r.held == 0
      ensures r.Unread() == r.incoming
    {
    }

    /** The last case of ChunkEnd and AfterChunk, in terms of the reads that are made. */
    static lemma PartCases(r: Reader, at: nat, n: nat)
      requires r.Valid() && 0 < at <= r.held <= at + n && at + 2 <= |r.cells|
      ensures var t := Loaded(r.(held := 0), at, at + n - r.held);
              && ChunkEnd(r, at, n) == CrlfEnd(t.cells[at + 1], t.incoming, t.pieces)
              && AfterChunk(r, at, n) == ReadTo(t, at, 2)
    {
      hide CrlfEnd, ReadTo, Loaded;
    }

    static lemma NoEnd(u: seq<byte>, start: nat, n: nat, end: End)
      ensures |u| <= start + n ==> !EndAt(u, start, n, end)
    {
    }

    static lemma ShiftedEnd(u: seq<byte>, start: nat, n: nat, end: End)
      requires start + n <= |u|
      ensures EndAt(u[start + n..], 0, 0, end) <==> EndAt(u, start, n, end)
      ensures EndAt(u, start, n, end) ==>
        start + n + Taken(end) <= |u| && u[start + n..][Taken(end)..] == u[start + n + Taken(end)..]
    {
    }

    /** Read the two bytes behind the data, and look at two bytes of the buffer. */
    method ReadCrlf(headerLen: nat) returns (err: Status)
      requires headerLen + 2 <= buffer.Length || (Source().incoming == [] && headerLen <= buffer.Length)
      modifies buffer, socket
      ensures old(Source()).incoming == [] ==> err != NoErr
      ensures var r := old(Source());
              headerLen + 2 <= buffer.Length ==>
                var end := CrlfEnd(r.cells[headerLen + 1], r.incoming, r.pieces);
                (err == NoErr <==> EndAt(r.incoming, 0, 0, end))
                  && (err == NoErr ==> Source().incoming == r.incoming[Taken(end)..])
      ensures Source() == ReadTo(old(Source()), headerLen, 2)
    {
      hide Source, MorePieces;
      ghost var r := Source();
      var n := Read(headerLen, 2);
      if n == 0 {
        return ConnectionErr;
      }
      CrlfCells(r, headerLen);
      CellIs(headerLen);
      CellIs(headerLen + 1);
      if buffer[headerLen] != CR || buffer[headerLen + 1] != LF {
        return MalformedErr;
      }
      return NoErr;
    }

    /** The two bytes of the buffer after that read: the second may be stale. */
    static lemma CrlfCells(r: Reader, at: nat)
      requires at + 2 <= |r.cells| && |r.incoming| > 0
      ensures var t, n := ReadTo(r, at, 2), ReadSize(r.pieces, 2, |r.incoming|);
              && t.cells[at] == r.incoming[0]
              && t.cells[at + 1] == if n == 2 then r.incoming[1] else r.cells[at + 1]
    {
      hide MorePieces;
    }

    /** The three ways the loop takes a chunk, by how much of it is in the buffer. */
    method TakeChunk(headerLen: nat) returns (err: Status)
      requires Valid() && 0 < headerLen <= extraDataLen <= buffer.Length
      requires headerLen + 2 <= buffer.Length || |State().Unread()| <= contentLength + headerLen
      modifies this`extraDataLen, this`calls, this`pos, buffer, socket
      ensures Valid() && (err == NoErr ==> extraDataLen <= buffer.Length)
      ensures var end := old(ChunkEnd(State(), headerLen, contentLength));
              Took(old(Left()), headerLen, contentLength, err, end, old(Joined(calls)), Joined(calls), Left())
      ensures err == NoErr ==> State() == AfterChunk(old(State()), headerLen, contentLength)
    {
      hide Joined, Contiguous, Took, AfterChunk, Loaded, Source;
      if extraDataLen >= contentLength + headerLen + 2 {
        err := TakeWhole(headerLen);
      } else if extraDataLen == contentLength + headerLen + 1 {
        err := TakeAllButLf(headerLen);
      } else {
        err := TakePart(headerLen);
      }
    }

    // ----- all chunks -----

    /** One turn of the loop: read a size line, then take the chunk it announces. */
    method Turn() returns (err: Status, headerLen: nat)
      requires Valid() && extraDataLen <= buffer.Length && LinesFit(Left(), contentLength, buffer.Length)
      modifies this, buffer, socket
      ensures Valid() && (err == NoErr ==> extraDataLen <= buffer.Length)
      ensures Turned(old(State()), old(contentLength), err, headerLen, contentLength, old(Joined(calls)), Joined(calls),
        Left())
      ensures err == NoErr && contentLength == 0 ==> headerLen <= extraDataLen
      ensures err == NoErr && contentLength > 0 ==> State() == Next(old(State()), old(contentLength))
    {
      hide Joined, Contiguous, Size, LineEnd, LinesFit, EndAt, AtMost, Took, ChunkEnd, AfterChunk, Filled, Source;
      LineFits(Left(), contentLength, buffer.Length);
      err, headerLen := FindLength();
      if err == NoErr && contentLength != 0 {
        err := TakeChunk(headerLen);
      }
    }

    /**
     * The chunk loop of SocketReadHTTPBody, up to the last chunk's size line. However the network splits the bytes,
     * the callbacks see contiguous positions and what they see is what the code makes of the input from where it
     * starts; if it succeeds, all of it. Unless some piece has length one, that is what the reference decoder makes
     * of the input.
     */
    method ReadBody() returns (err: Status, headerLen: nat)
      requires Valid() && extraDataLen <= buffer.Length && LinesFit(Left(), contentLength, buffer.Length)
      modifies this, buffer, socket
      ensures Contiguous(calls)
      ensures err == NoErr ==> headerLen <= extraDataLen <= buffer.Length
      ensures var d := old(Outcome(State(), contentLength));
              && (err == NoErr <==> d.Body?)
              && (err == NoErr ==> Joined(calls) == old(Joined(calls)) + d.data && Left()[headerLen..] == d.rest)
              && old(Joined(calls)) <= Joined(calls) <= old(Joined(calls)) + d.data
      ensures old(NoOnes(State().pieces)) ==>
        old(Outcome(State(), contentLength)) == Decode(old(Left()), old(contentLength), buffer.Length)
    {
      hide Joined, Contiguous, Size, LineEnd, LinesFit, Outcome, Decode, InLoop, Turned, NoOnes, Next, Source;
      ghost var start, whole, before := State(), Outcome(State(), contentLength), Joined(calls);
      if NoOnes(start.pieces) {
        OutcomeDecodes(start, contentLength);
      }
      LoopStarts(whole, before);
      while true
        invariant Valid() && extraDataLen <= buffer.Length && LinesFit(Left(), contentLength, buffer.Length)
        invariant InLoop(whole, before, Joined(calls), Outcome(State(), contentLength))
        decreases |Left()|
      {
        ghost var r, prior, sofar := State(), contentLength, Joined(calls);
        err, headerLen := Turn();
        LoopTurns(whole, before, sofar, Joined(calls), r, prior, Left(), err, headerLen, contentLength);
        if err != NoErr || contentLength == 0 {
          return;
        }
      }
    }
  }

  // ----- well-formed bodies, and two splits -----

  /**
   * A well-formed body, part of it in the buffer and the rest split by the network at will: it arrives unchanged
   * exactly when no CR LF read of this split comes back short before a stale byte other than LF.
   */
  method ReadEncoded(b: HttpBody, ghost chunks: seq<Chunk>, ghost last: seq<byte>, ghost rest: seq<byte>)
      returns (err: Status, headerLen: nat)
    requires b.Valid() && b.extraDataLen <= b.buffer.Length && b.calls == []
    requires GoodChunks(chunks, b.buffer.Length) && LastLine(last, b.buffer.Length)
    requires b.State().Unread() == Encode(chunks, last) + rest
    modifies b, b.buffer, b.socket
    ensures err == NoErr <==> Survives(old(EndsFrom(b.State(), b.contentLength)), |chunks|)
    ensures old(NoOnes(b.State().pieces)) ==> err == NoErr
    ensures err == NoErr ==> Joined(b.calls) == Data(chunks) && Contiguous(b.calls)
    ensures err == NoErr ==> headerLen <= b.extraDataLen <= b.buffer.Length && b.State().Unread()[headerLen..] == rest
  {
    hide Decode, LinesFit, Encode, Contiguous, Follow, Survives, LastLine, EndsFrom;
    ghost var s := Encode(chunks, last) + rest;
    DecodeEncode(chunks, last, rest, b.contentLength, b.buffer.Length);
    assert Drift(false) + s == s;
    FollowEncode(chunks, last, rest, b.contentLength, b.buffer.Length, EndsFrom(b.State(), b.contentLength), false);
    err, headerLen := b.ReadBody();
  }

  /** The parts of a first chunk in the buffer. */
  lemma ChunkHeld(line: seq<byte>, data: seq<byte>, incoming: seq<byte>, bufLen: nat)
    requires CR !in line && |line| + 4 <= bufLen && |line| > 0
    ensures var u := line + [CR, LF] + data + incoming;
            && LineEnd(u, bufLen) == |line| && u[..|line|] == line && u[|line| + 2..] == data + incoming
  {
    hide LineEnd;
    assert line + [CR, LF] + data + incoming == line + [CR, LF] + (data + incoming);
    LineFound(line, data + incoming, bufLen);
  }

  /**
   * The body "2 CR LF ab CR LF 0 CR LF" is well formed. With its first chunk in the buffer and the network handing
   * over CR alone, it is rejected: the byte behind the CR in the buffer is the b of the data.
   */
  method WellFormedRejected() returns (err: Status)
    ensures err != NoErr
  {
    hide Size, LineEnd, ScanHex, Follow, Decode, LinesFit, LastLine, EndsFrom, NextEnd;
    var coming: seq<byte> := [CR, LF, ZERO, CR, LF];
    var socket := new Socket(coming, [1]);
    var b := new HttpBody(socket, [0x32, CR, LF, 0x61, 0x62], 0);
    ghost var chunks := [Chunk([0x32], [0x61, 0x62])];
    ghost var u := b.State().Unread();
    DigitLine(0x32, 0);
    ZeroLine(b.buffer.Length);
    ChunkHeld([0x32], [0x61, 0x62], coming, b.buffer.Length);
    assert [0x32] + [CR, LF] + [0x61, 0x62] == [0x32, CR, LF, 0x61, 0x62];
    assert u == Encode(chunks, [ZERO]) + [] by {
      assert chunks[1..] == [];
      assert u == [0x32] + [CR, LF] + [0x61, 0x62] + [CR, LF] + ([ZERO] + [CR, LF]);
    }
    assert b.State().cells[4] == u[4] == 0x62;
    HeldChunkEnd(b.State(), 0);
    FirstEnd(b.State(), 0);
    var headerLen;
    err, headerLen := ReadEncoded(b, chunks, [ZERO], []);
  }

  /**
   * The body "3 CR LF a LF b CR 0 CR LF" is malformed: CR LF is missing behind the first chunk. Handed over in the
   * same way it is accepted, because the byte behind the CR in the buffer is the LF of the data.
   */
  method MalformedAccepted() returns (err: Status, delivered: seq<byte>)
    ensures err == NoErr && delivered == [0x61, LF, 0x62]
    ensures Decode([0x33, CR, LF, 0x61, LF, 0x62, CR, ZERO, CR, LF], 0, READ_LENGTH) == Malformed([0x61, LF, 0x62])
  {
    hide Size, LineEnd, ScanHex, Follow, Decode, LinesFit, EndsFrom, NextEnd;
    var coming: seq<byte> := [CR, ZERO, CR, LF];
    var socket := new Socket(coming, [1]);
    var b := new HttpBody(socket, [0x33, CR, LF, 0x61, LF, 0x62], 0);
    ghost var u := b.State().Unread();
    assert u == [0x33, CR, LF, 0x61, LF, 0x62, CR, ZERO, CR, LF];
    MissingLf(u);
    assert b.State().cells[4] == u[4] == LF;
    HeldChunkEnd(b.State(), 0);
    FirstEnd(b.State(), 0);
    ghost var ends := EndsFrom(b.State(), 0);
    assert ends == [OneByte(LF)] + Later(ends);
    var headerLen;
    err, headerLen := b.ReadBody();
    delivered := Joined(b.calls);
  }

  lemma MissingLf(u: seq<byte>)
    requires u == [0x33, CR, LF, 0x61, LF, 0x62, CR, ZERO, CR, LF]
    ensures LineEnd(u, READ_LENGTH) == 1 && Size(u[..1], 0) == 3 && LinesFit(u, 0, READ_LENGTH)
    ensures Decode(u, 0, READ_LENGTH) == Malformed([0x61, LF, 0x62])
    ensures forall t :: Follow(u, 0, READ_LENGTH, [OneByte(LF)] + t) == Body([0x61, LF, 0x62], [])
  {
    hide Size, LineEnd, ScanHex;
    var tail: seq<byte> := [ZERO, CR, LF];
    assert u == [0x33] + [CR, LF] + [0x61, LF, 0x62, CR, ZERO, CR, LF];
    LineFound([0x33], [0x61, LF, 0x62, CR, ZERO, CR, LF], READ_LENGTH);
    assert u[..1] == [0x33];
    DigitLine(0x33, 0);
    assert tail == [ZERO] + [CR, LF] + [];
    LineFound([ZERO], [], READ_LENGTH);
    assert tail[..1] == [ZERO];
    SizeOfPlain([ZERO], 3);
    LastFits(tail, 3, READ_LENGTH);
    assert u[7..] == tail && u[3..6] == [0x61, LF, 0x62];
    assert AtMost(u[3..], 3) == [0x61, LF, 0x62];
    forall t
      ensures Follow(u, 0, READ_LENGTH, [OneByte(LF)] + t) == Body([0x61, LF, 0x62], [])
    {
      FollowTurn(u, 0, READ_LENGTH, OneByte(LF), t);
      FollowLast(tail, 3, READ_LENGTH, t);
    }
  }
}

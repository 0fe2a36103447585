/**
 * YMODEM file transfer: the data loops of the sender and of the receiver, and the two of them on a first-in
 * first-out line that may lose any packet and any reply.
 */
module Ymodem {
  import opened Arithmetic
  import opened YmodemPackets

  const SEND_ATTEMPTS: nat := 10
  const MAX_ERRORS: nat := 20

  // ----- sender -----

  /** Sending: ptr bytes of the file are acknowledged, block blk is out. Closing: end-of-file is out. */
  datatype Sender =
    | Sending(ptr: nat, blk: nat, errors: nat)
    | Closing(errors: nat)
    | Finished
    | Failed

  /** What the sender reads while it waits. */
  datatype Reply = Silence | Got(c: byte)

  predicate SenderValid(file: seq<byte>, s: Sender) {
    s.Sending? ==> s.ptr < |file| && s.blk < 0x1_0000
  }

  predicate Transmitting(s: Sender) { s.Sending? || s.Closing? }

  /** What the sender has just put on the line when it waits in this state. */
  function Out(file: seq<byte>, s: Sender): seq<byte>
    requires SenderValid(file, s) && Transmitting(s)
  {
    match s
    case Sending(ptr, blk, _) => Frame(ByteOfCount(blk), Payload(file[ptr..]))
    case Closing(_) => [EOT]
  }

  function FirstSend(file: seq<byte>): Sender { if |file| > 0 then Sending(0, 1, 0) else Closing(0) }

  /** One wait for a reply, up to the next wait. */
  function SenderAfter(file: seq<byte>, s: Sender, reply: Reply): (t: Sender)
    requires SenderValid(file, s) && Transmitting(s)
    ensures SenderValid(file, t)
  {
    match s
    case Sending(ptr, blk, errors) =>
      var left := |file| - ptr;
      if reply == Got(ACK) then
        if left > PacketSize(left) then Sending(ptr + PacketSize(left), (blk + 1) % 0x1_0000, 0) else Closing(0)
      else if errors + 1 < SEND_ATTEMPTS then s.(errors := errors + 1)
      else Failed
    case Closing(errors) =>
      if reply == Got(ACK) then Finished
      else if errors + 1 < SEND_ATTEMPTS then Closing(errors + 1)
      else Failed
  }

  /** The sender after n waits, answered by replies. */
  function SenderRun(file: seq<byte>, replies: nat -> Reply, n: nat): (s: Sender)
    ensures SenderValid(file, s)
  {
    if n == 0 then FirstSend(file)
    else
      var s := SenderRun(file, replies, n - 1);
      if Transmitting(s) then SenderAfter(file, s, replies(n - 1)) else s
  }

  function SenderOutput(file: seq<byte>, replies: nat -> Reply, n: nat): seq<seq<byte>> {
    if n == 0 then []
    else
      var s := SenderRun(file, replies, n - 1);
      SenderOutput(file, replies, n - 1) + (if Transmitting(s) then [Out(file, s)] else [])
  }

  /**
   * The data and end-of-file loops of Ymodem_Transmit, whatever the line answers: the packets it sends and how
   * it ends are those of the step-by-step sender.
   */
  method Transmit(file: seq<byte>, replies: nat -> Reply) returns (errors: nat, sent: seq<seq<byte>>, n: nat)
    ensures sent == SenderOutput(file, replies, n)
    ensures SenderRun(file, replies, n) == (if errors == 0 then Finished else Failed)
  {
    hide Payload, Frame, PacketSize, SenderAfter;
    n, sent := 0, [];
    var ptr: nat, size: nat, blk: nat := 0, |file|, 1;
    while size > 0
      invariant ptr + size == |file| && blk < 0x1_0000
      invariant SenderRun(file, replies, n) == if size > 0 then Sending(ptr, blk, 0) else Closing(0)
      invariant sent == SenderOutput(file, replies, n)
      decreases size
    {
      ghost var before := size;
      var frame := PreparePacket(file, ptr, ByteOfCount(blk), size);
      var ackReceived := false;
      errors := 0;
      while !ackReceived && errors < SEND_ATTEMPTS
        invariant errors <= SEND_ATTEMPTS && ptr + size == |file| && blk < 0x1_0000
        invariant sent == SenderOutput(file, replies, n)
        invariant if ackReceived then size < before
                  else size == before && frame == Frame(ByteOfCount(blk), Payload(file[ptr..]))
        invariant SenderRun(file, replies, n) ==
          if ackReceived then (if size > 0 then Sending(ptr, blk, 0) else Closing(0))
          else if errors == SEND_ATTEMPTS then Failed
          else Sending(ptr, blk, errors)
        invariant ackReceived ==> errors < SEND_ATTEMPTS
        decreases !ackReceived, SEND_ATTEMPTS - errors
      {
        OneWait(file, ptr, blk, errors, replies(n));
        var pktSize := PacketSize(size);
        sent := sent + [frame];
        var reply := replies(n);
        n := n + 1;
        if reply == Got(ACK) {
          ackReceived := true;
          if size > pktSize {
            ptr := ptr + pktSize;
            size := size - pktSize;
            blk := (blk + 1) % 0x1_0000;
          } else {
            ptr := |file|;
            size := 0;
          }
        } else {
          errors := errors + 1;
        }
      }
      if errors >= SEND_ATTEMPTS {
        return;
      }
    }
    errors, sent, n := Close(file, replies, sent, n);
  }

  /** The end-of-file loop. */
  method Close(file: seq<byte>, replies: nat -> Reply, sent0: seq<seq<byte>>, n0: nat)
      returns (errors: nat, sent: seq<seq<byte>>, n: nat)
    requires SenderRun(file, replies, n0) == Closing(0) && sent0 == SenderOutput(file, replies, n0)
    ensures sent == SenderOutput(file, replies, n)
    ensures SenderRun(file, replies, n) == (if errors == 0 then Finished else Failed)
  {
    hide Payload, Frame, PacketSize;
    sent, n, errors := sent0, n0, 0;
    var ackReceived := false;
    while !ackReceived && errors < SEND_ATTEMPTS
      invariant errors <= SEND_ATTEMPTS && (ackReceived ==> errors < SEND_ATTEMPTS)
      invariant sent == SenderOutput(file, replies, n)
      invariant SenderRun(file, replies, n) ==
        if ackReceived then Finished else if errors == SEND_ATTEMPTS then Failed else Closing(errors)
      decreases !ackReceived, SEND_ATTEMPTS - errors
    {
      sent := sent + [[EOT]];
      var reply := replies(n);
      n := n + 1;
      if reply == Got(ACK) {
        ackReceived := true;
      } else {
        errors := errors + 1;
      }
    }
    if errors < SEND_ATTEMPTS {
      errors := 0;
    }
  }

  lemma OneWait(file: seq<byte>, ptr: nat, blk: nat, errors: nat, reply: Reply)
    requires ptr < |file| && blk < 0x1_0000
    ensures var left := |file| - ptr;
            SenderAfter(file, Sending(ptr, blk, errors), reply) ==
            if reply == Got(ACK) then
              (if left > PacketSize(left) then Sending(ptr + PacketSize(left), (blk + 1) % 0x1_0000, 0) else Closing(0))
            else if errors + 1 < SEND_ATTEMPTS then Sending(ptr, blk, errors + 1) else Failed
    ensures PacketSize(|file| - ptr) > 0
  {
  }

  // ----- receiver -----

  /** Why the receive loop stopped. */
  datatype Status = Receiving | FileDone | Stopped(code: int)

  datatype Receiver = Receiver(count: nat, errors: nat, written: seq<byte>, status: Status)

  /** One turn of the receive loop after the header packet. ok: the flash takes a write. */
  function ReceiverAfter(r: Receiver, p: Packet, ok: bool): (res: (Receiver, seq<byte>))
    requires r.status == Receiving
  {
    match p
    case SenderAbort => (r.(errors := 0, status := Stopped(0)), [ACK])
    case EndOfFile => (r.(errors := 0, status := FileDone), [ACK])
    case Data(no, payload) =>
      if no != ByteOfCount(r.count) then (r.(errors := 0), [NAK])
      else if ok then (Receiver(r.count + 1, 0, r.written + payload, Receiving), [ACK])
      else (r.(errors := 0, status := Stopped(-2)), [CA, CA])
    case UserAbort => (r.(status := Stopped(-3)), [CA, CA])
    case Fault =>
      if r.errors + 1 > MAX_ERRORS then (r.(errors := r.errors + 1, status := Stopped(0)), [CA, CA])
      else (r.(errors := r.errors + 1), [REQUEST])
  }

  /** The receiver's variables, with the flash it writes in place. */
  class ReceiveLoop {
    const flash: array<byte>
    const start: nat
    var dest: nat
    var packetsReceived: nat
    var errors: nat
    var status: Status

    /** The state right after the header packet: the flash is erased from start on. */
    constructor (flash: array<byte>, start: nat)
      requires start <= flash.Length
      ensures Valid() && this.flash == flash && State() == Receiver(1, 0, [], Receiving)
    {
      this.flash, this.start := flash, start;
      dest, packetsReceived, errors, status := start, 1, 0, Receiving;
    }

    ghost predicate Valid()
      reads this
    {
      start <= dest <= flash.Length
    }

    ghost function State(): Receiver
      requires Valid()
      reads this, flash
    {
      Receiver(packetsReceived, errors, flash[start..dest], status)
    }

    /** Write a payload at the write position and advance it. */
    method Store(payload: seq<byte>)
      requires Valid() && dest + |payload| <= flash.Length
      modifies this`dest, flash
      ensures Valid() && flash[start..dest] == old(flash[start..dest]) + payload
        && flash[..start] == old(flash[..start])
    {
      ghost var from, before := dest, flash[start..dest];
      for i := 0 to |payload|
        invariant start <= from <= from + i == dest <= flash.Length
        invariant flash[start..dest] == before + payload[..i] && flash[..start] == old(flash[..start])
      {
        flash[dest] := payload[i];
        dest := dest + 1;
        assert flash[start..dest] == flash[start..dest - 1] + [payload[i]];
        assert payload[..i + 1] == payload[..i] + [payload[i]];
      }
      assert payload[..|payload|] == payload;
    }

    /** One turn of the loop on whatever arrives before the line falls silent. */
    method Turn(wire: seq<byte>, flashWorks: bool) returns (replies: seq<byte>)
      requires Valid() && status == Receiving
      modifies this, flash
      ensures Valid()
      ensures var p := Parse(wire);
              var ok := flashWorks && (p.Data? ==> old(dest) + |p.payload| <= flash.Length);
              (State(), replies) == ReceiverAfter(old(State()), p, ok)
      ensures flash[..start] == old(flash[..start])
    {
      hide Parse;
      var p := ReceivePacket(wire);
      match p {
        case SenderAbort =>
          errors, status := 0, Stopped(0);
          return [ACK];
        case EndOfFile =>
          errors, status := 0, FileDone;
          return [ACK];
        case Data(no, payload) =>
          errors := 0;
          if no != ByteOfCount(packetsReceived) {
            return [NAK];
          }
          if !flashWorks || dest + |payload| > flash.Length {
            status := Stopped(-2);
            return [CA, CA];
          }
          Store(payload);
          errors := 0;
          packetsReceived := packetsReceived + 1;
          return [ACK];
        case UserAbort =>
          status := Stopped(-3);
          return [CA, CA];
        case Fault =>
          errors := errors + 1;
          if errors > MAX_ERRORS {
            status := Stopped(0);
            return [CA, CA];
          }
          return [REQUEST];
      }
    }
  }

  // ----- both ends and the line between them -----

  /**
   * tags names what each frame on the line is: 0 the header packet, k the k-th data packet, and one more than
   * their number the end-of-file byte. acked counts the acknowledgements the sender has taken. Neither is seen
   * by the programs.
   */
  datatype System = System(tx: Sender, rx: Receiver, wire: seq<seq<byte>>, tags: seq<nat>, back: seq<byte>, acked: nat)

  /** The frame a tag stands for. */
  function Tagged(file: seq<byte>, header: seq<byte>, tag: nat): seq<byte> {
    if tag == 0 then header
    else if tag <= Count(file) then Frame(ByteOfCount(tag), Payload(Rest(file, tag - 1)))
    else [EOT]
  }

  function Current(y: System): nat { y.acked + 1 }

  /** What may happen next. works: the flash takes a write. */
  datatype Event = SenderHears | SenderTimesOut | ReceiverHears(works: bool) | ReceiverTimesOut | FrameLost(i: nat)
      | ReplyLost(i: nat)

  predicate Enabled(file: seq<byte>, y: System, e: Event) {
    && SenderValid(file, y.tx) && |y.tags| == |y.wire|
    && match e
       case SenderHears => Transmitting(y.tx) && |y.back| > 0
       case SenderTimesOut => Transmitting(y.tx)
       case ReceiverHears(_) => y.rx.status == Receiving && |y.wire| > 0
       case ReceiverTimesOut => y.rx.status == Receiving
       case FrameLost(i) => i < |y.wire|
       case ReplyLost(i) => i < |y.back|
  }

  function Without<T>(s: seq<T>, i: nat): seq<T>
    requires i < |s|
  {
    s[..i] + s[i + 1..]
  }

  /** The sender takes a reply, or none, and sends again if it goes on. */
  function SenderStep(file: seq<byte>, y: System, reply: Reply): System
    requires SenderValid(file, y.tx) && Transmitting(y.tx)
  {
    var t := SenderAfter(file, y.tx, reply);
    var acked := if reply == Got(ACK) && y.tx.Sending? then y.acked + 1 else y.acked;
    if Transmitting(t) then y.(tx := t, wire := y.wire + [Out(file, t)], tags := y.tags + [acked + 1], acked := acked)
    else y.(tx := t, acked := acked)
  }

  function ReceiverStep(y: System, p: Packet, works: bool): System
    requires y.rx.status == Receiving
  {
    var (r, replies) := ReceiverAfter(y.rx, p, works);
    y.(rx := r, back := y.back + replies)
  }

  function After(file: seq<byte>, y: System, e: Event): System
    requires Enabled(file, y, e)
  {
    match e
    case SenderHears => SenderStep(file, y.(back := y.back[1..]), Got(y.back[0]))
    case SenderTimesOut => SenderStep(file, y, Silence)
    case ReceiverHears(works) => ReceiverStep(y.(wire := y.wire[1..], tags := y.tags[1..]), Parse(y.wire[0]), works)
    case ReceiverTimesOut => ReceiverStep(y, Fault, true)
    case FrameLost(i) => y.(wire := Without(y.wire, i), tags := Without(y.tags, i))
    case ReplyLost(i) => y.(back := Without(y.back, i))
  }

  function Acks(back: seq<byte>): nat {
    if |back| == 0 then 0 else (if back[0] == ACK then 1 else 0) + Acks(back[1..])
  }

  /** The header packet as the receiver reads it. */
  predicate IsHeader(header: seq<byte>) {
    var p := Parse(header);
    p.Data? && p.no == 0
  }

  /**
   * When the data loops start, the header has been taken once and its acknowledgement has been read. Copies of
   * the header and any replies but an acknowledgement may still be under way.
   */
  ghost predicate Start(file: seq<byte>, header: seq<byte>, y: System) {
    && IsHeader(header) && y.tx == FirstSend(file) && y.rx == Receiver(1, 0, [], Receiving) && y.acked == 0
    && Acks(y.back) == 0
    && |y.wire| > 0 && |y.tags| == |y.wire|
    && y.wire[|y.wire| - 1] == Out(file, y.tx) && y.tags[|y.wire| - 1] == 1
    && forall i :: 0 <= i < |y.wire| - 1 ==> y.wire[i] == header && y.tags[i] == 0
  }

  // ----- the invariant -----

  ghost predicate SenderAt(file: seq<byte>, y: System) {
    && SenderValid(file, y.tx) && y.acked <= Count(file)
    && match y.tx
       case Sending(ptr, blk, _) => y.acked < Count(file) && file[ptr..] == Rest(file, y.acked)
         && blk == Current(y) % 0x1_0000
       case Closing(_) => y.acked == Count(file)
       case Finished => y.acked == Count(file)
       case Failed => true
  }

  /** Everything under way is the current frame or the one before it, in order. */
  ghost predicate LineAt(file: seq<byte>, header: seq<byte>, y: System) {
    && |y.wire| == |y.tags|
    && (forall i :: 0 <= i < |y.wire| ==> y.wire[i] == Tagged(file, header, y.tags[i]))
    && (forall i :: 0 <= i < |y.tags| ==> Current(y) - 1 <= y.tags[i] <= Current(y))
    && (forall i, j :: 0 <= i < j < |y.tags| ==> y.tags[i] <= y.tags[j])
  }

  /** The receiver has counted the current packet or not, and nothing more. */
  ghost predicate ReceiverAt(file: seq<byte>, y: System) {
    && Current(y) <= y.rx.count <= Current(y) + 1 && y.rx.count <= Count(file) + 1
    && y.rx.written == Prefix(file, y.rx.count - 1)
    && (y.rx.count == Current(y) + 1 ==> forall i :: 0 <= i < |y.tags| ==> y.tags[i] == Current(y))
    && (y.acked < Count(file) ==> Acks(y.back) <= y.rx.count - Current(y))
    && (y.rx.status == FileDone ==> y.acked == Count(file))
  }

  ghost predicate Inv(file: seq<byte>, header: seq<byte>, y: System) {
    SenderAt(file, y) && LineAt(file, header, y) && ReceiverAt(file, y)
  }

  lemma {:induction false} AcksConcat(a: seq<byte>, b: seq<byte>)
    ensures Acks(a + b) == Acks(a) + Acks(b)
  {
    if |a| == 0 {
      assert a + b == b;
    } else {
      AcksConcat(a[1..], b);
      assert (a + b)[1..] == a[1..] + b;
    }
  }

  lemma AcksWithout(back: seq<byte>, i: nat)
    requires i < |back|
    ensures Acks(Without(back, i)) <= Acks(back)
  {
    hide Acks;
    assert back == back[..i] + ([back[i]] + back[i + 1..]);
    AcksConcat(back[..i], [back[i]] + back[i + 1..]);
    AcksConcat([back[i]], back[i + 1..]);
    AcksConcat(back[..i], back[i + 1..]);
  }

  lemma AcksOfShort(c: byte)
    ensures Acks([c]) == if c == ACK then 1 else 0
    ensures Acks([CA, CA]) == 0
  {
    assert [CA, CA][1..] == [CA];
    assert [c][1..] == [];
  }

  lemma StartInv(file: seq<byte>, header: seq<byte>, y: System)
    requires Start(file, header, y)
    ensures Inv(file, header, y)
  {
    hide Payload, Frame, Parse, Acks, Drop;
    assert Rest(file, 0) == file;
    assert file[0..] == file;
    assert Prefix(file, 0) == [];
    if |file| > 0 {
      assert Count(file) >= 1;
      assert y.wire[|y.wire| - 1] == Tagged(file, header, 1);
    }
  }

  // ----- every step keeps it -----

  lemma LoseKeeps(file: seq<byte>, header: seq<byte>, y: System, e: Event)
    requires Inv(file, header, y) && Enabled(file, y, e) && (e.FrameLost? || e.ReplyLost?)
    ensures Inv(file, header, After(file, y, e))
  {
    hide Prefix, Rest, Count, Acks, Payload, Frame, Parse, LineAt;
    if e.ReplyLost? {
      AcksWithout(y.back, e.i);
      SameLine(file, header, y, After(file, y, e));
    } else {
      LineShrinks(file, header, y, e.i);
    }
  }

  lemma LineShrinks(file: seq<byte>, header: seq<byte>, y: System, i: nat)
    requires LineAt(file, header, y) && i < |y.wire|
    ensures var z := y.(wire := Without(y.wire, i), tags := Without(y.tags, i));
            LineAt(file, header, z) && forall k :: 0 <= k < |z.tags| ==> z.tags[k] in y.tags
  {
    hide Tagged;
    var tags, wire := Without(y.tags, i), Without(y.wire, i);
    forall k | 0 <= k < |tags|
      ensures tags[k] == y.tags[if k < i then k else k + 1] && wire[k] == y.wire[if k < i then k else k + 1]
    {
    }
  }

  /** A frame on the line is accepted only as the packet the receiver is waiting for: numbers never alias. */
  lemma NoAlias(file: seq<byte>, header: seq<byte>, y: System)
    requires IsHeader(header) && Inv(file, header, y) && |y.wire| > 0
    ensures var p := Parse(y.wire[0]);
            if y.tags[0] <= Count(file) then
              && p.Data? && (p.no == ByteOfCount(y.rx.count) <==> y.tags[0] == y.rx.count)
              && (y.tags[0] > 0 ==> p.payload == Payload(Rest(file, y.tags[0] - 1)))
            else p == EndOfFile
  {
    hide Payload, Rest, Count, Prefix, Acks, Frame;
    var t := y.tags[0];
    if t == 0 {
    } else if t <= Count(file) {
      hide Parse;
      ParseFrame(ByteOfCount(t), Payload(Rest(file, t - 1)));
    }
  }

  lemma ReceiverKeeps(file: seq<byte>, header: seq<byte>, y: System, e: Event)
    requires IsHeader(header) && Inv(file, header, y) && Enabled(file, y, e)
      && (e.ReceiverHears? || e.ReceiverTimesOut?)
    ensures Inv(file, header, After(file, y, e))
  {
    hide Tagged, Rest, Prefix, Count, Payload, Frame, Parse, Acks;
    var z := After(file, y, e);
    if e.ReceiverTimesOut? {
      AcksConcat(y.back, z.back[|y.back|..]);
      AcksOfShort(REQUEST);
    } else {
      NoAlias(file, header, y);
      var (r, replies) := ReceiverAfter(y.rx, Parse(y.wire[0]), e.works);
      AcksConcat(y.back, replies);
      AcksOfShort(ACK);
      AcksOfShort(NAK);
      if r.count > y.rx.count {
        PrefixStep(file, y.rx.count - 1);
      }
    }
  }

  /** The sender moves to the next packet, or to the end of the file, exactly when it takes an acknowledgement. */
  lemma SenderAdvances(file: seq<byte>, header: seq<byte>, y: System, reply: Reply)
    requires SenderAt(file, y) && Transmitting(y.tx)
    ensures var z := SenderStep(file, y, reply);
            && SenderAt(file, z)
            && (Transmitting(z.tx) ==> Out(file, z.tx) == Tagged(file, header, Current(z)))
            && (z.acked > y.acked <==> reply == Got(ACK) && y.acked < Count(file))
            && y.acked <= z.acked <= y.acked + 1
  {
    hide Rest, Prefix, Count, Payload, Frame, PacketSize, ByteOfCount;
    BlockNumber(Current(y));
    BlockNumber(Current(y) + 1);
    if y.tx.Sending? {
      SentNext(file, y.tx.ptr, y.acked);
      OneWait(file, y.tx.ptr, y.tx.blk, y.tx.errors, reply);
    }
  }

  lemma BlockNumber(n: nat)
    ensures ByteOfCount(n % 0x1_0000) == ByteOfCount(n)
    ensures (n % 0x1_0000 + 1) % 0x1_0000 == (n + 1) % 0x1_0000
  {
    var q, r := n / 0x1_0000, n % 0x1_0000;
    assert n == 256 * (256 * q) + r;
    ModAddMultiple(r, 256 * q, 256);
  }

  lemma LineGrows(file: seq<byte>, header: seq<byte>, y: System, z: System)
    requires LineAt(file, header, y) && y.acked <= z.acked <= y.acked + 1
    requires z.acked > y.acked ==> forall i :: 0 <= i < |y.tags| ==> y.tags[i] == Current(y)
    requires (z.wire == y.wire && z.tags == y.tags)
          || exists f ::
               f == Tagged(file, header, Current(z)) && z.wire == y.wire + [f] && z.tags == y.tags + [Current(z)]
    ensures LineAt(file, header, z)
    ensures z.acked > y.acked || (forall i :: 0 <= i < |y.tags| ==> y.tags[i] == Current(y)) ==>
      forall i :: 0 <= i < |z.tags| ==> y.tags + [Current(z)] == z.tags || z.tags[i] == Current(y)
  {
    hide Tagged;
  }

  /** A reply changes nothing at the receiver; an acknowledgement closes the gap in the counts. */
  lemma CountsAgree(file: seq<byte>, y: System, z: System)
    requires ReceiverAt(file, y) && z.rx == y.rx
    requires if z.acked > y.acked then z.acked == y.acked + 1 <= Count(file) && Acks(y.back) == Acks(z.back) + 1
             else z.acked == y.acked && Acks(z.back) <= Acks(y.back)
    requires z.tags == y.tags || z.tags == y.tags + [Current(z)]
    ensures ReceiverAt(file, z)
    ensures z.acked > y.acked ==> y.rx.count == Current(y) + 1
  {
    hide Prefix, Count, Acks;
  }

  lemma SenderKeeps(file: seq<byte>, header: seq<byte>, y: System, reply: Reply, y': System)
    requires Inv(file, header, y) && Transmitting(y.tx)
    requires y' == if reply.Got? then y.(back := y'.back) else y
    requires reply.Got? ==> y.back == [reply.c] + y'.back
    ensures Inv(file, header, SenderStep(file, y', reply))
  {
    hide Tagged, Rest, Prefix, Count, Payload, Frame, Acks, Out, SenderAfter, LineAt, ReceiverAt;
    if reply.Got? {
      AcksHead(y.back);
    }
    assert SenderAt(file, y');
    SenderAdvances(file, header, y', reply);
    var z := SenderStep(file, y', reply);
    CountsAgree(file, y, z);
    SameLine(file, header, y, y');
    if z.acked > y.acked {
      AllCurrent(file, y);
    }
    LineGrows(file, header, y', z);
  }

  lemma SameLine(file: seq<byte>, header: seq<byte>, y: System, z: System)
    requires LineAt(file, header, y) && z == y.(back := z.back)
    ensures LineAt(file, header, z)
  {
    hide Tagged;
  }

  lemma AllCurrent(file: seq<byte>, y: System)
    requires ReceiverAt(file, y) && y.rx.count == Current(y) + 1
    ensures forall i :: 0 <= i < |y.tags| ==> y.tags[i] == Current(y)
  {
  }

  lemma AcksHead(back: seq<byte>)
    requires |back| > 0
    ensures Acks(back) == (if back[0] == ACK then 1 else 0) + Acks(back[1..])
  {
  }

  lemma SentNext(file: seq<byte>, ptr: nat, k: nat)
    requires ptr < |file| && k < Count(file) && file[ptr..] == Rest(file, k)
    ensures var left := |file| - ptr;
            if left > PacketSize(left) then k + 1 < Count(file) && file[ptr + PacketSize(left)..] == Rest(file, k + 1)
            else k + 1 == Count(file)
  {
    RestStep(file, k);
    RestStep(file, k + 1);
    hide Rest;
    assert Count([]) == 0;
  }

  lemma StepKeeps(file: seq<byte>, header: seq<byte>, y: System, e: Event)
    requires IsHeader(header) && Inv(file, header, y) && Enabled(file, y, e)
    ensures Inv(file, header, After(file, y, e))
  {
    match e
    case SenderHears =>
      hide Inv;
      assert y.back == [y.back[0]] + y.back[1..];
      SenderKeeps(file, header, y, Got(y.back[0]), y.(back := y.back[1..]));
    case SenderTimesOut =>
      hide Inv;
      SenderKeeps(file, header, y, Silence, y);
    case ReceiverHears(_) =>
      hide Inv;
      ReceiverKeeps(file, header, y, e);
    case ReceiverTimesOut =>
      hide Inv;
      ReceiverKeeps(file, header, y, e);
    case FrameLost(_) =>
      hide Inv;
      LoseKeeps(file, header, y, e);
    case ReplyLost(_) =>
      hide Inv;
      LoseKeeps(file, header, y, e);
  }

  // ----- what holds over every run -----

  /** states is a run driven by events. */
  ghost predicate Run(file: seq<byte>, header: seq<byte>, states: seq<System>, events: seq<Event>) {
    && |states| == |events| + 1 && Start(file, header, states[0])
    && forall i :: 0 <= i < |events| ==>
         Enabled(file, states[i], events[i]) && states[i + 1] == After(file, states[i], events[i])
  }

  lemma {:induction false} RunKeeps(file: seq<byte>, header: seq<byte>, states: seq<System>, events: seq<Event>, n: nat)
    requires Run(file, header, states, events) && n <= |events|
    ensures Inv(file, header, states[n])
  {
    hide Inv, After, Enabled, Start;
    if n == 0 {
      StartInv(file, header, states[0]);
    } else {
      RunKeeps(file, header, states, events, n - 1);
      assert IsHeader(header) by { HeaderGiven(file, header, states[0]); }
      StepKeeps(file, header, states[n - 1], events[n - 1]);
    }
  }

  lemma HeaderGiven(file: seq<byte>, header: seq<byte>, y: System)
    requires Start(file, header, y)
    ensures IsHeader(header)
  {
    hide IsHeader;
  }

  /**
   * However frames and replies are lost or delayed, the flash holds a whole number of packets of the file filled
   * with 0x1A; the sender's acknowledged count and the receiver's count differ by at most one; and once the
   * sender has left its data loop without giving up, or the receiver has seen the end of the file, the flash
   * holds the whole filled file.
   */
  lemma {:induction false} TransferSafe(file: seq<byte>, header: seq<byte>, states: seq<System>, events: seq<Event>,
                                        n: nat)
      returns (fill: nat)
    requires Run(file, header, states, events) && n <= |events|
    ensures var y := states[n];
            && fill < SMALL && (|file| + fill) % SMALL == 0
            && 1 <= y.rx.count && y.acked <= y.rx.count - 1 <= y.acked + 1
            && y.rx.written == Prefix(file, y.rx.count - 1) && y.rx.written <= file + Fill(fill)
            && (y.tx.Closing? || y.tx.Finished? || y.rx.status == FileDone ==> y.rx.written == file + Fill(fill))
  {
    hide Prefix, Count, Rest, Payload, Fill, Acks, Tagged;
    RunKeeps(file, header, states, events, n);
    fill := WholeFile(file);
    PrefixGrows(file, states[n].rx.count - 1);
  }

  // ----- a lost acknowledgement -----

  /** The receiver is one packet ahead and no acknowledgement is under way. */
  ghost predicate Stuck(file: seq<byte>, y: System) {
    y.acked < Count(file) && y.rx.count == Current(y) + 1 && Acks(y.back) == 0
  }

  /** The line drops the acknowledgement of a data packet. */
  ghost predicate LosesAck(file: seq<byte>, y: System, e: Event) {
    e.ReplyLost? && e.i < |y.back| && y.back[e.i] == ACK && y.acked < Count(file)
  }

  lemma AcksSplit(back: seq<byte>, i: nat)
    requires i < |back|
    ensures Acks(back) == Acks(Without(back, i)) + if back[i] == ACK then 1 else 0
  {
    hide Acks;
    assert back == back[..i] + ([back[i]] + back[i + 1..]);
    AcksConcat(back[..i], [back[i]] + back[i + 1..]);
    AcksConcat([back[i]], back[i + 1..]);
    AcksConcat(back[..i], back[i + 1..]);
    AcksOfShort(back[i]);
  }

  lemma AckOfPacketInHand(file: seq<byte>, header: seq<byte>, y: System, i: nat)
    requires Inv(file, header, y) && i < |y.back| && y.back[i] == ACK && y.acked < Count(file)
    ensures y.rx.count == Current(y) + 1 && Acks(y.back) == 1 && Acks(Without(y.back, i)) == 0
  {
    hide Acks, SenderAt, LineAt, Prefix, Count;
    AcksSplit(y.back, i);
  }

  /** Nothing but the loss of an acknowledgement leads into this state, and nothing leads out of it. */
  lemma StuckStep(file: seq<byte>, header: seq<byte>, y: System, e: Event)
    requires IsHeader(header) && Inv(file, header, y) && Enabled(file, y, e)
    ensures Stuck(file, After(file, y, e)) <==> Stuck(file, y) || LosesAck(file, y, e)
    ensures Stuck(file, y) ==> After(file, y, e).acked == y.acked
  {
    hide Inv, Acks;
    match e
    case SenderHears =>
      SenderStuck(file, header, y, Got(y.back[0]), y.(back := y.back[1..]));
    case SenderTimesOut =>
      SenderStuck(file, header, y, Silence, y);
    case ReceiverHears(works) =>
      ReceiverStuck(file, header, y, e);
    case ReceiverTimesOut =>
      ReceiverStuck(file, header, y, e);
    case FrameLost(_) =>
    case ReplyLost(i) =>
      AcksSplit(y.back, i);
      if LosesAck(file, y, e) {
        AckOfPacketInHand(file, header, y, i);
      }
  }

  lemma SenderStuck(file: seq<byte>, header: seq<byte>, y: System, reply: Reply, y': System)
    requires Inv(file, header, y) && Transmitting(y.tx)
    requires y' == if reply.Got? then y.(back := y'.back) else y
    requires reply.Got? ==> y.back == [reply.c] + y'.back
    ensures var z := SenderStep(file, y', reply);
            (Stuck(file, z) <==> Stuck(file, y)) && (Stuck(file, y) ==> z.acked == y.acked)
  {
    hide Tagged, Rest, Prefix, Count, Payload, Frame, Acks, Out, SenderAfter, LineAt;
    if reply.Got? {
      AcksHead(y.back);
    }
    assert SenderAt(file, y');
    SenderAdvances(file, header, y', reply);
  }

  lemma ReceiverStuck(file: seq<byte>, header: seq<byte>, y: System, e: Event)
    requires IsHeader(header) && Inv(file, header, y) && Enabled(file, y, e)
      && (e.ReceiverHears? || e.ReceiverTimesOut?)
    ensures Stuck(file, After(file, y, e)) <==> Stuck(file, y)
  {
    hide Tagged, Rest, Prefix, Count, Payload, Frame, Parse, Acks;
    if e.ReceiverTimesOut? {
      var (r, replies) := ReceiverAfter(y.rx, Fault, true);
      AcksConcat(y.back, replies);
      AcksOfShort(REQUEST);
    } else {
      NoAlias(file, header, y);
      var (r, replies) := ReceiverAfter(y.rx, Parse(y.wire[0]), e.works);
      AcksConcat(y.back, replies);
      AcksOfShort(NAK);
      AcksOfShort(ACK);
    }
  }

  lemma StartNotStuck(file: seq<byte>, header: seq<byte>, y: System)
    requires Start(file, header, y)
    ensures !Stuck(file, y)
  {
  }

  lemma StuckIsOpen(file: seq<byte>, header: seq<byte>, y: System)
    requires Inv(file, header, y) && Stuck(file, y)
    ensures !y.tx.Closing? && !y.tx.Finished?
  {
  }

  /**
   * The receiver answers a repeated packet with NAK. So a run is stuck exactly when the acknowledgement of some
   * data packet was lost, and from that loss on the sender never advances and never finishes: it repeats the
   * packet until it gives up, although the receiver has it.
   */
  lemma {:induction false} LostAckIsFatal(file: seq<byte>, header: seq<byte>, states: seq<System>, events: seq<Event>,
                                          n: nat)
    requires Run(file, header, states, events) && n <= |events|
    ensures Stuck(file, states[n]) <==> exists m :: 0 <= m < n && LosesAck(file, states[m], events[m])
    ensures forall m :: 0 <= m < n && LosesAck(file, states[m], events[m]) ==> states[n].acked == states[m].acked
    ensures Stuck(file, states[n]) ==> !states[n].tx.Closing? && !states[n].tx.Finished?
  {
    hide After, Enabled, Stuck, Start, LosesAck, Inv;
    RunKeeps(file, header, states, events, n);
    if n == 0 {
      StartNotStuck(file, header, states[0]);
    } else {
      var y, e := states[n - 1], events[n - 1];
      LostAckIsFatal(file, header, states, events, n - 1);
      RunKeeps(file, header, states, events, n - 1);
      HeaderGiven(file, header, states[0]);
      StuckStep(file, header, y, e);
      LossKeepsCount(file, y, e);
    }
    if Stuck(file, states[n]) {
      StuckIsOpen(file, header, states[n]);
    }
  }

  lemma LossKeepsCount(file: seq<byte>, y: System, e: Event)
    requires Enabled(file, y, e)
    ensures LosesAck(file, y, e) ==> After(file, y, e).acked == y.acked
  {
  }

  // ----- when the sender can still advance -----

  ghost predicate Possible(file: seq<byte>, y: System, events: seq<Event>)
    decreases |events|
  {
    |events| > 0 ==> Enabled(file, y, events[0]) && Possible(file, After(file, y, events[0]), events[1..])
  }

  ghost function Reached(file: seq<byte>, y: System, events: seq<Event>): System
    requires Possible(file, y, events)
    decreases |events|
  {
    if |events| == 0 then y else Reached(file, After(file, y, events[0]), events[1..])
  }

  /**
   * What an advance needs: an acknowledgement under way; or a receiver still waiting for the packet in hand, and
   * that packet under way or an attempt left to send it again.
   */
  ghost predicate Hopeful(y: System) {
    && y.tx.Sending?
    && (|| Acks(y.back) > 0
        || (y.rx.status == Receiving && y.rx.count == Current(y)
            && (Current(y) in y.tags || y.tx.errors + 1 < SEND_ATTEMPTS)))
  }

  lemma FirstEvent(file: seq<byte>, y: System, e: Event, more: seq<Event>)
    requires Enabled(file, y, e) && Possible(file, After(file, y, e), more)
    ensures Possible(file, y, [e] + more)
    ensures Reached(file, y, [e] + more) == Reached(file, After(file, y, e), more)
  {
    hide Enabled, After;
    assert ([e] + more)[1..] == more;
  }

  lemma LastEvent(file: seq<byte>, y: System, e: Event)
    requires Enabled(file, y, e)
    ensures Possible(file, y, [e]) && Reached(file, y, [e]) == After(file, y, e)
  {
    FirstEvent(file, y, e, []);
    assert [e] + [] == [e];
  }

  /** An acknowledgement under way is heard if the line loses the replies before it. */
  lemma {:induction false} HearAck(file: seq<byte>, header: seq<byte>, y: System) returns (events: seq<Event>)
    requires Inv(file, header, y) && y.tx.Sending? && Acks(y.back) > 0
    ensures Possible(file, y, events) && Reached(file, y, events).acked == y.acked + 1
    decreases |y.back|
  {
    hide Tagged, Rest, Prefix, Count, Payload, Frame, Out, Possible, Reached, SenderAfter;
    AcksHead(y.back);
    if y.back[0] == ACK {
      LastEvent(file, y, SenderHears);
      events := [SenderHears];
    } else {
      LoseKeeps(file, header, y, ReplyLost(0));
      assert Without(y.back, 0) == y.back[1..];
      var more := HearAck(file, header, After(file, y, ReplyLost(0)));
      FirstEvent(file, y, ReplyLost(0), more);
      events := [ReplyLost(0)] + more;
    }
  }

  /** The packet in hand is taken if the line loses the packets before it. */
  lemma {:induction false} Deliver(file: seq<byte>, header: seq<byte>, y: System) returns (events: seq<Event>)
    requires IsHeader(header) && Inv(file, header, y) && y.tx.Sending?
    requires y.rx.status == Receiving && y.rx.count == Current(y) && Current(y) in y.tags
    ensures Possible(file, y, events) && Reached(file, y, events).acked == y.acked + 1
    decreases |y.wire|
  {
    hide Tagged, Rest, Prefix, Count, Payload, Frame, Parse, Out, Possible, Reached, SenderAfter;
    var e, more;
    if y.tags[0] == Current(y) {
      e := ReceiverHears(true);
      NoAlias(file, header, y);
      AcksConcat(y.back, [ACK]);
      AcksOfShort(ACK);
      ReceiverKeeps(file, header, y, e);
      more := HearAck(file, header, After(file, y, e));
    } else {
      e := FrameLost(0);
      LoseKeeps(file, header, y, e);
      assert Without(y.tags, 0) == y.tags[1..];
      more := Deliver(file, header, After(file, y, e));
    }
    FirstEvent(file, y, e, more);
    events := [e] + more;
  }

  lemma {:induction false} Advances(file: seq<byte>, header: seq<byte>, y: System) returns (events: seq<Event>)
    requires IsHeader(header) && Inv(file, header, y) && Hopeful(y)
    ensures Possible(file, y, events) && Reached(file, y, events).acked == y.acked + 1
  {
    hide Inv, Acks, Possible, Reached, Enabled, Out;
    if Acks(y.back) > 0 {
      events := HearAck(file, header, y);
    } else if Current(y) in y.tags {
      events := Deliver(file, header, y);
    } else {
      SendsAgain(file, header, y);
      SenderKeeps(file, header, y, Silence, y);
      var more := Deliver(file, header, After(file, y, SenderTimesOut));
      FirstEvent(file, y, SenderTimesOut, more);
      events := [SenderTimesOut] + more;
    }
  }

  lemma SendsAgain(file: seq<byte>, header: seq<byte>, y: System)
    requires Inv(file, header, y) && y.tx.Sending? && y.tx.errors + 1 < SEND_ATTEMPTS
    ensures Enabled(file, y, SenderTimesOut)
    ensures var z := After(file, y, SenderTimesOut);
            z == y.(tx := z.tx, wire := z.wire, tags := y.tags + [Current(y)]) && z.tx.Sending?
  {
    hide Tagged, Rest, Prefix, Count, Payload, Frame, Out, Acks;
  }

  /** Without hope a step does not advance, and brings no hope. */
  lemma HopelessStep(file: seq<byte>, header: seq<byte>, y: System, e: Event)
    requires IsHeader(header) && Inv(file, header, y) && !Hopeful(y) && Enabled(file, y, e)
    ensures var z := After(file, y, e); !Hopeful(z) && z.acked == y.acked
  {
    hide Tagged, Rest, Prefix, Count, Payload, Frame, Parse, Out, Acks;
    match e
    case SenderHears => AcksHead(y.back);
    case SenderTimesOut =>
    case ReceiverHears(works) =>
      NoAlias(file, header, y);
      var (r, replies) := ReceiverAfter(y.rx, Parse(y.wire[0]), works);
      AcksConcat(y.back, replies);
      AcksOfShort(NAK);
    case ReceiverTimesOut =>
      var (r, replies) := ReceiverAfter(y.rx, Fault, true);
      AcksConcat(y.back, replies);
      AcksOfShort(REQUEST);
    case FrameLost(_) =>
    case ReplyLost(i) =>
      AcksWithout(y.back, i);
  }

  lemma {:induction false} Hopeless(file: seq<byte>, header: seq<byte>, y: System, events: seq<Event>)
    requires IsHeader(header) && Inv(file, header, y) && !Hopeful(y) && Possible(file, y, events)
    ensures Reached(file, y, events).acked == y.acked
    decreases |events|
  {
    hide Inv, Hopeful, Enabled, After;
    if |events| > 0 {
      HopelessStep(file, header, y, events[0]);
      StepKeeps(file, header, y, events[0]);
      Hopeless(file, header, After(file, y, events[0]), events[1..]);
    }
  }

  /** Some future of the transfer takes the sender to its next packet exactly when there is hope. */
  lemma AdvancePossible(file: seq<byte>, header: seq<byte>, y: System)
    requires IsHeader(header) && Inv(file, header, y)
    ensures Hopeful(y) <==> exists events :: Possible(file, y, events) && Reached(file, y, events).acked > y.acked
    ensures Stuck(file, y) ==> !Hopeful(y)
    ensures y.tx.Sending? && y.rx.status == Receiving && y.tx.errors + 1 < SEND_ATTEMPTS ==>
      (Stuck(file, y) <==> !Hopeful(y))
  {
    hide Possible, Reached, Acks, Count, Prefix, LineAt;
    if Hopeful(y) {
      var events := Advances(file, header, y);
      assert Possible(file, y, events) && Reached(file, y, events).acked > y.acked;
    } else {
      forall events | Possible(file, y, events) ensures Reached(file, y, events).acked == y.acked {
        Hopeless(file, header, y, events);
      }
    }
  }

  /**
   * From every start with nothing else under way, taking the first packet and losing its acknowledgement is such a
   * run.
   */
  lemma LostFirstAck(file: seq<byte>, header: seq<byte>, y: System)
    requires Start(file, header, y) && |file| > 0 && |y.wire| == 1 && y.back == []
    ensures var events := [ReceiverHears(true), ReplyLost(0)];
            && Possible(file, y, events)
            && var z := Reached(file, y, events); Stuck(file, z) && z.rx.written == Prefix(file, 1) && z.acked == 0
  {
    hide Inv, Payload, Count, Prefix, Rest, Possible, Reached, Enabled, After, Stuck;
    StartInv(file, header, y);
    StartParts(file, header, y);
    FirstTaken(file, header, y);
    var y1 := After(file, y, ReceiverHears(true));
    StepKeeps(file, header, y, ReceiverHears(true));
    StuckStep(file, header, y1, ReplyLost(0));
    LastEvent(file, y1, ReplyLost(0));
    FirstEvent(file, y, ReceiverHears(true), [ReplyLost(0)]);
    assert [ReceiverHears(true)] + [ReplyLost(0)] == [ReceiverHears(true), ReplyLost(0)];
  }

  lemma StartParts(file: seq<byte>, header: seq<byte>, y: System)
    requires Start(file, header, y) && |file| > 0 && |y.wire| == 1
    ensures SenderValid(file, y.tx) && y.rx == Receiver(1, 0, [], Receiving) && y.acked == 0 && |y.tags| == 1
      && y.tags[0] == 1
  {
    hide IsHeader, Frame, Payload;
  }

  lemma FirstTaken(file: seq<byte>, header: seq<byte>, y: System)
    requires |file| > 0 && IsHeader(header) && Inv(file, header, y)
    requires SenderValid(file, y.tx) && y.rx == Receiver(1, 0, [], Receiving) && y.acked == 0
    requires |y.wire| == |y.tags| == 1 && y.tags[0] == 1 && y.back == []
    ensures Enabled(file, y, ReceiverHears(true))
    ensures var z := After(file, y, ReceiverHears(true));
            && Enabled(file, z, ReplyLost(0)) && LosesAck(file, z, ReplyLost(0))
            && var z' := After(file, z, ReplyLost(0)); z'.acked == 0 && z'.rx.written == Prefix(file, 1)
  {
    hide Inv, Tagged, Payload, Frame, Parse, Count, Prefix, Rest, Acks, Out, SenderValid;
    NoAlias(file, header, y);
    CountStep(file);
    PrefixStep(file, 0);
    PrefixStart(file);
  }

  lemma PrefixStart(file: seq<byte>)
    ensures Prefix(file, 0) == [] && Rest(file, 0) == file
  {
  }

  /**
   * The sender advances exactly on an acknowledgement, and while it is in its data loop that is always of the packet
   * in hand.
   */
  lemma AckMeansStored(file: seq<byte>, header: seq<byte>, y: System)
    requires Inv(file, header, y) && y.tx.Sending? && |y.back| > 0 && y.back[0] == ACK
    ensures y.rx.count == Current(y) + 1
    ensures y.rx.written == Prefix(file, y.acked) + Payload(file[y.tx.ptr..])
  {
    hide Prefix, Count, Rest, Payload;
    AcksHead(y.back);
    PrefixStep(file, y.acked);
  }
}

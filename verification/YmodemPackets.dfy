/** How the YMODEM sender cuts a file into packets and how the receiver reads one back. */
module YmodemPackets {
  import opened Arithmetic
  import opened FlashDriver
  import Crc16

  const SOH: byte := 0x01
  const STX: byte := 0x02
  const EOT: byte := 0x04
  const ACK: byte := 0x06
  const NAK: byte := 0x15
  const CA: byte := 0x18
  const REQUEST: byte := 0x43  // 'C'
  const ABORT1: byte := 0x41
  const ABORT2: byte := 0x61
  const FILL: byte := 0x1A
  const SMALL: int := 128
  const LARGE: int := 1024

  // ----- cutting the file -----

  function PacketSize(n: nat): nat { if n >= LARGE then LARGE else SMALL }

  function Fill(n: nat): (r: seq<byte>)
    ensures |r| == n && forall i :: 0 <= i < n ==> r[i] == FILL
  {
    seq(n, i => FILL)
  }

  /** What the next packet carries: the next bytes of the file, filled up to the packet size. */
  function Payload(file: seq<byte>): (r: seq<byte>)
    ensures |r| == PacketSize(|file|)
  {
    var n := PacketSize(|file|);
    if |file| >= n then file[..n] else file + Fill(n - |file|)
  }

  /** The file after one packet. */
  function Drop(file: seq<byte>): (r: seq<byte>)
    ensures |file| > 0 ==> |r| < |file|
  {
    if |file| > PacketSize(|file|) then file[PacketSize(|file|)..] else []
  }

  function Count(file: seq<byte>): nat
    decreases |file|
  {
    if |file| == 0 then 0 else 1 + Count(Drop(file))
  }

  /** The file after k packets. */
  function Rest(file: seq<byte>, k: nat): seq<byte>
    decreases k, file
  {
    if k == 0 then file else Rest(Drop(file), k - 1)
  }

  /** What the first k packets carry. */
  function Prefix(file: seq<byte>, k: nat): seq<byte>
    decreases k, file
  {
    if k == 0 || |file| == 0 then [] else Payload(file) + Prefix(Drop(file), k - 1)
  }

  lemma {:induction false} RestStep(file: seq<byte>, k: nat)
    ensures Rest(file, k + 1) == Drop(Rest(file, k))
    ensures k <= Count(file) ==> Count(Rest(file, k)) == Count(file) - k
    decreases k
  {
    hide Drop;
    assert Rest(file, 1) == Rest(Drop(file), 0);
    if k > 0 {
      RestStep(Drop(file), k - 1);
      if k <= Count(file) {
        assert |file| > 0;
      }
    }
  }

  lemma {:induction false} PrefixStep(file: seq<byte>, k: nat)
    requires k < Count(file)
    ensures Prefix(file, k + 1) == Prefix(file, k) + Payload(Rest(file, k))
    decreases k
  {
    hide Drop, Payload;
    assert |file| > 0;
    if k > 0 {
      PrefixStep(Drop(file), k - 1);
    } else {
      assert Prefix(Drop(file), 0) == [];
    }
  }

  /** All packets together carry the file and fewer than 128 fill bytes. */
  lemma {:induction false} WholeFile(file: seq<byte>) returns (fill: nat)
    ensures fill < SMALL && (|file| + fill) % SMALL == 0
    ensures Prefix(file, Count(file)) == file + Fill(fill)
    decreases |file|
  {
    hide Prefix, Count;
    UnfoldPrefix(file);
    if |file| == 0 {
      fill := 0;
    } else if |file| > PacketSize(|file|) {
      fill := WholeFile(Drop(file));
      FillLater(file, fill);
    } else {
      fill := PacketSize(|file|) - |file|;
      UnfoldPrefix([]);
    }
  }

  lemma FillLater(file: seq<byte>, fill: nat)
    requires |file| > PacketSize(|file|)
    ensures Payload(file) + (Drop(file) + Fill(fill)) == file + Fill(fill)
    ensures (|Drop(file)| + fill) % SMALL == (|file| + fill) % SMALL
  {
    var n := PacketSize(|file|);
    assert Payload(file) + (file[n..] + Fill(fill)) == (file[..n] + file[n..]) + Fill(fill);
  }

  lemma UnfoldPrefix(file: seq<byte>)
    ensures Prefix(file, Count(file)) ==
            if |file| == 0 then [] else Payload(file) + Prefix(Drop(file), Count(Drop(file)))
  {
    hide Payload, Drop, Prefix, Count;
    UnfoldOne(file, Count(file));
    CountStep(file);
  }

  lemma CountStep(file: seq<byte>)
    ensures Count(file) == if |file| == 0 then 0 else 1 + Count(Drop(file))
  {
    hide Drop;
  }

  lemma UnfoldOne(file: seq<byte>, k: nat)
    ensures Prefix(file, k) == if k == 0 || |file| == 0 then [] else Payload(file) + Prefix(Drop(file), k - 1)
  {
    hide Payload, Drop, Count;
  }

  /** The first k packets carry a prefix of the filled file. */
  lemma {:induction false} PrefixGrows(file: seq<byte>, k: nat)
    requires k <= Count(file)
    ensures Prefix(file, k) <= Prefix(file, Count(file))
    decreases Count(file) - k
  {
    hide Prefix, Payload, Rest, Count;
    if k < Count(file) {
      PrefixStep(file, k);
      PrefixGrows(file, k + 1);
    }
  }

  // ----- packets on the wire -----

  function ByteOfCount(n: nat): byte { n % 256 }

  /** Start byte, number, its complement, payload, CRC-16 high byte first. */
  function Frame(no: byte, payload: seq<byte>): seq<byte> {
    [if |payload| == LARGE then STX else SOH, no, 255 - no] + payload
    + [Crc16.Digest(payload) / 256, Crc16.Digest(payload) % 256]
  }

  /** What one call of the packet reader can report. Fault covers a timeout and a malformed packet. */
  datatype Packet = Fault | UserAbort | SenderAbort | EndOfFile | Data(no: byte, payload: seq<byte>)

  /** The bytes that arrive before the line falls silent, as a packet. */
  function Parse(wire: seq<byte>): Packet {
    if |wire| == 0 then Fault
    else if wire[0] == EOT then EndOfFile
    else if wire[0] == CA then (if |wire| > 1 && wire[1] == CA then SenderAbort else Fault)
    else if wire[0] == ABORT1 || wire[0] == ABORT2 then UserAbort
    else if wire[0] != SOH && wire[0] != STX then Fault
    else
      var size: nat := if wire[0] == SOH then SMALL else LARGE;
      if |wire| < size + 5 || wire[1] != XorByte(wire[2], 255) then Fault
      else Data(wire[1], wire[3..3 + size])
  }

  lemma {:induction false} ComplementIsXor(x: nat, k: nat)
    requires x < Pow2(k)
    ensures Xor(x, Pow2(k) - 1) == Pow2(k) - 1 - x
  {
    hide Xor;
    XorStep(x, Pow2(k) - 1);
    if k > 0 {
      ComplementIsXor(x / 2, k - 1);
      assert Pow2(k) == 2 * Pow2(k - 1);
      hide Pow2;
      assert (Pow2(k) - 1) / 2 == Pow2(k - 1) - 1 && (Pow2(k) - 1) % 2 == 1;
    }
  }

  /** The reader recovers what the sender framed. */
  lemma {:induction false} ParseFrame(no: byte, payload: seq<byte>)
    requires |payload| == SMALL || |payload| == LARGE
    ensures Parse(Frame(no, payload)) == Data(no, payload)
  {
    assert XorByte(255 - no, 255) == no by {
      hide Xor;
      Pow2Table();
      ComplementIsXor(255 - no, 8);
    }
    hide Crc16.Digest, XorByte;
    var f := Frame(no, payload);
    assert f[1] == no && f[2] == 255 - no;
    assert f[3..3 + |payload|] == payload;
  }

  /** Receive_Packet, over the bytes that arrive. */
  method ReceivePacket(wire: seq<byte>) returns (p: Packet)
    ensures p == Parse(wire)
  {
    hide XorByte;
    if |wire| == 0 {
      return Fault;
    }
    var c := wire[0];
    var packetSize: nat;
    match c {
      case 0x01 => packetSize := SMALL;
      case 0x02 => packetSize := LARGE;
      case 0x04 => return EndOfFile;
      case 0x18 => return if |wire| > 1 && wire[1] == CA then SenderAbort else Fault;
      case 0x41 => return UserAbort;
      case 0x61 => return UserAbort;
      case _ => return Fault;
    }
    var data := new byte[packetSize + 5](i => 0);
    data[0] := c;
    for i := 1 to packetSize + 5
      invariant i <= |wire| && data[..i] == wire[..i]
    {
      if i >= |wire| {
        return Fault;
      }
      data[i] := wire[i];
      assert data[..i + 1] == data[..i] + [wire[i]];
    }
    assert data[..packetSize + 5] == data[..];
    assert forall k :: 0 <= k < packetSize + 5 ==> data[..][k] == wire[k];
    if data[1] != XorByte(data[2], 255) {
      return Fault;
    }
    assert data[3..3 + packetSize] == wire[3..3 + packetSize];
    return Data(data[1], data[3..3 + packetSize]);
  }

  /** Ymodem_PreparePacket with its CRC: left bytes of the file remain, starting at ptr. */
  method PreparePacket(file: seq<byte>, ptr: nat, pktNo: byte, left: nat) returns (frame: seq<byte>)
    requires ptr + left == |file| && left > 0
    ensures frame == Frame(pktNo, Payload(file[ptr..]))
  {
    hide Payload, Fill, Crc16.Digest;
    var packetSize := if left >= LARGE then LARGE else SMALL;
    var size := if left < packetSize then left else packetSize;
    var data := new byte[packetSize + 3](i => 0);
    data[0] := if packetSize == LARGE then STX else SOH;
    data[1] := pktNo;
    data[2] := 255 - pktNo;
    ghost var header := data[..3];
    assert header == [if packetSize == LARGE then STX else SOH, pktNo, 255 - pktNo];
    CopyFile(data, file[ptr..ptr + size]);
    FillUp(data, size + 3);
    PayloadParts(file, ptr);
    assert data[..] == header + Payload(file[ptr..]);
    assert data[3..packetSize + 3] == Payload(file[ptr..]);
    frame := Sealed(data[..], data[3..packetSize + 3]);
  }

  /** platform_flash_read behind the three header bytes */
  method CopyFile(data: array<byte>, part: seq<byte>)
    requires 3 + |part| <= data.Length
    modifies data
    ensures data[..] == old(data[..3]) + part + old(data[3 + |part|..])
  {
    ghost var before := data[..];
    for i := 0 to |part|
      invariant data[..] == before[..3] + part[..i] + before[3 + i..]
    {
      data[3 + i] := part[i];
    }
  }

  method FillUp(data: array<byte>, from: nat)
    requires from <= data.Length
    modifies data
    ensures data[..] == old(data[..from]) + Fill(data.Length - from)
  {
    ghost var before := data[..];
    for i := from to data.Length
      invariant data[..] == before[..from] + Fill(i - from) + before[i..]
    {
      data[i] := FILL;
    }
  }

  lemma PayloadParts(file: seq<byte>, ptr: nat)
    requires ptr < |file|
    ensures var left := |file| - ptr;
            var size := if left < PacketSize(left) then left else PacketSize(left);
            Payload(file[ptr..]) == file[ptr..ptr + size] + Fill(PacketSize(left) - size)
  {
    var rest := file[ptr..];
    assert forall n :: 0 <= n <= |rest| ==> rest[..n] == file[ptr..ptr + n];
  }

  /** Append the CRC-16 of the payload. */
  method Sealed(data: seq<byte>, payload: seq<byte>) returns (frame: seq<byte>)
    ensures frame == data + [Crc16.Digest(payload) / 256, Crc16.Digest(payload) % 256]
  {
    hide Crc16.Register;
    var context := new Crc16.Context();
    context.Update(payload);
    var crc := context.Final();
    Crc16.RegisterConcat(0, payload, [0, 0]);
    frame := data + [crc / 256, crc % 256];
  }
}

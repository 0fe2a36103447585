/** Byte strings and buffers that several components share. */
module Buffers {
  import opened Arithmetic

  function Zeros(n: nat): (z: seq<byte>)
    ensures |z| == n
  {
    seq(n, i => 0)
  }

  /** The pieces of a message, joined. */
  function Flatten(pieces: seq<seq<byte>>): seq<byte> {
    if |pieces| == 0 then [] else Flatten(pieces[..|pieces| - 1]) + pieces[|pieces| - 1]
  }

  /** The cells after data has been written at position at. */
  function Placed(cells: seq<byte>, at: nat, data: seq<byte>): (r: seq<byte>)
    requires at + |data| <= |cells|
    ensures |r| == |cells|
  {
    cells[..at] + data + cells[at + |data|..]
  }

  /** memcpy into a buffer. */
  method CopyInto(buf: array<byte>, off: nat, data: seq<byte>)
    requires off + |data| <= buf.Length
    modifies buf
    ensures buf[..] == old(buf[..off]) + data + old(buf[off + |data|..])
  {
    ghost var before := buf[..];
    for i := 0 to |data|
      invariant buf[..] == before[..off] + data[..i] + before[off + i..]
    {
      buf[off + i] := data[i];
    }
  }

  lemma Regroup4(a: seq<byte>, b: seq<byte>, c: seq<byte>, d: seq<byte>)
    ensures a + b + c + d == a + (b + c + d) == a + (b + c) + d
  {
  }
}

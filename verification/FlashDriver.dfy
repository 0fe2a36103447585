/**
 * NOR flash partitions as the MICO flash driver exposes them. Erasing sets whole sectors to 0xFF, writing can
 * only clear bits, and the supply may fail before any erase or write.
 */
module FlashDriver {
  import opened Arithmetic

  datatype Partition = Bootloader | Application | OtaTemp | RfFirmware | Parameter1 | Parameter2

  datatype Status = NoErr | ParamErr | WriteErr | PowerLost

  type Cells = map<Partition, seq<byte>>

  const BLANK: byte := 0xFF

  function Blank(n: nat): (r: seq<byte>)
    ensures |r| == n && forall i :: 0 <= i < n ==> r[i] == BLANK
  {
    seq(n, i => BLANK)
  }

  ghost predicate AllBlank(c: seq<byte>) { forall i :: 0 <= i < |c| ==> c[i] == BLANK }

  /** The contents after erasing every sector that [off, off + size) touches. */
  function EraseCells(c: seq<byte>, sector: nat, off: nat, size: nat): (r: seq<byte>)
    requires 0 < sector
    ensures |r| == |c|
  {
    var first, last := off / sector * sector, (off + size + sector - 1) / sector * sector;
    seq(|c|, i requires 0 <= i < |c| => if first <= i < last then BLANK else c[i])
  }

  /** The contents after writing data at off: programming clears bits, never sets them. */
  function WriteCells(c: seq<byte>, off: nat, data: seq<byte>): (r: seq<byte>)
    ensures |r| == |c|
  {
    seq(|c|, i requires 0 <= i < |c| => if off <= i < off + |data| then AndByte(c[i], data[i - off]) else c[i])
  }

  lemma BlankTakesAnyByte(x: byte)
    ensures AndByte(BLANK, x) == x
  {
    hide And;
    Pow2Table();
    AndComm(255, x);
    MaskIsMod(x, 8, 256);
  }

  /** Erasing a whole partition blanks it. */
  lemma EraseAll(c: seq<byte>, sector: nat)
    requires 0 < sector
    ensures EraseCells(c, sector, 0, |c|) == Blank(|c|)
  {
    RoundsUp(|c|, sector);
  }

  lemma RoundsUp(n: nat, sector: nat)
    requires 0 < sector
    ensures 0 / sector * sector == 0
    ensures n <= (n + sector - 1) / sector * sector
  {
    var q, r := (n + sector - 1) / sector, (n + sector - 1) % sector;
    assert n + sector - 1 == q * sector + r;
    DivModUnique(0, sector, 0, 0);
  }

  /** Writing into blank cells stores the data exactly. */
  lemma WriteBlank(c: seq<byte>, off: nat, data: seq<byte>)
    requires off + |data| <= |c| && forall i :: off <= i < off + |data| ==> c[i] == BLANK
    ensures WriteCells(c, off, data) == c[..off] + data + c[off + |data|..]
  {
    hide AndByte;
    var r, end := WriteCells(c, off, data), off + |data|;
    forall i | off <= i < end
      ensures r[i] == data[i - off]
    {
      BlankTakesAnyByte(data[i - off]);
    }
    assert r[..off] == c[..off];
    assert r[off..end] == data;
    assert r[end..] == c[end..];
    assert r == r[..off] + r[off..end] + r[end..];
  }

  class Flash {
    const sector: nat
    const otaStart: nat
    var cells: Cells
    /** Erases and writes left before the supply fails. */
    var power: nat

    /** Six partitions, each a whole number of sectors. */
    ghost predicate Valid()
      reads this
    {
      && 0 < sector
      && (forall p: Partition :: p in cells)
      && (forall p: Partition :: p in cells ==> |cells[p]| % sector == 0)
    }

    /** MicoFlashErase */
    method Erase(p: Partition, off: nat, size: nat) returns (err: Status)
      requires Valid()
      modifies this
      ensures Valid()
      ensures err == (if size == 0 then NoErr else if off + size > |old(cells)[p]| then ParamErr
                      else if old(power) == 0 then PowerLost else NoErr)
      ensures if size > 0 && err == NoErr
              then cells == old(cells)[p := EraseCells(old(cells)[p], sector, off, size)] && power == old(power) - 1
              else cells == old(cells) && power == old(power)
    {
      if size == 0 {
        return NoErr;
      }
      if off + size > |cells[p]| {
        return ParamErr;
      }
      if power == 0 {
        return PowerLost;
      }
      power := power - 1;
      cells := cells[p := EraseCells(cells[p], sector, off, size)];
      return NoErr;
    }

    /** MicoFlashWrite. next is the advanced offset. */
    method Write(p: Partition, off: nat, data: seq<byte>) returns (err: Status, next: nat)
      requires Valid()
      modifies this
      ensures Valid()
      ensures err == (if |data| == 0 then NoErr else if off + |data| > |old(cells)[p]| then ParamErr
                      else if old(power) == 0 then PowerLost else NoErr)
      ensures if |data| > 0 && err == NoErr
              then cells == old(cells)[p := WriteCells(old(cells)[p], off, data)] && power == old(power) - 1
              else cells == old(cells) && power == old(power)
      ensures err == NoErr ==> next == off + |data|
    {
      next := off;
      if |data| == 0 {
        return NoErr, next;
      }
      if off + |data| > |cells[p]| {
        return ParamErr, next;
      }
      if power == 0 {
        return PowerLost, next;
      }
      power := power - 1;
      cells := cells[p := WriteCells(cells[p], off, data)];
      return NoErr, off + |data|;
    }

    /** MicoFlashRead. next is the advanced offset. */
    method Read(p: Partition, off: nat, n: nat) returns (err: Status, data: seq<byte>, next: nat)
      requires Valid()
      ensures err == (if n == 0 || off + n <= |cells[p]| then NoErr else ParamErr)
      ensures err == NoErr ==> next == off + n && |data| == n && (n > 0 ==> data == cells[p][off..off + n])
    {
      if n == 0 {
        return NoErr, [], off;
      }
      if off + n > |cells[p]| {
        return ParamErr, [], off;
      }
      return NoErr, cells[p][off..off + n], off + n;
    }
  }
}

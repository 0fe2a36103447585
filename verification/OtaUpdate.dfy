/** The boot loader's firmware installer: copy the staged image, then clear the update record, then the staging area. */
module OtaUpdate {
  import opened Arithmetic
  import opened FlashDriver

  const BLOCK: nat := 4096
  const RECORD: nat := 24  // sizeof(boot_table_t)

  datatype LogStatus = NotExist | NeedUpdate | UpdateTagNotExist | ContentTypeNotExist | DataLengthOverFlow
    | StartAddressError | CrcError

  // ----- the update record -----

  function StartAddressOf(log: seq<byte>): nat requires |log| == RECORD { LE(log[0..4]) }
  function LengthOf(log: seq<byte>): nat requires |log| == RECORD { LE(log[4..8]) }
  function TypeOf(log: seq<byte>): byte requires |log| == RECORD { log[16] }
  function UpgradeTypeOf(log: seq<byte>): byte requires |log| == RECORD { log[17] }
  function CrcOf(log: seq<byte>): nat requires |log| == RECORD { LE(log[18..20]) }

  /** The partition a record's type letter names: 'B', 'A' or 'D'. */
  function Destination(t: byte): (p: Partition)
  {
    if t == 66 then Bootloader else if t == 65 then Application else RfFirmware
  }

  predicate KnownType(t: byte) { t == 66 || t == 65 || t == 68 }

  /** A 32-bit length as the signed parameter of checkcrc. */
  function AsInt32(x: nat): int { if x < 0x8000_0000 then x else x - 0x1_0000_0000 }

  /**
   * What the checks in updateLogCheck amount to. The stored CRC is never held against the image, and a length that
   * turns negative skips the reads.
   */
  ghost function CheckLog(cells: Cells, otaStart: nat, log: seq<byte>): LogStatus
    requires |log| == RECORD && forall p: Partition :: p in cells
  {
    if AllBlank(log) then NotExist
    else if UpgradeTypeOf(log) != 85 then UpdateTagNotExist
    else if StartAddressOf(log) != otaStart then StartAddressError
    else if !KnownType(TypeOf(log)) then ContentTypeNotExist
    else if LengthOf(log) > |cells[Destination(TypeOf(log))]| then DataLengthOverFlow
    else if CrcOf(log) != 0xFFFF && AsInt32(LengthOf(log)) > |cells[OtaTemp]| then CrcError
    else NeedUpdate
  }

  /** checkcrc: a mismatch is not an error; only a read beyond the staging area is. */
  method CheckCrc(f: Flash, crcIn: nat, totalLen: int) returns (err: Status)
    requires f.Valid()
    ensures err == (if crcIn != 0xFFFF && totalLen > |f.cells[OtaTemp]| then ParamErr else NoErr)
  {
    if crcIn == 0xFFFF {
      return NoErr;
    }
    var offset, left := 0, totalLen;
    while left > 0
      invariant offset + left == totalLen && offset >= 0
      invariant offset > 0 ==> offset <= |f.cells[OtaTemp]|
    {
      var len := if BLOCK < left then BLOCK else left;
      var data, next;
      err, data, next := f.Read(OtaTemp, offset, len);
      if err != NoErr {
        return err;
      }
      offset, left := next, left - len;
    }
    return NoErr;
  }

  method UpdateLogCheck(f: Flash, log: seq<byte>) returns (status: LogStatus, dest: Partition)
    requires f.Valid() && |log| == RECORD
    ensures status == CheckLog(f.cells, f.otaStart, log)
    ensures status == NeedUpdate ==> dest == Destination(TypeOf(log))
  {
    dest := Bootloader;
    var i := 0;
    while i < RECORD && log[i] == BLANK
      invariant i <= RECORD && AllBlank(log[..i])
    {
      i := i + 1;
    }
    if i == RECORD {
      assert log[..i] == log;
      return NotExist, dest;
    }
    if UpgradeTypeOf(log) != 85 {
      return UpdateTagNotExist, dest;
    }
    if StartAddressOf(log) != f.otaStart {
      return StartAddressError, dest;
    }
    if !KnownType(TypeOf(log)) {
      return ContentTypeNotExist, dest;
    }
    dest := Destination(TypeOf(log));
    if LengthOf(log) > |f.cells[dest]| {
      return DataLengthOverFlow, dest;
    }
    var err := CheckCrc(f, CrcOf(log), AsInt32(LengthOf(log)));
    if err != NoErr {
      return CrcError, dest;
    }
    return NeedUpdate, dest;
  }

  // ----- the three phases of update() -----

  /** Blocks 0 to blocks-1 of the image take one write each, after one erase. */
  function Blocks(length: nat): nat { (length + BLOCK - 1) / BLOCK }

  /** A destination holding the image and nothing else. */
  function ImageOf(ota: seq<byte>, length: nat, size: nat): (r: seq<byte>)
    requires length <= |ota| && length <= size
    ensures |r| == size
  {
    ota[..length] + Blank(size - length)
  }

  /** Programming the next block of the image into a destination that is blank from there on. */
  lemma CopyStep(ota: seq<byte>, at: nat, n: nat, size: nat)
    requires at + n <= |ota| && at + n <= size
    ensures WriteCells(ImageOf(ota, at, size), at, ota[at..at + n]) == ImageOf(ota, at + n, size)
    ensures ImageOf(ota, at + n, size)[at..at + n] == ota[at..at + n]
  {
    hide WriteCells;
    WriteBlank(ImageOf(ota, at, size), at, ota[at..at + n]);
  }

  lemma BlocksStep(at: nat, n: nat)
    requires at % BLOCK == 0 && 1 <= n <= BLOCK
    ensures Blocks(at + n) == Blocks(at) + 1
  {
  }

  /** One turn of the copy loop: read, write, read back, compare. */
  method CopyBlock(f: Flash, dest: Partition, at: nat, n: nat) returns (err: Status, source: nat, target: nat)
    requires f.Valid() && dest != OtaTemp && 1 <= n <= BLOCK && at % BLOCK == 0 && at + n <= |f.cells[dest]|
    requires at <= |f.cells[OtaTemp]| ==> f.cells[dest] == ImageOf(f.cells[OtaTemp], at, |f.cells[dest]|)
    modifies f
    ensures f.Valid() && forall p: Partition :: p != dest ==> f.cells[p] == old(f.cells)[p]
    ensures |f.cells[dest]| == |old(f.cells)[dest]|
    ensures at + n > |f.cells[OtaTemp]| ==> err == ParamErr && f.cells == old(f.cells) && f.power == old(f.power)
    ensures at + n <= |f.cells[OtaTemp]| ==> err == (if old(f.power) == 0 then PowerLost else NoErr)
    ensures err == PowerLost ==> f.power == 0 && f.cells == old(f.cells)
    ensures err == NoErr ==> f.power == old(f.power) - 1 && source == target == at + n
    ensures err == NoErr ==> f.cells[dest] == ImageOf(f.cells[OtaTemp], at + n, |f.cells[dest]|)
  {
    hide ImageOf, WriteCells;
    var data, newData;
    source, target := at, at;
    err, data, source := f.Read(OtaTemp, at, n);
    if err != NoErr {
      return err, source, target;
    }
    err, target := f.Write(dest, at, data);
    if err != NoErr {
      return err, source, target;
    }
    CopyStep(f.cells[OtaTemp], at, n, |f.cells[dest]|);
    target := target - n;
    err, newData, target := f.Read(dest, target, n);
    if err != NoErr {
      return err, source, target;
    }
    if data != newData {
      return WriteErr, source, target;
    }
  }

  /** Erase the destination, then copy block by block. */
  method InstallImage(f: Flash, dest: Partition, length: nat) returns (err: Status)
    requires f.Valid() && dest != OtaTemp && length <= |f.cells[dest]|
    modifies f
    ensures f.Valid() && forall p: Partition :: p != dest ==> f.cells[p] == old(f.cells)[p]
    ensures |f.cells[dest]| == |old(f.cells)[dest]|
    ensures length > |f.cells[OtaTemp]| ==> err == ParamErr || err == PowerLost
    ensures length <= |f.cells[OtaTemp]| ==> err == NoErr || err == PowerLost
    ensures err == NoErr ==> f.cells[dest] == ImageOf(f.cells[OtaTemp], length, |f.cells[dest]|)
    ensures err == PowerLost ==> f.power == 0 && old(f.power) < 1 + Blocks(length)
    ensures err == NoErr ==> old(f.power) <= f.power + 1 + Blocks(length)
    ensures err == PowerLost && old(f.power) == 0 ==> f.cells[dest] == old(f.cells)[dest]
    ensures err == PowerLost && old(f.power) > 0 && length <= |f.cells[OtaTemp]| ==>
      (old(f.power) - 1) * BLOCK <= length
        && f.cells[dest] == ImageOf(f.cells[OtaTemp], (old(f.power) - 1) * BLOCK, |f.cells[dest]|)
    ensures err == NoErr && |f.cells[dest]| > 0 ==> old(f.power) > Blocks(length)
  {
    hide ImageOf, EraseCells, Blocks;
    ghost var ota, size := f.cells[OtaTemp], |f.cells[dest]|;
    EraseAll(f.cells[dest], f.sector);
    err := f.Erase(dest, 0, |f.cells[dest]|);
    if err != NoErr {
      return err;
    }
    NothingCopied(ota, size);
    var blocks := length / BLOCK;
    var source, target, i := 0, 0, 0;
    while i <= blocks
      invariant 0 <= i <= blocks + 1 && f.Valid() && err == NoErr
      invariant source == target == (if i <= blocks then i * BLOCK else length) <= |ota|
      invariant i == blocks + 1 ==> length % BLOCK != 0
      invariant forall p: Partition :: p != dest ==> f.cells[p] == old(f.cells)[p]
      invariant |f.cells[dest]| == size && f.cells[dest] == ImageOf(ota, target, size)
      invariant old(f.power) == f.power + (if size > 0 then 1 else 0) + Blocks(target)
      invariant i <= blocks ==> Blocks(target) == i
    {
      var copyLength;
      if i == blocks {
        if length % BLOCK != 0 {
          copyLength := length % BLOCK;
        } else {
          break;
        }
      } else {
        copyLength := BLOCK;
      }
      BlocksStep(target, copyLength);
      BlocksGrow(target + copyLength, length);
      err, source, target := CopyBlock(f, dest, target, copyLength);
      if err != NoErr {
        assert err == PowerLost ==> old(f.power) - 1 == i && f.cells[dest] == ImageOf(ota, i * BLOCK, size);
        return err;
      }
      i := i + 1;
    }
  }

  lemma NothingCopied(ota: seq<byte>, size: nat)
    ensures Blank(size) == ImageOf(ota, 0, size) && Blocks(0) == 0
  {
  }

  lemma BlocksGrow(x: nat, y: nat)
    requires x <= y
    ensures Blocks(x) <= Blocks(y)
  {
  }

  /** The partition with its first RECORD bytes blanked. */
  function Cleared(c: seq<byte>): seq<byte>
    requires RECORD <= |c|
  {
    Blank(RECORD) + c[RECORD..]
  }

  /** Rewrite the parameter partition without the update record: read all, erase all, write all. */
  method ClearRecord(f: Flash) returns (err: Status)
    requires f.Valid() && RECORD <= |f.cells[Parameter1]|
    modifies f
    ensures f.Valid() && (err == NoErr || err == PowerLost)
    ensures err == NoErr ==> f.cells == old(f.cells)[Parameter1 := Cleared(old(f.cells)[Parameter1])]
    ensures err == NoErr ==> old(f.power) == f.power + 2
    ensures err == PowerLost ==> f.power == 0 && old(f.power) < 2
    ensures err == PowerLost ==> (f.cells == old(f.cells)
      || f.cells == old(f.cells)[Parameter1 := Blank(|old(f.cells)[Parameter1]|)])
  {
    ghost var c := f.cells[Parameter1];
    var data, next;
    EraseAll(c, f.sector);
    hide EraseCells, WriteCells;
    err, data, next := f.Read(Parameter1, 0, |f.cells[Parameter1]|);
    if err != NoErr {
      return err;
    }
    assert data == c;
    data := Blank(RECORD) + data[RECORD..];
    RewriteBlank(Cleared(c));
    err := f.Erase(Parameter1, 0, |f.cells[Parameter1]|);
    if err != NoErr {
      return err;
    }
    err, next := f.Write(Parameter1, 0, data);
  }

  lemma RewriteBlank(data: seq<byte>)
    ensures WriteCells(Blank(|data|), 0, data) == data
  {
    WriteBlank(Blank(|data|), 0, data);
  }

  /** The branch taken without a valid record: erase the staging area unless it is blank already. */
  method DiscardStaging(f: Flash) returns (err: Status)
    requires f.Valid()
    modifies f
    ensures f.Valid() && (err == NoErr || err == PowerLost)
    ensures err == NoErr ==> f.cells == old(f.cells)[OtaTemp := Blank(|old(f.cells)[OtaTemp]|)]
    ensures err == PowerLost ==> f.power == old(f.power) == 0 && f.cells == old(f.cells)
    ensures err == NoErr ==> old(f.power) <= f.power + 1
  {
    ghost var c := f.cells[OtaTemp];
    EraseAll(c, f.sector);
    hide EraseCells;
    var size := |f.cells[OtaTemp]| / BLOCK;
    var data: seq<byte> := Blank(BLOCK);
    var offset, i := 0, 0;
    while i <= size
      invariant 0 <= i <= size + 1 && |data| == BLOCK && AllBlank(data)
      invariant offset == (if i <= size then i * BLOCK else |c|) && AllBlank(c[..offset])
      invariant f.cells == old(f.cells) && f.power == old(f.power)
    {
      var n := if i == size then |f.cells[OtaTemp]| % BLOCK else BLOCK;
      var part;
      ghost var before := offset;
      err, part, offset := f.Read(OtaTemp, offset, n);
      if err != NoErr {
        return err;
      }
      data := part + data[n..];
      var blank := IsBlank(data);
      if !blank {
        err := f.Erase(OtaTemp, 0, |f.cells[OtaTemp]|);
        return err;
      }
      BlankPrefix(c, before, part, data);
      i := i + 1;
    }
    assert c == Blank(|c|) by { assert c[..|c|] == c; }
    assert f.cells == old(f.cells)[OtaTemp := c];
    return NoErr;
  }

  lemma BlankPrefix(c: seq<byte>, at: nat, part: seq<byte>, data: seq<byte>)
    requires at + |part| <= |c| && AllBlank(c[..at]) && AllBlank(data) && part <= data
    requires |part| > 0 ==> part == c[at..at + |part|]
    ensures AllBlank(c[..at + |part|])
  {
    forall i | 0 <= i < at + |part|
      ensures c[i] == BLANK
    {
      if i < at {
        assert c[..at][i] == c[i];
      } else {
        assert part[i - at] == data[i - at];
      }
    }
  }

  method IsBlank(data: seq<byte>) returns (b: bool)
    ensures b == AllBlank(data)
  {
    var j := 0;
    while j < |data|
      invariant j <= |data| && AllBlank(data[..j])
    {
      if data[j] != BLANK {
        return false;
      }
      j := j + 1;
    }
    assert data[..j] == data;
    return true;
  }

  // ----- update() -----

  ghost function RecordOf(cells: Cells): seq<byte>
    requires Parameter1 in cells && RECORD <= |cells[Parameter1]|
  {
    cells[Parameter1][..RECORD]
  }

  /** A flash whose parameter partition can hold a record. */
  ghost predicate Usable(cells: Cells) {
    (forall p: Partition :: p in cells) && RECORD <= |cells[Parameter1]|
  }

  /** An accepted record whose image lies inside the staging area. */
  ghost predicate WellFormed(cells: Cells, otaStart: nat) {
    && Usable(cells)
    && CheckLog(cells, otaStart, RecordOf(cells)) == NeedUpdate
    && LengthOf(RecordOf(cells)) <= |cells[OtaTemp]|
  }

  ghost function Target(cells: Cells): Partition requires Usable(cells) { Destination(TypeOf(RecordOf(cells))) }

  /** Nothing but the destination has been touched: the update can start over. */
  ghost predicate Pending(start: Cells, now: Cells)
    requires Usable(start)
  {
    && Usable(now)
    && |now[Target(start)]| == |start[Target(start)]|
    && forall p: Partition :: p != Target(start) ==> now[p] == start[p]
  }

  /** The destination holds the image, the record is gone, and only the staging area may still be cleaned. */
  ghost predicate Installed(start: Cells, otaStart: nat, now: Cells)
    requires WellFormed(start, otaStart)
  {
    var d := Target(start);
    && Usable(now)
    && now[d] == ImageOf(start[OtaTemp], LengthOf(RecordOf(start)), |start[d]|)
    && (now[Parameter1] == Cleared(start[Parameter1]) || now[Parameter1] == Blank(|start[Parameter1]|))
    && (now[OtaTemp] == start[OtaTemp] || now[OtaTemp] == Blank(|start[OtaTemp]|))
    && forall p: Partition :: p != d && p != Parameter1 && p != OtaTemp ==> now[p] == start[p]
  }

  /** The promise at every instant: the update can start over, or it has already taken effect. */
  ghost predicate Safe(start: Cells, otaStart: nat, now: Cells)
    requires WellFormed(start, otaStart)
  {
    Pending(start, now) || Installed(start, otaStart, now)
  }

  /** What the destination holds when the supply lasts for this many erases and writes. */
  ghost function Progress(start: Cells, otaStart: nat, power: nat): seq<byte>
    requires WellFormed(start, otaStart)
  {
    var d, length := Target(start), LengthOf(RecordOf(start));
    if power == 0 then start[d]
    else ImageOf(start[OtaTemp], if power <= Blocks(length) then LastWhole(power, length) else length, |start[d]|)
  }

  /** Bytes copied by an erase and power - 1 writes. */
  function LastWhole(power: nat, length: nat): (n: nat)
    requires 1 <= power <= Blocks(length)
    ensures n <= length
  {
    (power - 1) * BLOCK
  }

  /** Erases and writes that a complete update takes. */
  function Operations(length: nat): nat { Blocks(length) + 4 }

  method Update(f: Flash) returns (err: Status)
    requires f.Valid() && Usable(f.cells)
    modifies f
    ensures f.Valid() && Usable(f.cells)
    // A rejected record: at most the staging area is erased.
    ensures CheckLog(old(f.cells), f.otaStart, RecordOf(old(f.cells))) != NeedUpdate ==>
      (if err == NoErr then f.cells == old(f.cells)[OtaTemp := Blank(|old(f.cells)[OtaTemp]|)]
       else err == PowerLost && f.cells == old(f.cells) && old(f.power) == 0)
    // An accepted record whose image lies inside the staging area.
    ensures WellFormed(old(f.cells), f.otaStart) ==>
      (err == NoErr || err == PowerLost) && Safe(old(f.cells), f.otaStart, f.cells)
    ensures WellFormed(old(f.cells), f.otaStart) && err == NoErr ==>
      var d := Target(old(f.cells));
      f.cells == old(f.cells)[d := ImageOf(old(f.cells)[OtaTemp], LengthOf(RecordOf(old(f.cells))), |old(f.cells)[d]|)]
                             [Parameter1 := Cleared(old(f.cells)[Parameter1])]
                             [OtaTemp := Blank(|old(f.cells)[OtaTemp]|)]
    ensures WellFormed(old(f.cells), f.otaStart) && err == PowerLost ==>
      old(f.power) < Operations(LengthOf(RecordOf(old(f.cells))))
    ensures WellFormed(old(f.cells), f.otaStart) ==>
      f.cells[Target(old(f.cells))] == Progress(old(f.cells), f.otaStart, old(f.power))
    // An accepted record whose image runs past the staging area is never installed.
    ensures CheckLog(old(f.cells), f.otaStart, RecordOf(old(f.cells))) == NeedUpdate
            && !WellFormed(old(f.cells), f.otaStart) ==>
      (err == ParamErr || err == PowerLost) && Pending(old(f.cells), f.cells)
    // With power for all of it, an accepted update completes exactly when the image lies inside the staging area.
    ensures CheckLog(old(f.cells), f.otaStart, RecordOf(old(f.cells))) == NeedUpdate
            && old(f.power) >= Operations(LengthOf(RecordOf(old(f.cells)))) ==>
      (err == NoErr <==> LengthOf(RecordOf(old(f.cells))) <= |old(f.cells)[OtaTemp]|)
    ensures err == PowerLost ==> f.power == 0
  {
    hide CheckLog, LengthOf, TypeOf, Cleared, ImageOf, Blocks;
    ghost var start := f.cells;
    var log, next, status, dest;
    err, log, next := f.Read(Parameter1, 0, RECORD);
    if err != NoErr {
      return err;
    }
    assert log == RecordOf(start);
    status, dest := UpdateLogCheck(f, log);
    if status != NeedUpdate {
      err := DiscardStaging(f);
      return err;
    }
    AcceptedFits(start, f.otaStart);
    err := InstallImage(f, dest, LengthOf(log));
    if err != NoErr {
      return err;
    }
    err := ClearRecord(f);
    if err != NoErr {
      return err;
    }
    EraseAll(f.cells[OtaTemp], f.sector);
    hide EraseCells;
    ClearedSize(start[Parameter1]);
    err := f.Erase(OtaTemp, 0, |f.cells[OtaTemp]|);
  }

  lemma AcceptedFits(cells: Cells, otaStart: nat)
    requires Usable(cells) && CheckLog(cells, otaStart, RecordOf(cells)) == NeedUpdate
    ensures LengthOf(RecordOf(cells)) <= |cells[Target(cells)]| && Target(cells) != OtaTemp
      && Target(cells) != Parameter1
  {
  }

  lemma ClearedSize(c: seq<byte>)
    requires RECORD <= |c|
    ensures |Cleared(c)| == |c|
  {
  }

  /**
   * A record that is right in every other respect but whose image runs past the staging area is accepted exactly
   * when its CRC field is 0xFFFF or its length is 2^31 or more: both skip the one check that reads the image.
   */
  lemma AcceptedOversize(cells: Cells, otaStart: nat)
    requires Usable(cells)
    requires var log := RecordOf(cells);
             && UpgradeTypeOf(log) == 85 && StartAddressOf(log) == otaStart && KnownType(TypeOf(log))
             && |cells[OtaTemp]| < LengthOf(log) <= |cells[Destination(TypeOf(log))]|
    ensures CheckLog(cells, otaStart, RecordOf(cells)) == NeedUpdate <==>
            CrcOf(RecordOf(cells)) == 0xFFFF || 0x8000_0000 <= LengthOf(RecordOf(cells))
  {
    hide StartAddressOf, LengthOf, TypeOf, UpgradeTypeOf, CrcOf;
    var log := RecordOf(cells);
    assert !AllBlank(log) by { NotBlank(log); }
    LengthFits(log);
  }

  lemma LengthFits(log: seq<byte>)
    requires |log| == RECORD
    ensures LengthOf(log) < 0x1_0000_0000
  {
    hide LE;
    assert LE(log[4..8]) < Pow2(8 * |log[4..8]|);
    Pow2Table();
  }

  /** Such a record: an application image of n bytes, one more than the staging area holds, with a blank CRC. */
  lemma {:induction false} OversizeRecord(cells: Cells, otaStart: nat) returns (log: seq<byte>)
    requires Usable(cells) && otaStart < 0x1_0000_0000
    requires |cells[OtaTemp]| < |cells[Application]| < 0x1_0000_0000
    ensures |log| == RECORD
    ensures var now := cells[Parameter1 := log + cells[Parameter1][RECORD..]];
            CheckLog(now, otaStart, RecordOf(now)) == NeedUpdate && !WellFormed(now, otaStart)
  {
    log := BuildRecord(otaStart, |cells[OtaTemp]| + 1);
    hide StartAddressOf, LengthOf, TypeOf, UpgradeTypeOf, CrcOf;
    var now := cells[Parameter1 := log + cells[Parameter1][RECORD..]];
    assert RecordOf(now) == log;
    assert !AllBlank(log) by { NotBlank(log); }
  }

  lemma NotBlank(log: seq<byte>)
    requires |log| == RECORD && UpgradeTypeOf(log) == 85
    ensures !AllBlank(log)
  {
    assert log[17] != BLANK;
  }

  lemma BuildRecord(start: nat, n: nat) returns (log: seq<byte>)
    requires start < 0x1_0000_0000 && n < 0x1_0000_0000
    ensures |log| == RECORD && StartAddressOf(log) == start && LengthOf(log) == n
    ensures TypeOf(log) == 65 && UpgradeTypeOf(log) == 85 && CrcOf(log) == 0xFFFF
  {
    hide LE, LEBytes;
    var head := LEBytes(start, 4) + LEBytes(n, 4) + Blank(8);
    log := head + ([65, 85, 0xFF, 0xFF] + Blank(4));
    assert log[0..4] == LEBytes(start, 4) && log[4..8] == LEBytes(n, 4);
    assert log[18..20] == [0xFF, 0xFF];
    LEOfBytes(start, 4);
    LEOfBytes(n, 4);
    assert Pow2(32) == 0x1_0000_0000 by { Pow2Table(); }
    BlankCrc();
  }

  lemma BlankCrc()
    ensures LE([0xFF, 0xFF]) == 0xFFFF
  {
    assert [0xFF, 0xFF][1..] == [0xFF];
    LESingle(0xFF);
  }

  // ----- any number of boots, each cut short at any point -----

  lemma StillWellFormed(start: Cells, otaStart: nat, now: Cells)
    requires WellFormed(start, otaStart) && Pending(start, now)
    ensures WellFormed(now, otaStart) && RecordOf(now) == RecordOf(start) && Target(now) == Target(start)
  {
    hide LengthOf, TypeOf;
    AcceptedFits(start, otaStart);
  }

  /** Restarting from an untouched record leads to the same promise. */
  lemma PendingThenSafe(start: Cells, otaStart: nat, now: Cells, next: Cells)
    requires WellFormed(start, otaStart) && Pending(start, now)
    requires WellFormed(now, otaStart) && Safe(now, otaStart, next)
    ensures Safe(start, otaStart, next)
    ensures Installed(now, otaStart, next) ==> Installed(start, otaStart, next)
  {
    hide LengthOf, TypeOf, CheckLog, ImageOf, Cleared;
    StillWellFormed(start, otaStart, now);
    AcceptedFits2(start, otaStart);
  }

  lemma AcceptedFits2(cells: Cells, otaStart: nat)
    requires WellFormed(cells, otaStart)
    ensures LengthOf(RecordOf(cells)) <= |cells[Target(cells)]| && Target(cells) != OtaTemp
      && Target(cells) != Parameter1
  {
    AcceptedFits(cells, otaStart);
  }

  /** After installation the record reads as absent, and erasing the staging area changes nothing else. */
  lemma InstalledStays(start: Cells, otaStart: nat, now: Cells)
    requires WellFormed(start, otaStart) && Installed(start, otaStart, now)
    ensures CheckLog(now, otaStart, RecordOf(now)) == NotExist
    ensures Installed(start, otaStart, now[OtaTemp := Blank(|now[OtaTemp]|)])
  {
    hide LengthOf, TypeOf, ImageOf;
    AcceptedFits2(start, otaStart);
    assert AllBlank(RecordOf(now));
  }

  /** A complete update satisfies the installed state. */
  lemma CompleteIsInstalled(start: Cells, otaStart: nat, now: Cells)
    requires WellFormed(start, otaStart)
    requires now == start[Target(start) := ImageOf(start[OtaTemp], LengthOf(RecordOf(start)), |start[Target(start)]|)]
                         [Parameter1 := Cleared(start[Parameter1])][OtaTemp := Blank(|start[OtaTemp]|)]
    ensures Installed(start, otaStart, now) && AllBlank(now[OtaTemp])
  {
    hide LengthOf, TypeOf, CheckLog, ImageOf;
    AcceptedFits2(start, otaStart);
  }

  // ----- the boot loader as its own destination -----

  /** The boot loader is there to run the next update(): the old one, or the new one in full. */
  ghost predicate Bootable(start: Cells, otaStart: nat, now: Cells)
    requires WellFormed(start, otaStart) && Usable(now)
  {
    || now[Bootloader] == start[Bootloader]
    || (Target(start) == Bootloader
        && now[Bootloader] == ImageOf(start[OtaTemp], LengthOf(RecordOf(start)), |start[Bootloader]|))
  }

  /** The supply does not fail between erasing the destination and writing its last block. */
  ghost predicate Uncut(start: Cells, power: nat)
    requires Usable(start)
  {
    power == 0 || power > Blocks(LengthOf(RecordOf(start)))
  }

  /**
   * A boot loader that replaces itself is lost exactly when the supply fails while it is copied and what has been
   * copied by then is neither the old program nor the new one. Right after the erase nothing is left of either.
   */
  lemma BootloaderCut(start: Cells, otaStart: nat, power: nat, now: Cells)
    requires WellFormed(start, otaStart) && Target(start) == Bootloader && Usable(now)
    requires now[Bootloader] == Progress(start, otaStart, power)
    ensures var size, length := |start[Bootloader]|, LengthOf(RecordOf(start));
            !Bootable(start, otaStart, now) <==>
              && 1 <= power <= Blocks(length)
              && var part := ImageOf(start[OtaTemp], LastWhole(power, length), size);
                 part != start[Bootloader] && part != ImageOf(start[OtaTemp], length, size)
    ensures power == 1 && LengthOf(RecordOf(start)) > 0 ==>
      (Bootable(start, otaStart, now) <==>
         AllBlank(start[Bootloader]) || AllBlank(start[OtaTemp][..LengthOf(RecordOf(start))]))
  {
    hide LengthOf, TypeOf, CheckLog, ImageOf;
    if power == 1 && LengthOf(RecordOf(start)) > 0 {
      AcceptedFits2(start, otaStart);
      AfterErase(start[OtaTemp], start[Bootloader], LengthOf(RecordOf(start)));
    }
  }

  lemma AfterErase(ota: seq<byte>, before: seq<byte>, length: nat)
    requires 0 < length <= |ota| && length <= |before|
    ensures 1 <= Blocks(length) && LastWhole(1, length) == 0
    ensures ImageOf(ota, 0, |before|) == before <==> AllBlank(before)
    ensures ImageOf(ota, 0, |before|) == ImageOf(ota, length, |before|) <==> AllBlank(ota[..length])
  {
    assert ImageOf(ota, 0, |before|) == Blank(|before|);
    var image := ImageOf(ota, length, |before|);
    assert image[..length] == ota[..length];
    if AllBlank(ota[..length]) {
      assert image == Blank(|before|);
    }
  }

  /** One boot, with power for a given number of erases and writes. */
  method Boot(f: Flash, power: nat, ghost start: Cells) returns (err: Status)
    requires f.Valid() && WellFormed(start, f.otaStart) && Safe(start, f.otaStart, f.cells)
    requires Bootable(start, f.otaStart, f.cells) && (Target(start) == Bootloader ==> Uncut(start, power))
    modifies f
    ensures f.Valid() && (err == NoErr || err == PowerLost) && Safe(start, f.otaStart, f.cells)
    ensures Usable(f.cells) && Bootable(start, f.otaStart, f.cells)
    ensures old(Installed(start, f.otaStart, f.cells)) ==> Installed(start, f.otaStart, f.cells)
    ensures err == NoErr ==> Installed(start, f.otaStart, f.cells) && AllBlank(f.cells[OtaTemp])
    ensures power >= Operations(LengthOf(RecordOf(start))) ==> err == NoErr
  {
    hide LengthOf, TypeOf, CheckLog, ImageOf, Cleared, Blocks, AllBlank;
    ghost var now := f.cells;
    f.power := power;
    if Installed(start, f.otaStart, now) {
      InstalledStays(start, f.otaStart, now);
      AllBlankIsBlank(|now[OtaTemp]|);
    } else {
      StillWellFormed(start, f.otaStart, now);
    }
    err := Update(f);
    if !Installed(start, f.otaStart, now) {
      PendingThenSafe(start, f.otaStart, now, f.cells);
      StillBootable(start, f.otaStart, now, f.cells, power);
      if err == NoErr {
        CompleteIsInstalled(now, f.otaStart, f.cells);
      }
    }
  }

  lemma StillBootable(start: Cells, otaStart: nat, now: Cells, next: Cells, power: nat)
    requires WellFormed(start, otaStart) && Pending(start, now) && Bootable(start, otaStart, now)
    requires WellFormed(now, otaStart) && Safe(now, otaStart, next)
      && next[Target(now)] == Progress(now, otaStart, power)
    requires Target(start) == Bootloader ==> Uncut(start, power)
    ensures Bootable(start, otaStart, next)
  {
    hide LengthOf, TypeOf, CheckLog, ImageOf, Cleared, Blocks;
    StillWellFormed(start, otaStart, now);
    AcceptedFits2(start, otaStart);
  }

  lemma AllBlankIsBlank(n: nat)
    ensures AllBlank(Blank(n))
  {
  }

  /**
   * For every run of boots, wherever each is cut: the update can start over or has taken effect, and once
   * one boot has had power for a whole update the image is in place and stays there. Only an update of the boot
   * loader itself must not be cut while it is copied.
   */
  method Boots(f: Flash, powers: seq<nat>) returns (err: Status)
    requires f.Valid() && WellFormed(f.cells, f.otaStart)
    requires Target(f.cells) == Bootloader ==> forall i :: 0 <= i < |powers| ==> Uncut(f.cells, powers[i])
    modifies f
    ensures Usable(f.cells) && Bootable(old(f.cells), f.otaStart, f.cells)
    ensures Safe(old(f.cells), f.otaStart, f.cells)
    ensures (exists i :: 0 <= i < |powers| && powers[i] >= Operations(LengthOf(RecordOf(old(f.cells))))) ==>
      Installed(old(f.cells), f.otaStart, f.cells)
    ensures |powers| > 0 && powers[|powers| - 1] >= Operations(LengthOf(RecordOf(old(f.cells)))) ==>
      err == NoErr && AllBlank(f.cells[OtaTemp])
  {
    hide LengthOf, TypeOf, CheckLog, ImageOf, Cleared, Blocks, Installed, AllBlank;
    ghost var start := f.cells;
    ghost var need := Operations(LengthOf(RecordOf(start)));
    err := NoErr;
    for i := 0 to |powers|
      invariant f.Valid() && Safe(start, f.otaStart, f.cells) && Usable(f.cells) && Bootable(start, f.otaStart, f.cells)
      invariant (exists j :: 0 <= j < i && powers[j] >= need) ==> Installed(start, f.otaStart, f.cells)
      invariant i > 0 && powers[i - 1] >= need ==>
        err == NoErr && Installed(start, f.otaStart, f.cells) && AllBlank(f.cells[OtaTemp])
    {
      err := Boot(f, powers[i], start);
    }
  }

  // ----- an accepted record whose image runs past the staging area -----

  lemma StillOversize(start: Cells, otaStart: nat, now: Cells)
    requires Usable(start) && CheckLog(start, otaStart, RecordOf(start)) == NeedUpdate && !WellFormed(start, otaStart)
    requires Pending(start, now)
    ensures CheckLog(now, otaStart, RecordOf(now)) == NeedUpdate && !WellFormed(now, otaStart)
    ensures RecordOf(now) == RecordOf(start) && Target(now) == Target(start)
  {
    hide LengthOf, TypeOf;
    AcceptedFits(start, otaStart);
  }

  /**
   * Such an update never completes: over any number of boots, with any supply, the record stays accepted, no boot
   * succeeds, and nothing but the destination changes. If the destination is the boot loader there is one boot.
   */
  method OversizeBoots(f: Flash, powers: seq<nat>) returns (err: Status)
    requires f.Valid() && Usable(f.cells) && !WellFormed(f.cells, f.otaStart)
    requires CheckLog(f.cells, f.otaStart, RecordOf(f.cells)) == NeedUpdate
    requires Target(f.cells) == Bootloader ==> |powers| <= 1
    modifies f
    ensures Usable(f.cells) && Pending(old(f.cells), f.cells) && (|powers| > 0 ==> err != NoErr)
    ensures CheckLog(f.cells, f.otaStart, RecordOf(f.cells)) == NeedUpdate && !WellFormed(f.cells, f.otaStart)
  {
    hide LengthOf, TypeOf, CheckLog, ImageOf, Cleared, Blocks, WellFormed;
    ghost var start := f.cells;
    err := NoErr;
    StillOversize(start, f.otaStart, start);
    for i := 0 to |powers|
      invariant f.Valid() && Usable(f.cells) && Pending(start, f.cells) && (i > 0 ==> err != NoErr)
      invariant CheckLog(f.cells, f.otaStart, RecordOf(f.cells)) == NeedUpdate && !WellFormed(f.cells, f.otaStart)
      invariant Target(f.cells) == Target(start)
    {
      f.power := powers[i];
      ghost var now := f.cells;
      err := Update(f);
      StillOversize(now, f.otaStart, f.cells);
    }
  }
}

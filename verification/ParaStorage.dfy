/**
 * The configuration store: a main and a backup copy in two flash partitions, each guarded by a CRC-16 that is
 * written last.
 */
module ParaStorage {
  import opened Arithmetic
  import opened Buffers
  import opened FlashDriver
  import Crc16

  const SYS_OFFSET: nat := 24  // sizeof(boot_table_t)
  const USER_OFFSET: nat := 0x400
  const CRC_OFFSET: nat := 0xE00
  const MAGIC: nat := 0xA43E_2165

  /** is_crc_match: zero never matches. */
  predicate IsCrcMatch(crc1: nat, crc2: nat) { crc1 != 0 && crc2 != 0 && crc1 == crc2 }

  /** Sizes of the two configuration areas. They must leave room for each other and for the CRC. */
  datatype Layout = Layout(sysSize: nat, userSize: nat)
  {
    ghost predicate Valid() {
      8 <= sysSize && SYS_OFFSET + sysSize <= USER_OFFSET && USER_OFFSET + userSize <= CRC_OFFSET
    }
  }

  // ----- one partition -----

  function SysOf(l: Layout, c: seq<byte>): seq<byte>
    requires l.Valid() && CRC_OFFSET + 2 <= |c|
  {
    c[SYS_OFFSET..SYS_OFFSET + l.sysSize]
  }

  function UserOf(l: Layout, c: seq<byte>): seq<byte>
    requires l.Valid() && CRC_OFFSET + 2 <= |c|
  {
    c[USER_OFFSET..USER_OFFSET + l.userSize]
  }

  function CrcFieldOf(c: seq<byte>): nat
    requires CRC_OFFSET + 2 <= |c|
  {
    LE(c[CRC_OFFSET..CRC_OFFSET + 2])
  }

  /** The CRC of a configuration: system part, then user part. */
  function ConfigCrc(sys: seq<byte>, user: seq<byte>): Crc16.word { Crc16.Digest(sys + user) }

  /** A copy whose contents match its stored CRC. */
  predicate Passes(l: Layout, c: seq<byte>)
    requires l.Valid() && CRC_OFFSET + 2 <= |c|
  {
    IsCrcMatch(ConfigCrc(SysOf(l, c), UserOf(l, c)), CrcFieldOf(c))
  }

  /** The four successive contents of a partition while it is being rewritten. */
  function Stage(l: Layout, content: seq<byte>, user: seq<byte>, crc: nat, size: nat, stage: nat): (c: seq<byte>)
    requires l.Valid() && |content| == SYS_OFFSET + l.sysSize && |user| == l.userSize && CRC_OFFSET + 2 <= size
    ensures |c| == size
  {
    (if stage >= 1 then content + Blank(USER_OFFSET - |content|) else Blank(USER_OFFSET))
    + (if stage >= 2 then user + Blank(CRC_OFFSET - USER_OFFSET - |user|) else Blank(CRC_OFFSET - USER_OFFSET))
    + (if stage >= 3 then LEBytes(crc, 2) else Blank(2)) + Blank(size - CRC_OFFSET - 2)
  }

  lemma StageParts(l: Layout, content: seq<byte>, user: seq<byte>, crc: nat, size: nat)
    requires l.Valid() && |content| == SYS_OFFSET + l.sysSize && |user| == l.userSize && CRC_OFFSET + 2 <= size
    requires crc < 0x1_0000
    ensures var c := Stage(l, content, user, crc, size, 3);
            SysOf(l, c) == content[SYS_OFFSET..] && UserOf(l, c) == user && CrcFieldOf(c) == crc
  {
    hide LEBytes, LE, Blank;
    var c := Stage(l, content, user, crc, size, 3);
    var first, second := content + Blank(USER_OFFSET - |content|), user + Blank(CRC_OFFSET - USER_OFFSET - |user|);
    assert c == first + second + LEBytes(crc, 2) + Blank(size - CRC_OFFSET - 2);
    hide Stage;
    assert c[..USER_OFFSET] == first && c[USER_OFFSET..CRC_OFFSET] == second;
    assert SysOf(l, c) == c[..USER_OFFSET][SYS_OFFSET..SYS_OFFSET + l.sysSize];
    assert UserOf(l, c) == c[USER_OFFSET..CRC_OFFSET][..l.userSize];
    assert c[CRC_OFFSET..CRC_OFFSET + 2] == LEBytes(crc, 2);
    LEOfBytes(crc, 2);
    Pow2Table();
  }

  lemma StageWrites(l: Layout, content: seq<byte>, user: seq<byte>, crc: nat, size: nat)
    requires l.Valid() && |content| == SYS_OFFSET + l.sysSize && |user| == l.userSize && CRC_OFFSET + 2 <= size
    ensures Stage(l, content, user, crc, size, 0) == Blank(size)
    ensures WriteCells(Stage(l, content, user, crc, size, 0), 0, content) == Stage(l, content, user, crc, size, 1)
    ensures WriteCells(Stage(l, content, user, crc, size, 1), USER_OFFSET, user)
      == Stage(l, content, user, crc, size, 2)
    ensures WriteCells(Stage(l, content, user, crc, size, 2), CRC_OFFSET, LEBytes(crc, 2))
      == Stage(l, content, user, crc, size, 3)
  {
    hide WriteCells, LEBytes;
    WriteBlank(Stage(l, content, user, crc, size, 0), 0, content);
    WriteBlank(Stage(l, content, user, crc, size, 1), USER_OFFSET, user);
    WriteBlank(Stage(l, content, user, crc, size, 2), CRC_OFFSET, LEBytes(crc, 2));
  }

  /** A rewrite that stopped before the CRC was written. */
  ghost predicate Torn(l: Layout, c: seq<byte>, content: seq<byte>, user: seq<byte>)
    requires l.Valid() && |content| == SYS_OFFSET + l.sysSize && |user| == l.userSize && CRC_OFFSET + 2 <= |c|
  {
    exists stage :: 0 <= stage < 3 && c == Stage(l, content, user, 0, |c|, stage)
  }

  /** A flash that holds two parameter partitions of one sector each. */
  ghost predicate Mounted(f: Flash)
    reads f
  {
    f.Valid() && |f.cells[Parameter1]| == |f.cells[Parameter2]| == f.sector && CRC_OFFSET + 2 <= f.sector
  }

  /** Erase one copy, write its two parts, and write its CRC last. */
  method WriteCopy(f: Flash, l: Layout, p: Partition, eraseSize: nat, content: seq<byte>, user: seq<byte>,
                   crc: Crc16.word)
      returns (err: Status)
    requires Mounted(f) && l.Valid() && (p == Parameter1 || p == Parameter2)
    requires |content| == SYS_OFFSET + l.sysSize && |user| == l.userSize && 0 < eraseSize <= f.sector
    modifies f
    ensures Mounted(f) && (err == NoErr || err == PowerLost)
    ensures forall q: Partition :: q != p ==> f.cells[q] == old(f.cells)[q]
    ensures err == NoErr ==> f.cells[p] == Stage(l, content, user, crc, f.sector, 3)
    ensures err == PowerLost ==> f.cells[p] == old(f.cells)[p] || Torn(l, f.cells[p], content, user)
  {
    hide Stage, EraseCells, WriteCells, LEBytes;
    var next;
    StageWrites(l, content, user, crc, f.sector);
    EarlyStages(l, content, user, crc, f.sector);
    EraseOneSector(f.cells[p], f.sector, eraseSize);
    err := f.Erase(p, 0, eraseSize);
    if err != NoErr {
      return err;
    }
    err, next := f.Write(p, 0, content);
    if err != NoErr {
      return err;
    }
    err, next := f.Write(p, USER_OFFSET, user);
    if err != NoErr {
      return err;
    }
    err, next := f.Write(p, CRC_OFFSET, LEBytes(crc, 2));
  }

  lemma EarlyStages(l: Layout, content: seq<byte>, user: seq<byte>, crc: nat, size: nat)
    requires l.Valid() && |content| == SYS_OFFSET + l.sysSize && |user| == l.userSize && CRC_OFFSET + 2 <= size
    ensures forall stage :: 0 <= stage < 3 ==>
      Stage(l, content, user, crc, size, stage) == Stage(l, content, user, 0, size, stage)
    ensures |user| == 0 ==> Stage(l, content, user, crc, size, 1) == Stage(l, content, user, crc, size, 2)
  {
  }

  lemma EraseOneSector(c: seq<byte>, sector: nat, size: nat)
    requires |c| == sector && 0 < size <= sector
    ensures EraseCells(c, sector, 0, size) == Blank(sector)
  {
    DivModUnique(0, sector, 0, 0);
    DivModUnique(size + sector - 1, sector, 1, size - 1);
  }

  /** The CRC as the code computes it, over two Update calls. */
  method ComputeCrc(sys: seq<byte>, user: seq<byte>) returns (crc: Crc16.word)
    ensures crc == ConfigCrc(sys, user)
  {
    var context := new Crc16.Context();
    context.Update(sys);
    context.Update(user);
    crc := context.Final();
    Crc16.RegisterConcat(0, sys, user);
    Crc16.RegisterConcat(0, sys + user, [0, 0]);
  }

  /** The magic number and the update seed are the last two words of the system configuration. */
  function MagicOf(sys: seq<byte>): nat requires 8 <= |sys| { LE(sys[|sys| - 8..|sys| - 4]) }
  function SeedOf(sys: seq<byte>): nat requires 8 <= |sys| { LE(sys[|sys| - 4..]) }

  /** Everything but the seed. */
  function Body(sys: seq<byte>): seq<byte> requires 8 <= |sys| { sys[..|sys| - 4] }

  function WithSeed(sys: seq<byte>, seed: nat): seq<byte> requires 8 <= |sys| { Body(sys) + LEBytes(seed, 4) }

  function DefaultSys(prefix: seq<byte>, seed: nat): seq<byte> { prefix + LEBytes(MAGIC, 4) + LEBytes(seed, 4) }

  // ----- what a read will load -----

  datatype Loaded = Nothing | Config(sys: seq<byte>)

  /** The system configuration the next read will take: the main copy if it passes, else the backup. */
  ghost function Loads(l: Layout, main: seq<byte>, backup: seq<byte>): Loaded
    requires l.Valid() && CRC_OFFSET + 2 <= |main| && CRC_OFFSET + 2 <= |backup|
  {
    if Passes(l, main) then Config(SysOf(l, main))
    else if Passes(l, backup) then Config(SysOf(l, backup))
    else Nothing
  }

  /** How internal_update_config can leave the two copies. */
  ghost predicate UpdateOutcome(l: Layout, main: seq<byte>, backup: seq<byte>, main': seq<byte>, backup': seq<byte>,
                                boot: seq<byte>, sys: seq<byte>, user: seq<byte>, err: Status)
    requires l.Valid() && |boot| == SYS_OFFSET && |sys| == l.sysSize && |user| == l.userSize
  {
    var content, crc := boot + sys, ConfigCrc(sys, user);
    && |main| == |main'| == |backup| == |backup'| && CRC_OFFSET + 2 <= |main|
    && var image := Stage(l, content, user, crc, |main|, 3);
    match err
    case NoErr => crc != 0 && main' == image && backup' == image
    case WriteErr => crc == 0 && main' == image && backup' == backup
    case _ =>
      || (backup' == backup && (main' == main || Torn(l, main', content, user)))
      || (crc != 0 && main' == image && (backup' == backup || Torn(l, backup', content, user)))
  }

  /** A completely written copy passes exactly when the CRC of its configuration is not zero. */
  lemma ImagePasses(l: Layout, boot: seq<byte>, sys: seq<byte>, user: seq<byte>, size: nat)
    requires l.Valid() && |boot| == SYS_OFFSET && |sys| == l.sysSize && |user| == l.userSize && CRC_OFFSET + 2 <= size
    ensures var c := Stage(l, boot + sys, user, ConfigCrc(sys, user), size, 3);
            SysOf(l, c) == sys && UserOf(l, c) == user && (Passes(l, c) <==> ConfigCrc(sys, user) != 0)
  {
    hide Stage, ConfigCrc, SysOf, UserOf, CrcFieldOf;
    StageParts(l, boot + sys, user, ConfigCrc(sys, user), size);
    assert (boot + sys)[SYS_OFFSET..] == sys;
  }

  /**
   * From a valid backup, a configuration write cut anywhere leaves the old or the new configuration to be
   * loaded, unless an erased copy passes for a good one. A torn copy that passes already holds the new system
   * part. A configuration whose CRC is zero never replaces the backup.
   */
  lemma UpdateSafe(l: Layout, main: seq<byte>, backup: seq<byte>, main': seq<byte>, backup': seq<byte>,
                   boot: seq<byte>, sys: seq<byte>, user: seq<byte>, err: Status)
    requires l.Valid() && |boot| == SYS_OFFSET && |sys| == l.sysSize && |user| == l.userSize
    requires UpdateOutcome(l, main, backup, main', backup', boot, sys, user, err)
    requires Passes(l, backup) && Loads(l, main, backup) == Config(SysOf(l, backup))
    ensures || Loads(l, main', backup') == Loads(l, main, backup)
            || Loads(l, main', backup') == Config(sys)
            || (main' == Blank(|main|) && Passes(l, main'))
    ensures Passes(l, main') || Passes(l, backup')
    ensures ConfigCrc(sys, user) == 0 ==> backup' == backup
    ensures err == WriteErr ==> Loads(l, main', backup') == Loads(l, main, backup)
    ensures err == NoErr ==> Loads(l, main', backup') == Config(sys) && Passes(l, backup') && SysOf(l, backup') == sys
  {
    hide Stage, ConfigCrc, SysOf, UserOf, CrcFieldOf, Torn, Passes;
    ImagePasses(l, boot, sys, user, |main|);
    assert (boot + sys)[SYS_OFFSET..] == sys;
    if Torn(l, main', boot + sys, user) {
      TornLoads(l, main', boot + sys, user);
    }
  }

  /** A rewrite that stopped early has at most erased the partition, or the whole system part is in place. */
  lemma TornLoads(l: Layout, c: seq<byte>, content: seq<byte>, user: seq<byte>)
    requires l.Valid() && |content| == SYS_OFFSET + l.sysSize && |user| == l.userSize && CRC_OFFSET + 2 <= |c|
    requires Torn(l, c, content, user)
    ensures c == Blank(|c|) || SysOf(l, c) == content[SYS_OFFSET..]
    ensures c == Blank(|c|) || UserOf(l, c) == user || UserOf(l, c) == Blank(l.userSize)
  {
    var stage :| 0 <= stage < 3 && c == Stage(l, content, user, 0, |c|, stage);
  }

  lemma BlankIsTorn(l: Layout, content: seq<byte>, user: seq<byte>, size: nat)
    requires l.Valid() && |content| == SYS_OFFSET + l.sysSize && |user| == l.userSize && CRC_OFFSET + 2 <= size
    ensures Torn(l, Blank(size), content, user)
  {
    assert Blank(size) == Stage(l, content, user, 0, size, 0);
  }

  // ----- the code -----

  class Context {
    const f: Flash
    const l: Layout
    /** Everything in a default configuration before its magic number and seed. */
    const defaultPrefix: seq<byte>
    var bootTable: seq<byte>
    var sys: seq<byte>
    var user: seq<byte>
    var seedNum: nat

    constructor (f: Flash, l: Layout, defaultPrefix: seq<byte>)
      requires Mounted(f) && l.Valid() && |defaultPrefix| == l.sysSize - 8
      ensures Valid() && this.f == f && this.l == l && this.defaultPrefix == defaultPrefix
    {
      this.f, this.l, this.defaultPrefix := f, l, defaultPrefix;
      bootTable, sys, user := Zeros(SYS_OFFSET), Zeros(l.sysSize), Zeros(l.userSize);
      seedNum := 0;
    }

    ghost predicate Valid()
      reads this, f
    {
      && Mounted(f) && l.Valid() && |defaultPrefix| == l.sysSize - 8
      && |bootTable| == SYS_OFFSET && |sys| == l.sysSize && |user| == l.userSize
    }

    ghost function Main(): seq<byte>
      requires Mounted(f)
      reads this, f
    {
      f.cells[Parameter1]
    }

    ghost function Backup(): seq<byte>
      requires Mounted(f)
      reads this, f
    {
      f.cells[Parameter2]
    }

    /** internal_update_config */
    method InternalUpdateConfig() returns (err: Status)
      requires Valid()
      modifies f
      ensures Valid() && (err == NoErr || err == WriteErr || err == PowerLost)
      ensures UpdateOutcome(l, old(Main()), old(Backup()), Main(), Backup(), bootTable, sys, user, err)
    {
      hide Stage, ConfigCrc, SysOf, UserOf, Torn, LE, CrcFieldOf;
      var crc := ComputeCrc(sys, user);
      err := WriteCopy(f, l, Parameter1, |bootTable + sys|, bootTable + sys, user, crc);
      if err != NoErr {
        return err;
      }
      var readback, next;
      ReadBackCrc(l, bootTable + sys, user, crc, f.sector);
      err, readback, next := f.Read(Parameter1, CRC_OFFSET, 2);
      if LE(readback) == 0 {
        return WriteErr;
      }
      err := WriteCopy(f, l, Parameter2, |bootTable + sys|, bootTable + sys, user, crc);
    }

    /** mico_system_context_restore, with the default user-data callback, which does nothing */
    method ContextRestore() returns (err: Status)
      requires Valid()
      modifies this, f
      ensures Valid() && user == old(user) && seedNum == old(seedNum)
      ensures bootTable == Zeros(SYS_OFFSET) && sys == DefaultSys(defaultPrefix, seedNum)
      ensures err == NoErr || err == WriteErr || err == PowerLost
      ensures UpdateOutcome(l, old(Main()), old(Backup()), Main(), Backup(), bootTable, sys, user, err)
    {
      hide UpdateOutcome, LEBytes;
      bootTable := Zeros(SYS_OFFSET);
      sys := DefaultSys(defaultPrefix, seedNum);
      err := InternalUpdateConfig();
    }

    /** mico_system_context_update */
    method ContextUpdate() returns (err: Status)
      requires Valid()
      modifies this, f
      ensures Valid() && user == old(user) && bootTable == old(bootTable)
      ensures seedNum == (old(seedNum) + 1) % 0x1_0000_0000 && sys == WithSeed(old(sys), seedNum)
      ensures err == NoErr || err == WriteErr || err == PowerLost
      ensures UpdateOutcome(l, old(Main()), old(Backup()), Main(), Backup(), bootTable, sys, user, err)
    {
      hide UpdateOutcome, LEBytes;
      seedNum := (seedNum + 1) % 0x1_0000_0000;
      sys := WithSeed(sys, seedNum);
      err := InternalUpdateConfig();
    }

    /** Load both copies with their CRCs. */
    method LoadCopies() returns (crc: Crc16.word, target: nat, sysBackup: seq<byte>, backupCrc: Crc16.word,
                      backupTarget: nat)
      requires Valid()
      modifies this
      ensures Valid() && seedNum == old(seedNum) && f.cells == old(f.cells)
      ensures bootTable == Main()[..SYS_OFFSET] && sys == SysOf(l, Main()) && user == UserOf(l, Main())
      ensures crc == ConfigCrc(sys, user) && target == CrcFieldOf(Main())
      ensures sysBackup == SysOf(l, Backup())
      ensures backupCrc == ConfigCrc(sysBackup, UserOf(l, Backup())) && backupTarget == CrcFieldOf(Backup())
    {
      hide ConfigCrc, LE;
      var err, data, next, userBackup;
      err, data, next := f.Read(Parameter1, 0, SYS_OFFSET + l.sysSize);
      bootTable, sys := data[..SYS_OFFSET], data[SYS_OFFSET..];
      err, user, next := f.Read(Parameter1, USER_OFFSET, l.userSize);
      crc := ComputeCrc(sys, user);
      err, data, next := f.Read(Parameter1, CRC_OFFSET, 2);
      target := LE(data);
      err, sysBackup, next := f.Read(Parameter2, SYS_OFFSET, l.sysSize);
      err, userBackup, next := f.Read(Parameter2, USER_OFFSET, l.userSize);
      backupCrc := ComputeCrc(sysBackup, userBackup);
      err, data, next := f.Read(Parameter2, CRC_OFFSET, 2);
      backupTarget := LE(data);
    }

    /** The main copy fails and the backup passes: rebuild the main copy. */
    method RecoverMain(sysBackup: seq<byte>, backupCrc: Crc16.word) returns (err: Status)
      requires Valid() && bootTable == Main()[..SYS_OFFSET] && user == UserOf(l, Main())
      requires !Passes(l, Main()) && Passes(l, Backup())
      requires sysBackup == SysOf(l, Backup()) && backupCrc == CrcFieldOf(Backup())
      modifies this, f
      ensures Valid() && sys == sysBackup && user == old(user) && seedNum == old(seedNum)
        && (err == NoErr || err == PowerLost)
      ensures ReadOutcome(l, old(Main()), old(Backup()), Main(), Backup(), sys, err)
    {
      hide ConfigCrc, LE, Stage, Passes, Torn, SysOf, UserOf, CrcFieldOf;
      SysSize(l, Backup());
      bootTable, sys := Zeros(SYS_OFFSET), sysBackup;
      err := WriteCopy(f, l, Parameter1, |f.cells[Parameter1]|, bootTable + sys, user, backupCrc);
    }

    /** The main copy passes: rewrite the backup unless it passes with the same CRC. */
    method RecoverBackup(crc: Crc16.word, backupCrc: Crc16.word, backupTarget: nat) returns (err: Status)
      requires Valid() && bootTable == Main()[..SYS_OFFSET] && sys == SysOf(l, Main()) && user == UserOf(l, Main())
      requires Passes(l, Main()) && crc == CrcFieldOf(Main()) && backupTarget == CrcFieldOf(Backup())
      requires IsCrcMatch(backupCrc, backupTarget) <==> Passes(l, Backup())
      modifies this, f
      ensures Valid() && sys == old(sys) && user == old(user) && seedNum == old(seedNum)
        && (err == NoErr || err == PowerLost)
      ensures ReadOutcome(l, old(Main()), old(Backup()), Main(), Backup(), sys, err)
    {
      hide ConfigCrc, LE, Stage, Passes, Torn, SysOf, UserOf, CrcFieldOf;
      err := NoErr;
      if !IsCrcMatch(crc, backupCrc) || !IsCrcMatch(backupCrc, backupTarget) {
        err := WriteCopy(f, l, Parameter2, |f.cells[Parameter2]|, bootTable + sys, user, crc);
      }
    }

    /** MICOReadConfiguration */
    method ReadConfiguration() returns (err: Status)
      requires Valid()
      modifies this, f
      ensures Valid() && (err == NoErr || err == WriteErr || err == PowerLost)
      // Some copy passes and carries the magic number.
      ensures var s := Loads(l, old(Main()), old(Backup()));
              s.Config? && 8 <= |s.sys| && MagicOf(s.sys) == MAGIC ==>
              ReadOutcome(l, old(Main()), old(Backup()), Main(), Backup(), sys, err)
      // No copy passes: defaults are written to both.
      ensures Loads(l, old(Main()), old(Backup())).Nothing? ==>
        && sys == DefaultSys(defaultPrefix, old(seedNum))
        && UpdateOutcome(l, old(Main()), old(Backup()), Main(), Backup(), Zeros(SYS_OFFSET), sys,
             UserOf(l, old(Main())), err)
      // A good copy without the magic number gives way to the defaults, under the seed it carried: a read, then a
      // write.
      ensures var s := Loads(l, old(Main()), old(Backup()));
              s.Config? && 8 <= |s.sys| && MagicOf(s.sys) != MAGIC ==>
                || (err == PowerLost && ReadOutcome(l, old(Main()), old(Backup()), Main(), Backup(), sys, err))
                || (&& sys == DefaultSys(defaultPrefix, if SeedOf(s.sys) == 0xFFFF_FFFF then 0 else SeedOf(s.sys))
                    && exists main, backup ::
                         && ReadDone(l, old(Main()), old(Backup()), main, backup, s.sys)
                         && UpdateOutcome(l, main, backup, Main(), Backup(), Zeros(SYS_OFFSET), sys,
                              UserOf(l, old(Main())), err))
    {
      hide ConfigCrc, LE, LEBytes, Stage, UpdateOutcome, SysOf, UserOf, CrcFieldOf, MagicOf, DefaultSys, SeedOf;
      var crc, target, sysBackup, backupCrc, backupTarget := LoadCopies();
      if !IsCrcMatch(crc, target) {
        if !IsCrcMatch(backupCrc, backupTarget) {
          err := ContextRestore();
          DefaultMagic(defaultPrefix, seedNum);
          if err != NoErr {
            return err;
          }
        } else {
          err := RecoverMain(sysBackup, backupCrc);
          if err != NoErr {
            return err;
          }
        }
      } else {
        err := RecoverBackup(crc, backupCrc, backupTarget);
        if err != NoErr {
          return err;
        }
      }
      seedNum := SeedOf(sys);
      if seedNum == 0xFFFF_FFFF {
        seedNum := 0;
      }
      if MagicOf(sys) != MAGIC {
        ghost var main, backup := Main(), Backup();
        assert ReadDone(l, old(Main()), old(Backup()), main, backup, sys);
        err := ContextRestore();
      }
    }
  }

  lemma SysSize(l: Layout, c: seq<byte>)
    requires l.Valid() && CRC_OFFSET + 2 <= |c|
    ensures |SysOf(l, c)| == l.sysSize && |UserOf(l, c)| == l.userSize
  {
  }

  lemma DefaultMagic(prefix: seq<byte>, seed: nat)
    ensures MagicOf(DefaultSys(prefix, seed)) == MAGIC
  {
    hide LE, LEBytes;
    var s := DefaultSys(prefix, seed);
    assert s[|s| - 8..|s| - 4] == LEBytes(MAGIC, 4);
    LEOfBytes(MAGIC, 4);
    Pow2Table();
  }

  /** How a read can leave the two copies when one of them passes and carries the magic number. */
  ghost predicate ReadOutcome(l: Layout, main: seq<byte>, backup: seq<byte>, main': seq<byte>, backup': seq<byte>,
                              sys: seq<byte>, err: Status)
    requires l.Valid() && CRC_OFFSET + 2 <= |main| && CRC_OFFSET + 2 <= |backup|
  {
    && |main| == |main'| && |backup| == |backup'|
    && (err == NoErr || err == PowerLost)
    && if Passes(l, main) then
         // The backup is brought up to date unless it already has the same CRC.
         && sys == SysOf(l, main) && main' == main
         && (backup' == backup || Torn(l, backup', main[..SYS_OFFSET] + sys, UserOf(l, main))
             || backup' == Stage(l, main[..SYS_OFFSET] + sys, UserOf(l, main), CrcFieldOf(main), |main|, 3))
         && (err == NoErr ==>
             || (backup' == backup && Passes(l, backup) && CrcFieldOf(backup) == CrcFieldOf(main))
             || backup' == Stage(l, main[..SYS_OFFSET] + sys, UserOf(l, main), CrcFieldOf(main), |main|, 3))
       else
         // The main copy is rebuilt: the backup's system part, its CRC, and the main copy's own user part.
         && Passes(l, backup) && backup' == backup && sys == SysOf(l, backup)
         && var content := Zeros(SYS_OFFSET) + sys;
         && (main' == main || Torn(l, main', content, UserOf(l, main))
             || main' == Stage(l, content, UserOf(l, main), CrcFieldOf(backup), |main|, 3))
         && (err == NoErr ==> main' == Stage(l, content, UserOf(l, main), CrcFieldOf(backup), |main|, 3))
  }

  /** A read that ran to its end. */
  ghost predicate ReadDone(l: Layout, main: seq<byte>, backup: seq<byte>, main': seq<byte>, backup': seq<byte>,
                           sys: seq<byte>)
    requires l.Valid() && CRC_OFFSET + 2 <= |main| && CRC_OFFSET + 2 <= |backup|
  {
    ReadOutcome(l, main, backup, main', backup', sys, NoErr)
  }

  lemma ReadBackCrc(l: Layout, content: seq<byte>, user: seq<byte>, crc: Crc16.word, size: nat)
    requires l.Valid() && |content| == SYS_OFFSET + l.sysSize && |user| == l.userSize && CRC_OFFSET + 2 <= size
    ensures LE(Stage(l, content, user, crc, size, 3)[CRC_OFFSET..CRC_OFFSET + 2]) == crc
  {
    hide Stage;
    StageParts(l, content, user, crc, size);
  }

  // ----- whole runs -----

  /** A torn copy still has a blank CRC field, so it is taken for a good one exactly when its CRC-16 is 0xFFFF. */
  lemma {:induction false} TornPasses(l: Layout, c: seq<byte>, content: seq<byte>, user: seq<byte>)
    requires l.Valid() && |content| == SYS_OFFSET + l.sysSize && |user| == l.userSize && CRC_OFFSET + 2 <= |c|
    requires Torn(l, c, content, user)
    ensures CrcFieldOf(c) == 0xFFFF
    ensures Passes(l, c) <==> ConfigCrc(SysOf(l, c), UserOf(l, c)) == 0xFFFF
  {
    hide ConfigCrc, LE;
    assert c[CRC_OFFSET..CRC_OFFSET + 2] == [BLANK, BLANK];
    BlankWord();
  }

  lemma BlankWord()
    ensures LE([BLANK, BLANK]) == 0xFFFF
  {
    assert [BLANK, BLANK][1..] == [BLANK];
  }

  /**
   * A read never changes what the next read will load, unless an erased main copy passes for a good one. When it
   * finishes, a configuration write may follow, unless the two copies are different and share a CRC.
   */
  lemma ReadSafe(l: Layout, main: seq<byte>, backup: seq<byte>, main': seq<byte>, backup': seq<byte>, sys: seq<byte>,
                 err: Status)
    requires l.Valid() && CRC_OFFSET + 2 <= |main| == |backup|
    requires ReadOutcome(l, main, backup, main', backup', sys, err)
    requires Passes(l, main) || Passes(l, backup)
    ensures Config(sys) == Loads(l, main, backup)
    ensures Passes(l, main') || Passes(l, backup')
    ensures || Loads(l, main', backup') == Config(sys)
            || (!Passes(l, main) && main' == Blank(|main|) && Passes(l, main'))
    ensures err == NoErr && !Twins(l, main, backup) ==>
      Loads(l, main', backup') == Config(sys) && Passes(l, backup') && SysOf(l, backup') == sys
  {
    hide Stage, ConfigCrc, SysOf, UserOf, CrcFieldOf, Torn;
    SysSize(l, main);
    SysSize(l, backup);
    if Passes(l, main) {
      MainSplits(l, main);
      ImagePasses(l, main[..SYS_OFFSET], sys, UserOf(l, main), |main|);
    } else {
      StageParts(l, Zeros(SYS_OFFSET) + sys, UserOf(l, main), CrcFieldOf(backup), |main|);
      assert (Zeros(SYS_OFFSET) + sys)[SYS_OFFSET..] == sys;
      if Torn(l, main', Zeros(SYS_OFFSET) + sys, UserOf(l, main)) {
        TornLoads(l, main', Zeros(SYS_OFFSET) + sys, UserOf(l, main));
      }
    }
  }

  lemma MainSplits(l: Layout, c: seq<byte>)
    requires l.Valid() && CRC_OFFSET + 2 <= |c|
    ensures (c[..SYS_OFFSET] + SysOf(l, c))[SYS_OFFSET..] == SysOf(l, c)
    ensures CrcFieldOf(c) < 0x1_0000
  {
    Pow2Table();
  }

  /** Two good copies of different configurations with one CRC: the read leaves the backup as it is. */
  ghost predicate Twins(l: Layout, main: seq<byte>, backup: seq<byte>)
    requires l.Valid() && CRC_OFFSET + 2 <= |main| && CRC_OFFSET + 2 <= |backup|
  {
    Passes(l, main) && Passes(l, backup) && CrcFieldOf(main) == CrcFieldOf(backup) && SysOf(l, main) != SysOf(l, backup)
  }

  /** Both partitions, and whether the firmware has finished reading its configuration since power came up. */
  datatype Store = Store(main: seq<byte>, backup: seq<byte>, awake: bool)

  datatype Event =
    | Boot(sys: seq<byte>, err: Status)
    | Save(boot: seq<byte>, sys: seq<byte>, user: seq<byte>, err: Status)

  ghost predicate Sized(l: Layout, s: Store) { l.Valid() && CRC_OFFSET + 2 <= |s.main| == |s.backup| }

  ghost predicate Step(l: Layout, s: Store, e: Event, t: Store)
    requires Sized(l, s)
    ensures Step(l, s, e, t) ==> Sized(l, t)
  {
    && Sized(l, t)
    && match e
       case Boot(sys, err) =>
         ReadOutcome(l, s.main, s.backup, t.main, t.backup, sys, err) && t.awake == (err == NoErr)
       case Save(boot, sys, user, err) =>
         && s.awake && |boot| == SYS_OFFSET && |sys| == l.sysSize && |user| == l.userSize && MagicOf(sys) == MAGIC
         && UpdateOutcome(l, s.main, s.backup, t.main, t.backup, boot, sys, user, err)
         && t.awake == (err == NoErr || err == WriteErr)
  }

  /** The same call, whatever becomes of it. */
  ghost predicate SameCall(e: Event, f: Event) {
    match e
    case Boot(_, _) => f.Boot?
    case Save(boot, sys, user, _) => f.Save? && f.boot == boot && f.sys == sys && f.user == user
  }

  /** Some copy is good and carries the magic number; while awake, the backup holds the configuration in force. */
  ghost predicate Sound(l: Layout, s: Store)
    ensures Sound(l, s) ==> Sized(l, s)
  {
    && Sized(l, s)
    && var c := Loads(l, s.main, s.backup);
    && c.Config? && |c.sys| == l.sysSize && MagicOf(c.sys) == MAGIC
    && (s.awake ==> Passes(l, s.backup) && c == Config(SysOf(l, s.backup)))
  }

  /** What the next read loads: after a save the new configuration, or the old one if the save did not finish. */
  ghost predicate OldOrNew(l: Layout, s: Store, e: Event, t: Store)
    requires Sized(l, s) && Sized(l, t)
  {
    var before, after := Loads(l, s.main, s.backup), Loads(l, t.main, t.backup);
    match e
    case Boot(sys, err) => after == before && before == Config(sys)
    case Save(_, sys, _, NoErr) => after == Config(sys)
    case Save(_, _, _, WriteErr) => after == before && t.backup == s.backup
    case Save(_, sys, _, _) => after == before || after == Config(sys)
  }

  /**
   * What can be seen to go wrong before a call: an erased main copy would pass for a good one, or a read meets twins.
   */
  ghost predicate Exposed(l: Layout, s: Store, e: Event)
    requires Sized(l, s)
  {
    match e
    case Boot(_, _) => Twins(l, s.main, s.backup) || (!Passes(l, s.main) && Passes(l, Blank(|s.main|)))
    case Save(_, _, _, _) => Passes(l, Blank(|s.main|))
  }

  lemma StepSafe(l: Layout, s: Store, e: Event, t: Store)
    requires Sound(l, s) && Step(l, s, e, t) && !Exposed(l, s, e)
    ensures Sound(l, t) && OldOrNew(l, s, e, t)
  {
    hide Stage, ConfigCrc, SysOf, UserOf, CrcFieldOf, Torn, MagicOf, Passes, ReadOutcome;
    match e
    case Boot(sys, err) =>
      ReadSafe(l, s.main, s.backup, t.main, t.backup, sys, err);
    case Save(boot, sys, user, err) =>
      UpdateSafe(l, s.main, s.backup, t.main, t.backup, boot, sys, user, err);
  }

  lemma BlankMagic(l: Layout, size: nat)
    requires l.Valid() && CRC_OFFSET + 2 <= size
    ensures |SysOf(l, Blank(size))| == l.sysSize && MagicOf(SysOf(l, Blank(size))) != MAGIC
  {
    hide LE;
    var sys := SysOf(l, Blank(size));
    var m := sys[|sys| - 8..|sys| - 4];
    assert forall i :: 0 <= i < l.sysSize ==> sys[i] == Blank(size)[SYS_OFFSET + i];
    assert |m| == 4 && m[0] == m[1] == m[2] == m[3] == BLANK;
    assert m == [BLANK, BLANK] + [BLANK, BLANK];
    LEConcat([BLANK, BLANK], [BLANK, BLANK]);
    BlankWord();
    Pow2Table();
  }

  /** An exposed call has an outcome that breaks the store. */
  lemma Breaks(l: Layout, s: Store, e: Event, t: Store) returns (f: Event, u: Store)
    requires Sound(l, s) && Step(l, s, e, t) && Exposed(l, s, e)
    ensures SameCall(e, f) && Step(l, s, f, u) && !Sound(l, u)
    ensures e.Save? ==> !OldOrNew(l, s, f, u)
  {
    hide Stage, ConfigCrc, SysOf, UserOf, CrcFieldOf, Torn, MagicOf, Passes;
    BlankMagic(l, |s.main|);
    SysSize(l, s.main);
    match e
    case Boot(_, _) =>
      if Twins(l, s.main, s.backup) {
        f, u := Boot(SysOf(l, s.main), NoErr), s.(awake := true);
      } else {
        f, u := Boot(SysOf(l, s.backup), PowerLost), Store(Blank(|s.main|), s.backup, false);
        SysSize(l, s.backup);
        BlankIsTorn(l, Zeros(SYS_OFFSET) + SysOf(l, s.backup), UserOf(l, s.main), |s.main|);
      }
    case Save(boot, sys, user, _) =>
      f, u := Save(boot, sys, user, PowerLost), Store(Blank(|s.main|), s.backup, false);
      BlankIsTorn(l, boot + sys, user, |s.main|);
  }

  /**
   * One call keeps the store sound and leaves the old or the new configuration, whatever becomes of it and
   * wherever it is cut, exactly when it is not exposed.
   */
  lemma StepExact(l: Layout, s: Store, e: Event, t: Store)
    requires Sound(l, s) && Step(l, s, e, t)
    ensures !Exposed(l, s, e) <==>
      forall f, u :: SameCall(e, f) && Step(l, s, f, u) ==> Sound(l, u) && OldOrNew(l, s, f, u)
  {
    hide Sound, Step, OldOrNew;
    if Exposed(l, s, e) {
      var f, u := Breaks(l, s, e, t);
      assert SameCall(e, f) && Step(l, s, f, u);
    } else {
      forall f, u | SameCall(e, f) && Step(l, s, f, u)
        ensures Sound(l, u) && OldOrNew(l, s, f, u)
      {
        StepSafe(l, s, f, u);
      }
    }
  }

  // ----- configurations that share a CRC -----

  /** The configuration to be saved shares its CRC with the different one in the backup. */
  ghost predicate TwinSave(l: Layout, backup: seq<byte>, sys: seq<byte>, user: seq<byte>)
    requires l.Valid() && CRC_OFFSET + 2 <= |backup|
  {
    && sys != SysOf(l, backup)
    && (|| ConfigCrc(sys, user) == CrcFieldOf(backup)
        || (CrcFieldOf(backup) == 0xFFFF && ConfigCrc(sys, Blank(l.userSize)) == 0xFFFF))
  }

  lemma SaveTwins(l: Layout, s: Store, boot: seq<byte>, sys: seq<byte>, user: seq<byte>) returns (t: Store)
    requires Sound(l, s) && s.awake && TwinSave(l, s.backup, sys, user)
    requires |boot| == SYS_OFFSET && |sys| == l.sysSize && |user| == l.userSize && MagicOf(sys) == MAGIC
    ensures Step(l, s, Save(boot, sys, user, PowerLost), t) && Twins(l, t.main, t.backup) && !t.awake
    ensures t.backup == s.backup
  {
    hide Stage, ConfigCrc, SysOf, UserOf, CrcFieldOf, MagicOf;
    var size := |s.main|;
    if ConfigCrc(sys, user) == CrcFieldOf(s.backup) {
      t := Store(Stage(l, boot + sys, user, ConfigCrc(sys, user), size, 3), s.backup, false);
      ImagePasses(l, boot, sys, user, size);
      StageParts(l, boot + sys, user, ConfigCrc(sys, user), size);
    } else {
      t := Store(Stage(l, boot + sys, user, 0, size, 1), s.backup, false);
      FirstStage(l, boot, sys, user, size);
    }
  }

  /** With only the system part written, the user part and the CRC field are still erased. */
  lemma FirstStage(l: Layout, boot: seq<byte>, sys: seq<byte>, user: seq<byte>, size: nat)
    requires l.Valid() && |boot| == SYS_OFFSET && |sys| == l.sysSize && |user| == l.userSize && CRC_OFFSET + 2 <= size
    ensures var c := Stage(l, boot + sys, user, 0, size, 1);
            && Torn(l, c, boot + sys, user) && SysOf(l, c) == sys && UserOf(l, c) == Blank(l.userSize)
            && CrcFieldOf(c) == 0xFFFF
            && (Passes(l, c) <==> ConfigCrc(sys, Blank(l.userSize)) == 0xFFFF)
  {
    hide ConfigCrc, LE;
    var c := Stage(l, boot + sys, user, 0, size, 1);
    assert Torn(l, c, boot + sys, user);
    assert SysOf(l, c) == sys;
    assert UserOf(l, c) == Blank(l.userSize);
    TornPasses(l, c, boot + sys, user);
  }

  lemma OnlyTwinSaves(l: Layout, s: Store, e: Event, t: Store)
    requires Sound(l, s) && Step(l, s, e, t) && !Passes(l, Blank(|s.main|)) && !Twins(l, s.main, s.backup)
    requires e.Save? ==> !TwinSave(l, s.backup, e.sys, e.user)
    ensures !Twins(l, t.main, t.backup)
  {
    hide Stage, ConfigCrc, SysOf, UserOf, CrcFieldOf, Torn, MagicOf, Passes;
    SysSize(l, s.main);
    SysSize(l, s.backup);
    match e
    case Boot(sys, err) =>
      if Passes(l, s.main) {
        MainSplits(l, s.main);
        ImageOrTorn(l, t.backup, s.main[..SYS_OFFSET], sys, UserOf(l, s.main), CrcFieldOf(s.main));
      } else {
        MainSplits(l, s.backup);
        ImageOrTorn(l, t.main, Zeros(SYS_OFFSET), sys, UserOf(l, s.main), CrcFieldOf(s.backup));
      }
    case Save(boot, sys, user, err) =>
      ImageOrTorn(l, t.main, boot, sys, user, ConfigCrc(sys, user));
      ImageOrTorn(l, t.backup, boot, sys, user, ConfigCrc(sys, user));
  }

  /** What a complete or torn copy that passes can hold. */
  lemma ImageOrTorn(l: Layout, c: seq<byte>, boot: seq<byte>, sys: seq<byte>, user: seq<byte>, crc: nat)
    requires l.Valid() && |boot| == SYS_OFFSET && |sys| == l.sysSize && |user| == l.userSize && CRC_OFFSET + 2 <= |c|
    requires crc < 0x1_0000
    ensures c == Stage(l, boot + sys, user, crc, |c|, 3) ==>
      SysOf(l, c) == sys && UserOf(l, c) == user && CrcFieldOf(c) == crc
    ensures Torn(l, c, boot + sys, user) && c != Blank(|c|) ==>
      && SysOf(l, c) == sys && CrcFieldOf(c) == 0xFFFF
      && (Passes(l, c) ==> ConfigCrc(sys, user) == 0xFFFF || ConfigCrc(sys, Blank(l.userSize)) == 0xFFFF)
  {
    hide Stage, ConfigCrc, SysOf, UserOf, CrcFieldOf, Torn, Passes;
    assert (boot + sys)[SYS_OFFSET..] == sys;
    StageParts(l, boot + sys, user, crc, |c|);
    if Torn(l, c, boot + sys, user) {
      TornLoads(l, c, boot + sys, user);
      TornPasses(l, c, boot + sys, user);
    }
  }

  /**
   * Reading twins leaves the backup as it is. Cutting the next save right after it erased the main copy then
   * brings back the backup's configuration, which is neither the one in force nor the new one.
   */
  lemma TwinsFallBack(l: Layout, s: Store, boot: seq<byte>, next: seq<byte>, user: seq<byte>)
    requires Sound(l, s) && Twins(l, s.main, s.backup) && !Passes(l, Blank(|s.main|))
    requires |boot| == SYS_OFFSET && |next| == l.sysSize && |user| == l.userSize && MagicOf(next) == MAGIC
    requires next != SysOf(l, s.backup)
    ensures var read, cut := s.(awake := true), Store(Blank(|s.main|), s.backup, false);
            && Step(l, s, Boot(SysOf(l, s.main), NoErr), read)
            && Step(l, read, Save(boot, next, user, PowerLost), cut)
            && Loads(l, cut.main, cut.backup) == Config(SysOf(l, s.backup))
            && !OldOrNew(l, read, Save(boot, next, user, PowerLost), cut)
  {
    hide Stage, ConfigCrc, SysOf, UserOf, CrcFieldOf, Torn, MagicOf, Passes;
    BlankIsTorn(l, boot + next, user, |s.main|);
  }

  /**
   * A save over a sound store can be followed, after one cut and one read, by a save whose cut loses both its
   * own configuration and the one before it, exactly when it shares its CRC with the configuration it replaces.
   */
  lemma SaveExact(l: Layout, s: Store, boot: seq<byte>, sys: seq<byte>, user: seq<byte>,
                  boot': seq<byte>, next: seq<byte>, user': seq<byte>)
    requires Sound(l, s) && s.awake && !Passes(l, Blank(|s.main|))
    requires |boot| == |boot'| == SYS_OFFSET && |sys| == |next| == l.sysSize && |user| == |user'| == l.userSize
    requires MagicOf(sys) == MAGIC && MagicOf(next) == MAGIC && next != SysOf(l, s.backup)
    ensures TwinSave(l, s.backup, sys, user) <==>
      exists t, e: Event, v, w ::
        && Step(l, s, Save(boot, sys, user, PowerLost), t)
        && e.Boot? && Step(l, t, e, v)
        && Step(l, v, Save(boot', next, user', PowerLost), w)
        && !OldOrNew(l, v, Save(boot', next, user', PowerLost), w)
  {
    hide Sound, Step, OldOrNew, TwinSave, MagicOf, Passes, SysOf, Twins;
    var first, last := Save(boot, sys, user, PowerLost), Save(boot', next, user', PowerLost);
    SoundSizes(l, s);
    if TwinSave(l, s.backup, sys, user) {
      var t := SaveTwins(l, s, boot, sys, user);
      StepSizes(l, s, first, t);
      StepSafe(l, s, first, t);
      TwinsFallBack(l, t, boot', next, user');
      var e, v, w := Boot(SysOf(l, t.main), NoErr), t.(awake := true), Store(Blank(|t.main|), t.backup, false);
      assert Step(l, s, first, t) && Step(l, t, e, v) && Step(l, v, last, w) && !OldOrNew(l, v, last, w);
    } else {
      forall t, e: Event, v, w | Step(l, s, first, t) && e.Boot? && Step(l, t, e, v) && Step(l, v, last, w)
        ensures OldOrNew(l, v, last, w)
      {
        StepSizes(l, s, first, t);
        StepSafe(l, s, first, t);
        OnlyTwinSaves(l, s, first, t);
        StepSizes(l, t, e, v);
        StepSafe(l, t, e, v);
        StepSafe(l, v, last, w);
      }
    }
  }

  lemma SoundSizes(l: Layout, s: Store)
    requires Sound(l, s)
    ensures s.awake ==> Passes(l, s.backup) && !Twins(l, s.main, s.backup)
  {
    hide SysOf, Passes, MagicOf, CrcFieldOf;
  }

  lemma StepSizes(l: Layout, s: Store, e: Event, t: Store)
    requires Sized(l, s) && Step(l, s, e, t)
    ensures |t.main| == |s.main|
  {
    hide Stage, ConfigCrc, SysOf, UserOf, CrcFieldOf, Torn, MagicOf, Passes;
  }

  /** Every configuration has such a twin: add the CRC generator to its first three bytes. */
  lemma {:induction false} AlwaysATwin(l: Layout, s: Store) returns (sys: seq<byte>, user: seq<byte>)
    requires Sound(l, s) && s.awake && 11 <= l.sysSize
    ensures |sys| == l.sysSize && |user| == l.userSize && MagicOf(sys) == MAGIC
    ensures TwinSave(l, s.backup, sys, user)
  {
    hide LE, Crc16.XorBytes, Crc16.Digest;
    var a := SysOf(l, s.backup);
    user := UserOf(l, s.backup);
    var front := Crc16.XorBytes(a[..3], [0x01, 0x10, 0x21]);
    sys := front + a[3..];
    Crc16.GeneratorInvisible(a[..3], a[3..] + user);
    assert a + user == a[..3] + (a[3..] + user) && sys + user == front + (a[3..] + user);
    assert sys[|a| - 8..|a| - 4] == a[|a| - 8..|a| - 4];
    assert sys[..3] == front && a[..3] != front;
  }

  /**
   * Over any run of reads and saves, each cut by a power failure anywhere, some copy is always good and each step
   * leaves exactly the old or the new configuration to be loaded, as long as an erased copy does not pass and no
   * save shares its CRC with the different configuration it replaces.
   */
  lemma {:induction false} RunSafe(l: Layout, states: seq<Store>, events: seq<Event>, n: nat)
    requires |states| == |events| + 1 && n <= |events|
    requires Sound(l, states[0]) && !Twins(l, states[0].main, states[0].backup) && !Passes(l, Blank(|states[0].main|))
    requires forall i :: 0 <= i < |states| ==> Sized(l, states[i])
    requires forall i :: 0 <= i < n ==>
      && Step(l, states[i], events[i], states[i + 1])
      && (events[i].Save? ==> !TwinSave(l, states[i].backup, events[i].sys, events[i].user))
    ensures forall i :: 0 <= i <= n ==> Sound(l, states[i]) && !Twins(l, states[i].main, states[i].backup)
    ensures forall i :: 0 <= i < n ==> OldOrNew(l, states[i], events[i], states[i + 1])
    ensures |states[n].main| == |states[0].main|
  {
    hide Sound, Step, OldOrNew, Sized, TwinSave, Twins, Passes;
    if n > 0 {
      RunSafe(l, states, events, n - 1);
      NextSafe(l, states[n - 1], events[n - 1], states[n]);
    }
  }

  lemma NextSafe(l: Layout, s: Store, e: Event, t: Store)
    requires Sound(l, s) && Sized(l, s) && Sized(l, t) && Step(l, s, e, t)
    requires !Twins(l, s.main, s.backup) && !Passes(l, Blank(|s.main|))
    requires e.Save? ==> !TwinSave(l, s.backup, e.sys, e.user)
    ensures Sound(l, t) && !Twins(l, t.main, t.backup) && OldOrNew(l, s, e, t) && |t.main| == |s.main|
  {
    hide Sound, Step, OldOrNew, TwinSave, Twins, Passes;
    StepSafe(l, s, e, t);
    OnlyTwinSaves(l, s, e, t);
    StepSizes(l, s, e, t);
  }
}

/**
 * The installer and the configuration store share a partition: the update record is the boot table in front of the
 * main configuration copy, and clearing it rewrites that copy.
 */
module SharedFlash {
  import opened Arithmetic
  import opened FlashDriver
  import OtaUpdate
  import opened ParaStorage

  ghost function StoreOf(cells: Cells, awake: bool): Store
    requires OtaUpdate.Usable(cells)
  {
    Store(cells[Parameter1], cells[Parameter2], awake)
  }

  /** Without its boot table a copy holds the same configuration and passes as before. */
  lemma ClearedCopy(l: Layout, main: seq<byte>)
    requires l.Valid() && CRC_OFFSET + 2 <= |main|
    ensures var c := OtaUpdate.Cleared(main);
            && |c| == |main| && SysOf(l, c) == SysOf(l, main) && UserOf(l, c) == UserOf(l, main)
            && CrcFieldOf(c) == CrcFieldOf(main) && (Passes(l, c) <==> Passes(l, main))
  {
    hide ConfigCrc, LE;
    var c := OtaUpdate.Cleared(main);
    SameBehind(c, main, SYS_OFFSET, SYS_OFFSET + l.sysSize);
    SameBehind(c, main, USER_OFFSET, USER_OFFSET + l.userSize);
    SameBehind(c, main, CRC_OFFSET, CRC_OFFSET + 2);
  }

  lemma SameBehind(c: seq<byte>, main: seq<byte>, i: nat, j: nat)
    requires OtaUpdate.RECORD <= i <= j <= |main| && c == OtaUpdate.Cleared(main)
    ensures c[i..j] == main[i..j]
  {
    var r := OtaUpdate.RECORD;
    assert c[i..j] == c[r..][i - r..j - r] && main[i..j] == main[r..][i - r..j - r];
  }

  /**
   * The installer can leave the main copy as it was, without its boot table, or erased. All three load what was
   * loaded before exactly when the backup is good and holds the configuration in force.
   */
  lemma ClearExact(l: Layout, main: seq<byte>, backup: seq<byte>)
    requires l.Valid() && CRC_OFFSET + 2 <= |main| == |backup| && !Passes(l, Blank(|main|))
    requires Loads(l, main, backup).Config?
    ensures Loads(l, OtaUpdate.Cleared(main), backup) == Loads(l, main, backup)
    ensures Loads(l, Blank(|main|), backup) == Loads(l, main, backup) <==>
            Passes(l, backup) && Loads(l, main, backup) == Config(SysOf(l, backup))
  {
    hide ConfigCrc, Passes, SysOf, UserOf, OtaUpdate.Cleared;
    ClearedCopy(l, main);
  }

  /**
   * From a store that the firmware has brought up to date, no update loses the configuration, wherever it is cut:
   * at every instant of every run of boots the next read loads it.
   */
  lemma UpdateKeepsConfiguration(l: Layout, start: Cells, otaStart: nat, now: Cells)
    requires OtaUpdate.WellFormed(start, otaStart) && OtaUpdate.Safe(start, otaStart, now)
    requires Sound(l, StoreOf(start, true)) && !Passes(l, Blank(|start[Parameter1]|))
    ensures OtaUpdate.Usable(now) && Sound(l, StoreOf(now, false))
    ensures Loads(l, now[Parameter1], now[Parameter2]) == Loads(l, start[Parameter1], start[Parameter2])
    ensures !Twins(l, now[Parameter1], now[Parameter2])
  {
    hide ConfigCrc, Passes, SysOf, UserOf, MagicOf, CrcFieldOf, OtaUpdate.Cleared, OtaUpdate.CheckLog,
      OtaUpdate.ImageOf,
      OtaUpdate.LengthOf, OtaUpdate.TypeOf;
    ClearedCopy(l, start[Parameter1]);
    ClearExact(l, start[Parameter1], start[Parameter2]);
    OtaUpdate.AcceptedFits2(start, otaStart);
  }

  /** Every run of boots of an update leaves the configuration to be loaded. */
  method BootsKeepConfiguration(f: Flash, l: Layout, powers: seq<nat>) returns (err: Status)
    requires f.Valid() && OtaUpdate.WellFormed(f.cells, f.otaStart)
    requires OtaUpdate.Target(f.cells) == Bootloader ==> forall i :: 0 <= i < |powers| ==>
      OtaUpdate.Uncut(f.cells, powers[i])
    requires Sound(l, StoreOf(f.cells, true)) && !Passes(l, Blank(|f.cells[Parameter1]|))
    modifies f
    ensures OtaUpdate.Usable(f.cells) && Sound(l, StoreOf(f.cells, false))
    ensures Loads(l, f.cells[Parameter1], f.cells[Parameter2])
      == Loads(l, old(f.cells)[Parameter1], old(f.cells)[Parameter2])
  {
    hide Sound, Passes, Loads, OtaUpdate.Safe, OtaUpdate.WellFormed, OtaUpdate.Installed;
    ghost var start := f.cells;
    err := OtaUpdate.Boots(f, powers);
    UpdateKeepsConfiguration(l, start, f.otaStart, f.cells);
  }
}

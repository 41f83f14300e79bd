/** The boot loader itself: swapboot, and how call_user_start finds its configuration. */
module BootLoader {
  import opened BootFlash
  import opened BootSwap

  /** The first part of swapboot: the flag turned in memory, and the slot that is not in use. */
  method TurnFlag(flash: Flash, configsect: nat) returns (bootconfig: array<bv8>, sectoffset: nat, addroffset: nat)
    requires Fits(flash.cells, configsect)
    ensures fresh(bootconfig) && bootconfig.Length == 4
    ensures 1 <= sectoffset <= 2 && sectoffset == 3 - Slot(Flag(flash.cells, configsect))
    ensures addroffset == sectoffset * 0x1000
    ensures var flagAt := (configsect + 3) * SECTOR;
            bootconfig[..] == [if Flag(flash.cells, configsect) == 0 then 1 else 0]
                              + flash.cells[flagAt + 1..flagAt + 4]
  {
    bootconfig := new bv8[4];
    var configaddr := configsect * 0x1000;
    flash.Read(configaddr + 0x3000, bootconfig, 4);
    assert bootconfig[..4][0] == Flag(flash.cells, configsect);
    ghost var tail := flash.cells[configaddr + 0x3001..configaddr + 0x3004];
    assert bootconfig[..4][1..] == tail;
    if bootconfig[0] == 0 {
      sectoffset, addroffset := 2, 0x2000;
      bootconfig[0] := 1;
    } else {
      sectoffset, addroffset := 1, 0x1000;
      bootconfig[0] := 0;
    }
    assert bootconfig[..] == [bootconfig[0]] + tail;
  }

  /** The second part: the slot's sector with the new configuration copied over its front. */
  method NewSector(flash: Flash, addr: nat, a3: array<bv8>) returns (romconfig: array<bv8>)
    requires a3.Length == 8 && addr + SECTOR <= |flash.cells|
    ensures fresh(romconfig) && romconfig.Length == SECTOR
    ensures romconfig[..] == a3[..] + flash.cells[addr + 8..addr + SECTOR]
  {
    romconfig := new bv8[0x1000];
    flash.Read(addr, romconfig, 0x1000);
    ghost var was := romconfig[..];
    assert was == flash.cells[addr..addr + SECTOR];
    forall i | 0 <= i < 8 {
      romconfig[i] := a3[i];
    }
    assert romconfig[..] == a3[..] + was[8..];
  }

  /** The third part: the slot is written back, and then the flag. */
  method WriteBack(flash: Flash, configsect: nat, sectoffset: nat, romconfig: array<bv8>, bootconfig: array<bv8>,
                   ghost ops: seq<Op>)
    requires Fits(flash.cells, configsect) && sectoffset <= 2 && romconfig.Length == 0x1000 && bootconfig.Length == 4
    requires |ops| == 4 && ops[0] == Erase(configsect + sectoffset) && ops[2] == Erase(configsect + 3)
    requires ops[1] == Op.Write((configsect + sectoffset) * 0x1000, romconfig[..])
    requires ops[3] == Op.Write((configsect + 3) * 0x1000, bootconfig[..])
    modifies flash
    ensures flash.cells == Run(old(flash.cells), ops) && flash.log == old(flash.log) + ops
  {
    hide Do, Run;
    ghost var f, log := flash.cells, flash.log;
    WholeArray(romconfig);
    WholeArray(bootconfig);
    flash.EraseSector(configsect + sectoffset);
    flash.Write((configsect + sectoffset) * 0x1000, romconfig, 0x1000);
    flash.EraseSector(configsect + 3);
    flash.Write((configsect + 3) * 0x1000, bootconfig, 4);
    SwapDone(f, log, ops);
  }

  /** swapboot: configsect is where the configuration area begins, a3 the new configuration. */
  method SwapBoot(flash: Flash, configsect: nat, a3: array<bv8>)
    requires a3.Length == 8 && Fits(flash.cells, configsect)
    modifies flash
    ensures flash.cells == Run(old(flash.cells), SwapOps(old(flash.cells), configsect, a3[..]))
    ensures flash.log == old(flash.log) + SwapOps(old(flash.cells), configsect, a3[..])
  {
    hide Do, Run, Flag, SwapOps, Slot;
    ghost var ops := SwapOps(flash.cells, configsect, a3[..]);
    SwapOpsAre(flash.cells, configsect, a3[..]);
    var bootconfig, sectoffset, addroffset := TurnFlag(flash, configsect);
    var romconfig := NewSector(flash, configsect * 0x1000 + addroffset, a3);
    WriteBack(flash, configsect, sectoffset, romconfig, bootconfig, ops);
  }

  lemma SwapDone(f: seq<bv8>, log: seq<Op>, ops: seq<Op>)
    requires |ops| == 4
    ensures Run(f, ops) == Do(Do(Do(Do(f, ops[0]), ops[1]), ops[2]), ops[3])
    ensures log + ops == log + [ops[0]] + [ops[1]] + [ops[2]] + [ops[3]]
  {
    hide Do, Run;
    assert ops == [ops[0], ops[1], ops[2], ops[3]];
    RunFour(f, ops[0], ops[1], ops[2], ops[3]);
    Logged(log, ops[0], ops[1], ops[2], ops[3]);
  }

  lemma SwapOpsAre(f: seq<bv8>, cs: nat, c: Config)
    requires Fits(f, cs)
    ensures var ops, slot := SwapOps(f, cs, c), 3 - Slot(Flag(f, cs));
            var at, flagAt := (cs + slot) * SECTOR, (cs + 3) * SECTOR;
            && |ops| == 4 && ops[0] == Erase(cs + slot) && ops[2] == Erase(cs + 3)
            && ops[1] == Op.Write(at, c + f[at + 8..at + SECTOR])
            && ops[3] == Op.Write(flagAt, [if Flag(f, cs) == 0 then 1 else 0] + f[flagAt + 1..flagAt + 4])
  {
  }

  lemma Logged(log: seq<Op>, a: Op, b: Op, c: Op, d: Op)
    ensures log + [a] + [b] + [c] + [d] == log + [a, b, c, d]
  {
  }

  lemma WholeArray(a: array<bv8>)
    ensures a[..a.Length] == a[..]
  {
  }

  // ---------------------------------------------------------------- choosing a configuration

  /** Where the area begins, from the flash size in the header of the main image. */
  function ConfigSector(header3: bv8): nat {
    var size := header3 >> 4;
    if size == 1 then 0x3C
    else if size == 2 then 0xFC
    else if size == 3 then 0x1FC
    else if size == 4 then 0x3FC
    else 0x7C
  }

  predicate Bootable(f: seq<bv8>) {
    |f| >= 8 && Fits(f, ConfigSector(f[3]))
  }

  /** Not a configuration the boot loader accepts. */
  predicate Bad(c: Config) {
    c[1] & 0x1F != 3 || c[0] & 3 == 3
  }

  const DEFAULT: Config := [0xFC, 0xE3, 0xFF, 0xFF, 0xFF, 0xFF, 0xFF, 0xFF]

  function Found(f: seq<bv8>): Config
    requires Bootable(f)
  {
    ReadConfig(f, ConfigSector(f[3]))
  }

  /** What a start asks of the flash: nothing, or a swap to a new default configuration. */
  function BootOps(f: seq<bv8>): seq<Op>
    requires Bootable(f)
  {
    if Bad(Found(f)) then SwapOps(f, ConfigSector(f[3]), DEFAULT) else []
  }

  /** The configuration a start goes on with. */
  function BootConfig(f: seq<bv8>): Config
    requires Bootable(f)
  {
    if Bad(Found(f)) then DEFAULT else Found(f)
  }

  lemma MasksOfOnes()
    ensures (0xFF as bv8) & 0xFC == 0xFC && ((0xFF as bv8) & 0xE0) | 3 == 0xE3
    ensures !Bad(DEFAULT)
  {
  }

  lemma SizeCodes(header3: bv8)
    ensures (ConfigSector(header3) + 4) * SECTOR == Announced(header3)
  {
    var size := header3 >> 4;
    assert size == 1 || size == 2 || size == 3 || size == 4 || size == 0 || size as nat >= 5;
  }

  /** The area is the last four sectors of the flash that the header announces; the configuration is read from the
      second of them when the first byte of the last is zero, and from the third otherwise. */
  lemma WhereFound(f: seq<bv8>)
    requires Bootable(f)
    ensures var end := Announced(f[3]);
            && 4 * SECTOR <= end <= |f|
            && var at := if f[end - SECTOR] == 0 then end - 3 * SECTOR else end - 2 * SECTOR;
               Found(f) == f[at..at + 8]
  {
    SizeCodes(f[3]);
  }

  lemma LowFive(b: bv8)
    ensures (b & 0x1F) as int == b as int % 32 && (b & 3) as int == b as int % 4
  {
  }

  /** A configuration is acceptable when the five low bits of its second byte say 3 and the two low bits of its first
      byte name an image. */
  lemma AcceptedMeans(c: Config)
    ensures !Bad(c) <==> c[1] as int % 32 == 3 && c[0] as int % 4 != 3
  {
    LowFive(c[1]);
    LowFive(c[0]);
  }

  /** A new configuration: all ones, then the bits that choose the first image. */
  method SetDefault(romconf: array<bv8>)
    requires romconf.Length == 8
    modifies romconf
    ensures romconf[..] == DEFAULT
  {
    forall i | 0 <= i < 8 {
      romconf[i] := 0xFF;
    }
    romconf[0] := romconf[0] & 0xFC;
    romconf[1] := romconf[1] & 0xE0;
    romconf[1] := romconf[1] | 3;
    MasksOfOnes();
  }

  /** call_user_start, up to the point where it has a configuration to boot from. */
  method Start(flash: Flash) returns (romconf: array<bv8>)
    requires Bootable(flash.cells)
    modifies flash
    ensures fresh(romconf) && romconf.Length == 8 && romconf[..] == BootConfig(old(flash.cells))
    ensures flash.cells == Run(old(flash.cells), BootOps(old(flash.cells)))
    ensures flash.log == old(flash.log) + BootOps(old(flash.cells))
  {
    ghost var f := flash.cells;
    hide Run, SwapOps;
    var header := new bv8[8];
    var config := new bv8[4];
    romconf := new bv8[8];
    flash.Read(0, header, 8);
    assert header[..8][3] == f[3];
    var a12 := ConfigSector(header[3]);
    flash.Read(a12 * 0x1000 + 0x3000, config, 4);
    assert config[..4][0] == Flag(f, a12);
    var a2 := if config[0] == 0 then 1 else 2;
    flash.Read((a2 + a12) * 0x1000, romconf, 8);
    assert romconf[..] == Found(f);
    if romconf[1] & 0x1F != 3 || romconf[0] & 3 == 3 {
      SetDefault(romconf);
      SwapBoot(flash, a12, romconf);
    } else {
      NoOps(f);
    }
  }

  lemma NoOps(f: seq<bv8>)
    ensures Run(f, []) == f
  {
  }

  lemma HeaderKept(f: seq<bv8>, g: seq<bv8>)
    requires Bootable(f) && |g| == |f| && g[..SECTOR] == f[..SECTOR]
    ensures Bootable(g) && g[3] == f[3]
  {
    assert g[..SECTOR][3] == f[..SECTOR][3];
  }

  /** A start settles: the flash it leaves behind holds the configuration it booted from, and the next
      start boots from the same one and leaves the flash alone. */
  lemma StartSettles(f: seq<bv8>)
    requires Bootable(f)
    ensures var g := Run(f, BootOps(f));
            Bootable(g) && Found(g) == BootConfig(f) && BootConfig(g) == BootConfig(f) && BootOps(g) == []
  {
    hide Run, SwapOps, ReadConfig, Bad;
    MasksOfOnes();
    var cs := ConfigSector(f[3]);
    if Bad(Found(f)) {
      var ops := SwapOps(f, cs, DEFAULT);
      SwapCompletes(f, cs, DEFAULT);
      assert ops[..|ops|] == ops;
      RunIsCrash(f, ops, |ops|);
      SwapIsAtomic(f, cs, DEFAULT, Run(f, ops));
      HeaderKept(f, Run(f, ops));
    } else {
      NoOps(f);
    }
  }

  /** Whatever a power failure during a start leaves behind, the next start boots from the configuration
      the interrupted one would have booted from. */
  lemma StartSurvives(f: seq<bv8>, g: seq<bv8>)
    requires Bootable(f) && Crash(f, BootOps(f), g)
    ensures Bootable(g) && BootConfig(g) == BootConfig(f)
  {
    hide Run, SwapOps, ReadConfig, Bad;
    MasksOfOnes();
    if Bad(Found(f)) {
      SwapIsAtomic(f, ConfigSector(f[3]), DEFAULT, g);
      HeaderKept(f, g);
    }
  }

  /** A swap cut off anywhere, and then a start: it boots from the old configuration, from the new one,
      or, when what it finds is not acceptable, from the default. */
  lemma StartAfterSwap(f: seq<bv8>, c: Config, g: seq<bv8>)
    requires Bootable(f) && Crash(f, SwapOps(f, ConfigSector(f[3]), c), g)
    ensures Bootable(g) && (BootConfig(g) == BootConfig(f) || BootConfig(g) == if Bad(c) then DEFAULT else c)
  {
    hide SwapOps, ReadConfig, Bad, Crash;
    SwapIsAtomic(f, ConfigSector(f[3]), c, g);
    HeaderKept(f, g);
  }
}

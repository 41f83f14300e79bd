/** find_image, and that a second boot repeats the choice of the first. */
module RBootFind {
  import opened BootFlash
  import opened RBootImage
  import opened RBoot

  /** A number stored in a buffer, lowest byte first. */
  method PutWord(buffer: array<bv8>, at: nat, n: nat)
    requires at + 4 <= buffer.Length && n < WORD
    modifies buffer
    ensures buffer[..at] == old(buffer[..at]) && buffer[at..at + 4] == Le32(n)
    ensures buffer[at + 4..] == old(buffer[at + 4..])
  {
    hide Le32;
    var w := Le32(n);
    forall i | 0 <= i < 4 {
      buffer[at + i] := w[i];
    }
  }

  /** A configuration is made up when there is none, and written. */
  method Settle(flash: Flash, flags2: bv8, buffer: array<bv8>)
    requires Bootable(flash.cells) && flags2 == flash.cells[3] && buffer.Length == SECTOR
    requires buffer[..] == Config(flash.cells)
    modifies flash, buffer
    ensures buffer[..] == Settled(old(flash.cells))
    ensures flash.cells == Ready(old(flash.cells)) && flash.log == old(flash.log) + SettleOps(old(flash.cells))
  {
    hide Do, Le32;
    ghost var f, log := flash.cells, flash.log;
    if buffer[0] != 0xE1 || buffer[1] != 0x01 {
      MakeDefault(buffer, FlashSize(flags2));
      WriteBack(flash, buffer);
      TwoOps(f, Settled(f));
    } else {
      NoOps(f);
      assert log + [] == log;
    }
  }

  method MakeDefault(buffer: array<bv8>, flashsize: nat)
    requires buffer.Length == SECTOR && flashsize <= 0x40_0000
    modifies buffer
    ensures buffer[..] == Default(old(buffer[..]), flashsize)
  {
    hide Le32;
    ghost var was := buffer[..];
    forall i | 0 <= i < 24 {
      buffer[i] := 0;
    }
    assert buffer[24..] == was[24..];
    buffer[0], buffer[1], buffer[5] := 0xE1, 0x01, 2;
    ghost var zeros := buffer[16..24];
    assert buffer[..8] == [0xE1, 0x01, 0, 0, 0, 2, 0, 0];
    PutWord(buffer, 8, 0x2000);
    ghost var front, back := buffer[..12], buffer[12..];
    assert front[..8] == buffer[..8] && front[8..12] == buffer[8..12];
    assert zeros == back[4..12] && was[24..] == back[12..];
    PutWord(buffer, 12, flashsize / 2 + 0x2000);
    ZeroWords();
    assert buffer[..8] == front[..8] && buffer[8..12] == front[8..12];
    assert buffer[16..24] == buffer[16..][..8] && buffer[24..] == buffer[16..][8..];
    assert back[4..12] == back[4..][..8] && back[12..] == back[4..][8..];
    Pieces(buffer[..], [0xE1, 0x01, 0, 0, 0, 2, 0, 0], Le32(0x2000), Le32(flashsize / 2 + 0x2000), zeros, was[24..]);
    assert zeros == [0, 0, 0, 0] + [0, 0, 0, 0];
  }

  lemma Pieces(b: seq<bv8>, head: seq<bv8>, x: seq<bv8>, y: seq<bv8>, zeros: seq<bv8>, rest: seq<bv8>)
    requires |head| == 8 && |x| == |y| == 4 && |zeros| == 8 && |b| == 24 + |rest|
    requires b[..8] == head && b[8..12] == x && b[12..16] == y && b[16..24] == zeros && b[24..] == rest
    ensures b == head + x + y + zeros + rest
  {
  }

  lemma ZeroWords()
    ensures Le32(0) == [0, 0, 0, 0]
  {
  }

  /** The addresses of the slots, as they are stored. */
  function Words(roms: seq<nat>): seq<bv8>
    requires forall i :: 0 <= i < |roms| ==> roms[i] < WORD
  {
    if roms == [] then [] else Le32(roms[0]) + Words(roms[1..])
  }

  lemma {:induction false} WordRead(c: seq<bv8>, at: nat, roms: seq<nat>, rest: seq<bv8>, slot: nat)
    requires (forall i :: 0 <= i < |roms| ==> roms[i] < WORD) && slot < |roms|
    requires at <= |c| && c[at..] == Words(roms) + rest
    ensures at + 4 * slot + 4 <= |c| && U32(c, at + 4 * slot) == roms[slot]
    decreases |roms|
  {
    hide Le32, U32;
    var w := Le32(roms[0]);
    assert c[at..] == w + (Words(roms[1..]) + rest);
    if slot == 0 {
      assert c[at..at + 4] == c[at..][..4] == w;
      Le32Read(c, at, roms[0]);
    } else {
      assert c[at + 4..] == c[at..][4..] == Words(roms[1..]) + rest;
      WordRead(c, at + 4, roms[1..], rest, slot - 1);
    }
  }

  /** Where the parts of a configuration are: magic, version, mode, current slot, slot for the pin, number of slots, two
      unused bytes, and the addresses, lowest byte first. */
  lemma ConfigRead(c: Sector, mode: bv8, current: bv8, pinned: bv8, count: bv8, unused: seq<bv8>, roms: seq<nat>,
                   rest: seq<bv8>)
    requires |unused| == 2 && |roms| <= 0x100 && forall i :: 0 <= i < |roms| ==> roms[i] < WORD
    requires c == [0xE1, 0x01, mode, current, pinned, count] + unused + (Words(roms) + rest)
    ensures !Fresh(c) && Current(c) == current as int && Count(c) == count as int && c[4] == pinned
    ensures (Pin(c, true) <==> mode & 1 == 1) && !Pin(c, false)
    ensures forall slot: nat :: slot < |roms| ==> Rom(c, slot) == roms[slot]
  {
    hide Words, U32, Rom, Pin, Current, Count, Fresh;
    ConfigBytes(c, mode, current, pinned, count, unused, Words(roms) + rest);
    RomsRead(c, roms, rest);
    FieldsRead(c);
    LowBit(c[2]);
  }

  lemma ConfigBytes(c: Sector, mode: bv8, current: bv8, pinned: bv8, count: bv8, unused: seq<bv8>, rest: seq<bv8>)
    requires |unused| == 2 && c == [0xE1, 0x01, mode, current, pinned, count] + unused + rest
    ensures c[0] == 0xE1 && c[1] == 0x01 && c[2] == mode && c[3] == current && c[4] == pinned && c[5] == count
    ensures c[8..] == rest
  {
    var head := [0xE1, 0x01, mode, current, pinned, count];
    assert (head + unused + rest)[8..] == rest;
  }

  lemma FieldsRead(c: Sector)
    ensures Fresh(c) <==> c[0] != 0xE1 || c[1] != 0x01
    ensures Current(c) == c[3] as int && Count(c) == c[5] as int
    ensures (Pin(c, true) <==> c[2] & 1 != 0) && !Pin(c, false)
  {
  }

  lemma RomsRead(c: Sector, roms: seq<nat>, rest: seq<bv8>)
    requires |roms| <= 0x100 && (forall i :: 0 <= i < |roms| ==> roms[i] < WORD) && c[8..] == Words(roms) + rest
    ensures forall slot: nat :: slot < |roms| ==> Rom(c, slot) == roms[slot]
  {
    hide Words, U32;
    forall slot: nat | slot < |roms| ensures Rom(c, slot) == roms[slot] {
      WordRead(c, 8, roms, rest, slot);
    }
  }

  lemma LowBit(mode: bv8)
    ensures mode & 1 != 0 <==> mode & 1 == 1
  {
  }

  /** The configuration that is made up has no pin and starts with the first of two slots, one in each half of the
      flash and each at the start of a sector, behind the two sectors of boot loader and configuration. */
  lemma FreshSlots(f: seq<bv8>)
    requires Bootable(f) && Fresh(Config(f))
    ensures var c, size := Settled(f), if Announced(f[3]) < 0x10_0000 then Announced(f[3]) else 0x10_0000;
            && !Fresh(c) && !Pin(c, true) && Count(c) == 2 && First(c) == 0
            && Rom(c, 0) == 2 * SECTOR && Rom(c, 1) == size / 2 + 2 * SECTOR
            && Rom(c, 0) % SECTOR == 0 && Rom(c, 1) % SECTOR == 0
  {
    hide Le32, U32;
    SizeReckoned(f[3]);
    var c := Settled(f);
    SizeWhole(f[3]);
    var second := FlashSize(f[3]) / 2 + 0x2000;
    assert c[8..12] == Le32(0x2000) && c[12..16] == Le32(second);
    Le32Read(c, 8, 0x2000);
    Le32Read(c, 12, second);
  }

  lemma SizeWhole(flags2: bv8)
    ensures FlashSize(flags2) / 2 % SECTOR == 0 && (FlashSize(flags2) / 2 + 0x2000) % SECTOR == 0
  {
  }

  /** The sector erased and written. */
  method WriteBack(flash: Flash, buffer: array<bv8>)
    requires Bootable(flash.cells) && buffer.Length == SECTOR
    modifies flash
    ensures flash.cells == Do(Do(old(flash.cells), Erase(1)), Op.Write(CONFIG, buffer[..]))
    ensures flash.log == old(flash.log) + WriteConfig(buffer[..])
  {
    hide Do;
    assert buffer[..SECTOR] == buffer[..];
    ghost var log := flash.log;
    flash.EraseSector(1);
    flash.Write(CONFIG, buffer, SECTOR);
    TwoLogged(log, Erase(1), Op.Write(CONFIG, buffer[..]));
  }

  lemma TwoLogged(log: seq<Op>, a: Op, b: Op)
    ensures log + [a] + [b] == log + [a, b]
  {
  }

  lemma NoOps(f: seq<bv8>)
    ensures Run(f, []) == f
  {
  }

  lemma TwoOps(f: seq<bv8>, c: Sector)
    ensures Run(f, WriteConfig(c)) == Do(Do(f, Erase(1)), Op.Write(CONFIG, c))
  {
    hide Do, Run;
    var a, b := Erase(1), Op.Write(CONFIG, c);
    assert [a] + [b] == [a, b] && [b] + [] == [b];
    RunStep(f, a, [b]);
    RunStep(Do(f, a), b, []);
    NoOps(Do(Do(f, a), b));
  }

  lemma SearchStep(f: seq<bv8>, c: Sector, first: nat, k: nat)
    requires first < Count(c) && k < Count(c)
    ensures Search(f, c, first, k) ==
            if Check(f, Rom(c, Slot(first, Count(c), k))) != 0 then k else Search(f, c, first, k + 1)
    ensures Search(f, c, first, Count(c)) == Count(c)
  {
    hide Check, Rom, Slot;
  }

  /** One slot checked, and noted as tried. */
  method CheckRom(flash: Flash, buffer: array<bv8>, slot: nat, bufferSize: nat, ghost before: seq<nat>)
    returns (runAddr: nat, ghost tried: seq<nat>)
    requires Bootable(flash.cells) && buffer.Length == SECTOR && slot < 0x100 && bufferSize >= 16
    ensures runAddr == Check(flash.cells, Rom(buffer[..], slot)) && tried == before + [slot]
  {
    hide Check, U32;
    tried := before + [slot];
    runAddr := CheckImage(flash, U32(buffer[..], 8 + 4 * slot), bufferSize);
  }

  /** The first so many slots in the order of the tries. */
  ghost predicate Tried(tried: seq<nat>, first: nat, count: nat, k: nat)
    requires first < count && k <= count
  {
    |tried| == k && forall i :: 0 <= i < k ==> tried[i] == Slot(first, count, i)
  }

  lemma TriedMore(tried: seq<nat>, first: nat, count: nat, k: nat)
    requires first < count && k < count && ((k == 0 && tried == []) || Tried(tried, first, count, k))
    ensures Tried(tried + [Slot(first, count, k)], first, count, k + 1)
  {
    hide Slot;
  }

  lemma TriedOnce(tried: seq<nat>, first: nat, count: nat, k: nat)
    requires first < count && k <= count && Tried(tried, first, count, k)
    ensures forall i, j :: 0 <= i < j < |tried| ==> tried[i] != tried[j]
  {
    forall i, j | 0 <= i < j < |tried| ensures tried[i] != tried[j] {
      EverySlot(first, count, tried[i]);
    }
  }

  /** The loop over the slots: the first that is good, or none. It checks the slots in order up to that one, or
      all of them, and none twice. */
  method TryRoms(flash: Flash, buffer: array<bv8>, first: nat, bufferSize: nat, ghost c: Sector)
    returns (runAddr: nat, romToBoot: nat, ghost tried: seq<nat>)
    requires Bootable(flash.cells) && buffer.Length == SECTOR && buffer[..] == c && first < Count(c) && bufferSize >= 16
    ensures var j := Search(flash.cells, c, first, 0);
            Tried(tried, first, Count(c), if j == Count(c) then j else j + 1)
    ensures forall i, j :: 0 <= i < j < |tried| ==> tried[i] != tried[j]
    ensures var j := Search(flash.cells, c, first, 0);
            if j == Count(c) then runAddr == 0
            else romToBoot == Slot(first, Count(c), j) && runAddr == Check(flash.cells, Rom(c, romToBoot)) != 0
  {
    hide Check, U32, Search, Slot, Rom, Tried;
    ghost var f, k: nat := flash.cells, 0;
    romToBoot := first;
    SlotFirst(first, Count(c));
    runAddr, tried := CheckRom(flash, buffer, romToBoot, bufferSize, []);
    SearchStep(f, c, first, 0);
    TriedMore([], first, Count(c), 0);
    while runAddr == 0
      invariant k < Count(c) && romToBoot == Slot(first, Count(c), k) && c == buffer[..]
      invariant runAddr == Check(f, Rom(c, romToBoot))
      invariant Tried(tried, first, Count(c), k + 1)
      invariant Search(f, c, first, 0) == if runAddr != 0 then k else Search(f, c, first, k + 1)
      decreases Count(c) - k
    {
      SlotStep(first, Count(c), k);
      SearchStep(f, c, first, k);
      romToBoot := if romToBoot == 0 then FromByte(buffer[5]) - 1 else romToBoot - 1;
      if romToBoot == first {
        TriedOnce(tried, first, Count(c), k + 1);
        return;
      }
      k := k + 1;
      SearchStep(f, c, first, k);
      ghost var before := tried;
      runAddr, tried := CheckRom(flash, buffer, romToBoot, bufferSize, tried);
      TriedMore(before, first, Count(c), k);
    }
    TriedOnce(tried, first, Count(c), k + 1);
  }

  lemma SlotFirst(first: nat, count: nat)
    requires first < count
    ensures Slot(first, count, 0) == first
  {
  }

  lemma SlotStep(first: nat, count: nat, k: nat)
    requires first < count && k < count
    ensures var s := Slot(first, count, k);
            var t: nat := if s == 0 then count - 1 else s - 1;
            if k + 1 < count then t == Slot(first, count, k + 1) && t != first else t == first
  {
  }

  /** Only the current slot differs, so the addresses and the other settings are the same. */
  lemma CurrentApart(c: Sector, x: bv8)
    ensures var d := c[3 := x]; Count(d) == Count(c) && forall s: nat :: s < 0x100 ==> Rom(d, s) == Rom(c, s)
  {
  }

  lemma {:induction false} SearchApart(f: seq<bv8>, c: Sector, x: bv8, first: nat, k: nat)
    requires first < Count(c) && k <= Count(c)
    ensures Count(c[3 := x]) == Count(c) && Search(f, c[3 := x], first, k) == Search(f, c, first, k)
    decreases Count(c) - k
  {
    hide Check, Rom, Slot;
    CurrentApart(c, x);
    if k < Count(c) {
      SearchApart(f, c, x, first, k + 1);
    }
  }

  /** Where the search starts; a slot that does not exist counts as the first one. */
  method PickFirst(buffer: array<bv8>, ghost c: Sector) returns (updateConfig: bool, first: nat, ghost d: Sector)
    requires buffer.Length == SECTOR && buffer[..] == c && Count(c) > 0
    modifies buffer
    ensures updateConfig == (Current(c) >= Count(c)) && first == First(c)
    ensures buffer[..] == d && (d == c || d == c[3 := 0])
  {
    hide Rom;
    updateConfig := FromByte(buffer[3]) >= FromByte(buffer[5]);
    d := c;
    if updateConfig {
      buffer[3] := 0;
      d := c[3 := 0];
      ByteBack(0);
    }
    first := FromByte(buffer[3]);
  }

  /** The chosen slot is kept, when it is not the configured one. */
  method KeepRom(flash: Flash, buffer: array<bv8>, keep: bool, romToBoot: nat, ghost c: Sector, ghost d: Sector)
    requires Bootable(flash.cells) && buffer.Length == SECTOR && romToBoot < 0x100
    requires buffer[..] == d && (d == c || d == c[3 := 0])
    modifies flash, buffer
    ensures var ops := if keep then WriteConfig(c[3 := ToByte(romToBoot)]) else [];
            flash.cells == Run(old(flash.cells), ops) && flash.log == old(flash.log) + ops
  {
    hide Run, Do, ToByte;
    ghost var log := flash.log;
    NoOps(flash.cells);
    assert log + [] == log;
    if keep {
      ghost var f := flash.cells;
      buffer[3] := ToByte(romToBoot);
      assert buffer[..] == d[3 := ToByte(romToBoot)] == c[3 := ToByte(romToBoot)];
      WriteBack(flash, buffer);
      TwoOps(f, buffer[..]);
    }
  }

  /** The part of find_image behind the configuration. */
  method ChooseRom(flash: Flash, buffer: array<bv8>, bufferSize: nat, ghost c: Sector) returns (runAddr: nat)
    requires Bootable(flash.cells) && buffer.Length == SECTOR && buffer[..] == c && Count(c) > 0 && bufferSize >= 16
    modifies flash, buffer
    ensures var f := old(flash.cells);
            var j := Search(f, c, First(c), 0);
            && runAddr == (if j == Count(c) then 0 else Check(f, Rom(c, Slot(First(c), Count(c), j))))
            && var ops := if j < Count(c) && (j > 0 || Current(c) >= Count(c))
                          then WriteConfig(c[3 := ToByte(Slot(First(c), Count(c), j))]) else [];
               flash.cells == Run(f, ops) && flash.log == old(flash.log) + ops
  {
    hide Check, Search, Slot, Rom, Run, Do, Count, Current, WriteConfig;
    ghost var f, log := flash.cells, flash.log;
    ghost var d;
    var updateConfig, first;
    updateConfig, first, d := PickFirst(buffer, c);
    SearchApart(f, c, 0, First(c), 0);
    CurrentApart(c, 0);
    var romToBoot;
    ghost var tried;
    runAddr, romToBoot, tried := TryRoms(flash, buffer, first, bufferSize, d);
    if runAddr == 0 {
      NoOps(f);
      assert log + [] == log;
      return;
    }
    SlotZero(first, Count(c), Search(f, c, first, 0));
    KeepRom(flash, buffer, updateConfig || romToBoot != first, romToBoot, c, d);
  }

  /** The first try is the first slot, and no other. */
  lemma SlotZero(first: nat, count: nat, j: nat)
    requires first < count && j < count
    ensures Slot(first, count, j) == first <==> j == 0
  {
  }

  /** find_image. */
  method FindImage(flash: Flash, low: bool, bufferSize: nat) returns (runAddr: nat)
    requires Bootable(flash.cells) && Count(Settled(flash.cells)) > 0 && bufferSize >= 16
    modifies flash
    ensures runAddr == Answer(old(flash.cells), low)
    ensures flash.cells == Run(old(flash.cells), BootOps(old(flash.cells), low))
    ensures flash.log == old(flash.log) + BootOps(old(flash.cells), low)
  {
    hide Check, Settled, SettleOps, Run, Do, Search, Rom, Count, Current, WriteConfig;
    ghost var f, log := flash.cells, flash.log;
    var buffer := new bv8[SECTOR];
    var flags2 := ReadFlags(flash, buffer);
    flash.Read(CONFIG, buffer, SECTOR);
    assert buffer[..] == Config(f);
    Settle(flash, flags2, buffer);
    ghost var c := Settled(f);
    if buffer[2] & 1 != 0 && low {
      ghost var tried;
      runAddr, tried := CheckRom(flash, buffer, FromByte(buffer[4]), bufferSize, []);
      return;
    }
    runAddr := ChooseRom(flash, buffer, bufferSize, c);
    ghost var more := if Try(f) < Count(c) && (Try(f) > 0 || Current(c) >= Count(c))
                      then WriteConfig(c[3 := ToByte(Chosen(f))]) else [];
    RunBoth(f, SettleOps(f), more);
    assert log + (SettleOps(f) + more) == log + SettleOps(f) + more;
    assert more == [] ==> SettleOps(f) + more == SettleOps(f);
  }

  method ReadFlags(flash: Flash, buffer: array<bv8>) returns (flags2: bv8)
    requires Bootable(flash.cells) && buffer.Length == SECTOR
    modifies buffer
    ensures flags2 == flash.cells[3]
  {
    flash.Read(0, buffer, 8);
    assert buffer[..8][3] == flash.cells[3];
    flags2 := buffer[3];
  }

  lemma {:induction false} RunBoth(f: seq<bv8>, a: seq<Op>, b: seq<Op>)
    ensures Run(f, a + b) == Run(Run(f, a), b)
    decreases |a|
  {
    hide Do;
    if a == [] {
      assert a + b == b;
    } else {
      assert (a + b)[1..] == a[1..] + b;
      RunBoth(Do(f, a[0]), a[1..], b);
    }
  }
}

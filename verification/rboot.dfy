/** rBoot's choice of an image: the configured one, or the next good one below it, which is then kept. */
module RBoot {
  import opened BootFlash
  import opened RBootImage

  const CONFIG: nat := SECTOR

  /** The boot configuration is the front of a sector: magic, version, mode, current slot, slot for the
      pin, number of slots, two unused bytes, and the addresses. */
  type Sector = s: seq<bv8> | |s| == SECTOR witness seq(SECTOR, i => 0)

  function Count(c: Sector): (n: nat)
    ensures n < 0x100
  {
    FromByte(c[5])
  }

  function Current(c: Sector): nat {
    FromByte(c[3])
  }

  /** The address of a slot. The array in the program ends at four; the buffer goes on. */
  function Rom(c: Sector, slot: nat): nat
    requires slot < 0x100
  {
    U32(c, 8 + 4 * slot)
  }

  function FlashSize(flags2: bv8): nat {
    var flag := flags2 >> 4;
    if flag == 1 then 0x4_0000
    else if flag == 2 || flag == 3 || flag == 4 then 0x10_0000
    else 0x8_0000
  }

  predicate Bootable(f: seq<bv8>) {
    2 * SECTOR <= |f| < WORD
  }

  function Config(f: seq<bv8>): Sector
    requires Bootable(f)
  {
    f[CONFIG..CONFIG + SECTOR]
  }

  /** A fresh flash, or a configuration of another version. */
  predicate Fresh(c: Sector) {
    c[0] != 0xE1 || c[1] != 0x01
  }

  /** Two slots, at the start and in the middle of the flash; the rest of the sector stays. */
  function Default(c: Sector, size: nat): Sector
    requires size <= 0x40_0000
  {
    [0xE1, 0x01, 0, 0, 0, 2, 0, 0] + Le32(0x2000) + Le32(size / 2 + 0x2000) + Le32(0) + Le32(0) + c[24..]
  }

  function WriteConfig(c: Sector): seq<Op> {
    [Erase(1), Write(CONFIG, c)]
  }

  /** The configuration a boot works with, and the flash after it was made sure to be there. */
  function Settled(f: seq<bv8>): Sector
    requires Bootable(f)
  {
    if Fresh(Config(f)) then Default(Config(f), FlashSize(f[3])) else Config(f)
  }

  function SettleOps(f: seq<bv8>): seq<Op>
    requires Bootable(f)
  {
    if Fresh(Config(f)) then WriteConfig(Settled(f)) else []
  }

  /** The size rBoot reckons with: the announced one, up to the eight megabits that can be mapped. */
  lemma SizeReckoned(flags2: bv8)
    ensures FlashSize(flags2) == if Announced(flags2) < 0x10_0000 then Announced(flags2) else 0x10_0000
  {
    var flag := flags2 >> 4;
    assert flag == 1 || flag == 2 || flag == 3 || flag == 4 || flag == 0 || flag as nat >= 5;
  }

  // ---------------------------------------------------------------- the search

  /** The k-th slot to be tried: downwards from the first, and round. */
  function Slot(first: nat, count: nat, k: nat): (s: nat)
    requires first < count && k < count
    ensures s < count
  {
    if k <= first then first - k else first + count - k
  }

  /** Is the image of the k-th slot good? */
  predicate Good(f: seq<bv8>, c: Sector, first: nat, k: nat)
    requires first < Count(c) && k < Count(c)
  {
    Check(f, Rom(c, Slot(first, Count(c), k))) != 0
  }

  /** The first good slot in the order they are tried; the number of slots when there is none. */
  function Search(f: seq<bv8>, c: Sector, first: nat, k: nat): (j: nat)
    requires first < Count(c) && k <= Count(c)
    ensures k <= j <= Count(c)
    ensures forall i :: k <= i < j ==> !Good(f, c, first, i)
    ensures j < Count(c) ==> Good(f, c, first, j)
    decreases Count(c) - k
  {
    if k == Count(c) || Good(f, c, first, k) then k else Search(f, c, first, k + 1)
  }

  /** Every slot has its turn, once. */
  lemma EverySlot(first: nat, count: nat, slot: nat)
    requires first < count && slot < count
    ensures exists k :: 0 <= k < count && Slot(first, count, k) == slot
    ensures forall k, l :: 0 <= k < count && 0 <= l < count && Slot(first, count, k) == Slot(first, count, l) ==> k == l
  {
    var k := if slot <= first then first - slot else first + count - slot;
    assert Slot(first, count, k) == slot;
  }

  /** The slot a boot starts with. */
  function First(c: Sector): nat {
    if Current(c) >= Count(c) then 0 else Current(c)
  }

  /** The pin selects a slot of its own, when the configuration says so. */
  predicate Pin(c: Sector, low: bool) {
    c[2] & 1 != 0 && low
  }

  /** The flash a boot chooses an image from. */
  function Ready(f: seq<bv8>): (g: seq<bv8>)
    requires Bootable(f)
    ensures |g| == |f|
  {
    Run(f, SettleOps(f))
  }

  /** Which try of a boot without the pin succeeds. */
  function Try(f: seq<bv8>): (j: nat)
    requires Bootable(f) && Count(Settled(f)) > 0
    ensures j <= Count(Settled(f))
  {
    Search(Ready(f), Settled(f), First(Settled(f)), 0)
  }

  /** The slot that is booted. */
  function Chosen(f: seq<bv8>): (slot: nat)
    requires Bootable(f) && Count(Settled(f)) > 0 && Try(f) < Count(Settled(f))
    ensures slot < Count(Settled(f))
  {
    Slot(First(Settled(f)), Count(Settled(f)), Try(f))
  }

  /** What find_image answers. */
  function Answer(f: seq<bv8>, low: bool): nat
    requires Bootable(f) && Count(Settled(f)) > 0
  {
    var c := Settled(f);
    if Pin(c, low) then Check(Ready(f), Rom(c, FromByte(c[4])))
    else if Try(f) < Count(c) then Check(Ready(f), Rom(c, Chosen(f)))
    else 0
  }

  /** What it asks of the flash: a new configuration when there was none, and the chosen slot when it is
      not the configured one. */
  function BootOps(f: seq<bv8>, low: bool): seq<Op>
    requires Bootable(f) && Count(Settled(f)) > 0
  {
    var c := Settled(f);
    if !Pin(c, low) && Try(f) < Count(c) && (Try(f) > 0 || Current(c) >= Count(c))
    then SettleOps(f) + WriteConfig(c[3 := ToByte(Chosen(f))])
    else SettleOps(f)
  }

  /** Zero exactly when every slot is bad. */
  lemma NoneIsGood(f: seq<bv8>)
    requires Bootable(f) && Count(Settled(f)) > 0
    ensures var c := Settled(f);
            Answer(f, false) == 0 <==> forall slot: nat :: slot < Count(c) ==> Check(Ready(f), Rom(c, slot)) == 0
  {
    hide Check, Settled, Ready, Rom;
    var c := Settled(f);
    if Try(f) < Count(c) {
      assert Good(Ready(f), c, First(c), Try(f));
    } else {
      forall slot: nat | slot < Count(c) ensures Check(Ready(f), Rom(c, slot)) == 0 {
        EverySlot(First(c), Count(c), slot);
        var k :| 0 <= k < Count(c) && Slot(First(c), Count(c), k) == slot;
        assert !Good(Ready(f), c, First(c), k);
      }
    }
  }

  /** The chosen slot is the first good one in the order of the tries. */
  lemma ChosenIsFirst(f: seq<bv8>)
    requires Bootable(f) && Count(Settled(f)) > 0 && Try(f) < Count(Settled(f))
    ensures var c := Settled(f);
            && Check(Ready(f), Rom(c, Chosen(f))) != 0
            && forall i: nat :: i < Try(f) ==> Check(Ready(f), Rom(c, Slot(First(c), Count(c), i))) == 0
  {
    hide Check, Settled, Ready, Rom;
    var c := Settled(f);
    assert Good(Ready(f), c, First(c), Try(f));
    forall i: nat | i < Try(f) ensures Check(Ready(f), Rom(c, Slot(First(c), Count(c), i))) == 0 {
      assert !Good(Ready(f), c, First(c), i);
    }
  }
}

/** The boot loader's two configuration slots: a swap writes the slot not in use and then turns the flag. */
module BootSwap {
  import opened BootFlash

  /** A rom_config: byte0, byte1 and two addresses of three bytes. */
  type Config = s: seq<bv8> | |s| == 8 witness [0, 0, 0, 0, 0, 0, 0, 0]

  /** The configuration area: four sectors from cs on; the first is not used. */
  predicate Fits(f: seq<bv8>, cs: nat) {
    1 <= cs && (cs + 4) * SECTOR <= |f|
  }

  function Flag(f: seq<bv8>, cs: nat): bv8
    requires Fits(f, cs)
  {
    f[(cs + 3) * SECTOR]
  }

  /** The slot the boot loader reads. */
  function Slot(flag: bv8): nat {
    if flag == 0 then 1 else 2
  }

  function SlotConfig(f: seq<bv8>, cs: nat, slot: nat): Config
    requires Fits(f, cs) && slot <= 3
  {
    f[(cs + slot) * SECTOR..(cs + slot) * SECTOR + 8]
  }

  function ReadConfig(f: seq<bv8>, cs: nat): Config
    requires Fits(f, cs)
  {
    SlotConfig(f, cs, Slot(Flag(f, cs)))
  }

  /** What swapboot asks of the flash. */
  function SwapOps(f: seq<bv8>, cs: nat, c: Config): seq<Op>
    requires Fits(f, cs)
  {
    var slot := 3 - Slot(Flag(f, cs));
    var flag: bv8 := if Flag(f, cs) == 0 then 1 else 0;
    var at, flagAt := (cs + slot) * SECTOR, (cs + 3) * SECTOR;
    [Erase(cs + slot), Write(at, c + f[at + 8..at + SECTOR]),
     Erase(cs + 3), Write(flagAt, [flag] + f[flagAt + 1..flagAt + 4])]
  }

  /** An operation within one sector of the area. */
  predicate Within(op: Op, cs: nat, slot: nat) {
    op.Lo() >= (cs + slot) * SECTOR && op.Hi() <= (cs + slot + 1) * SECTOR
  }

  lemma Outside(f: seq<bv8>, op: Op, g: seq<bv8>, lo: nat, hi: nat)
    requires Torn(f, op, g) && lo <= hi <= |f| && (hi <= op.Lo() || op.Hi() <= lo)
    ensures |g| == |f| && g[lo..hi] == f[lo..hi]
  {
    forall i | lo <= i < hi ensures g[i] == f[i] {
      assert op.TornCell(i, f[i], g[i]);
    }
  }

  /** Cut off inside one sector, an operation leaves the other slots and, outside sector 3, the flag. */
  lemma TornWithin(f: seq<bv8>, cs: nat, op: Op, slot: nat, g: seq<bv8>)
    requires Fits(f, cs) && 1 <= slot <= 3 && Within(op, cs, slot) && Torn(f, op, g)
    ensures |g| == |f| && forall s: nat :: 1 <= s <= 2 && s != slot ==> SlotConfig(g, cs, s) == SlotConfig(f, cs, s)
    ensures slot != 3 ==> Flag(g, cs) == Flag(f, cs)
    ensures g[..SECTOR] == f[..SECTOR]
  {
    hide Torn;
    Outside(f, op, g, 0, SECTOR);
    forall s: nat | 1 <= s <= 2 && s != slot ensures SlotConfig(g, cs, s) == SlotConfig(f, cs, s) {
      Outside(f, op, g, (cs + s) * SECTOR, (cs + s) * SECTOR + 8);
    }
    if slot != 3 {
      Outside(f, op, g, (cs + 3) * SECTOR, (cs + 3) * SECTOR + 1);
      assert g[(cs + 3) * SECTOR..(cs + 3) * SECTOR + 1][0] == f[(cs + 3) * SECTOR..(cs + 3) * SECTOR + 1][0];
    }
  }

  // ---------------------------------------------------------------- a completed swap

  /** The two agree everywhere but in these n cells. */
  ghost predicate SameBut(f: seq<bv8>, g: seq<bv8>, at: nat, n: nat) {
    |g| == |f| && forall i :: 0 <= i < |f| && !(at <= i < at + n) ==> g[i] == f[i]
  }

  /** The first half of a swap: the slot not in use holds the new configuration, in front of the rest of
      its own sector. */
  lemma SlotWritten(f: seq<bv8>, cs: nat, c: Config)
    requires Fits(f, cs)
    ensures var ops, slot := SwapOps(f, cs, c), 3 - Slot(Flag(f, cs));
            var g := Do(Do(f, ops[0]), ops[1]);
            |g| == |f| && SlotConfig(g, cs, slot) == c && SameBut(f, g, (cs + slot) * SECTOR, 8)
  {
    hide Do, SameBut, Flag;
    SectorWritten(f, cs + (3 - Slot(Flag(f, cs))), c);
  }

  lemma SectorWritten(f: seq<bv8>, sector: nat, c: Config)
    requires sector * SECTOR + SECTOR <= |f|
    ensures var at := sector * SECTOR;
            var g := Do(Do(f, Erase(sector)), Write(at, c + f[at + 8..at + SECTOR]));
            |g| == |f| && g[at..at + 8] == c && SameBut(f, g, at, 8)
  {
    hide Do;
    var at := sector * SECTOR;
    var data := c + f[at + 8..at + SECTOR];
    EraseWrite(f, sector, data);
    forall i | 8 <= i < SECTOR ensures data[i] == f[at + i] {
      assert data[i] == f[at + 8..at + SECTOR][i - 8];
    }
  }

  /** The second half: the flag is turned, and nothing outside its sector changes. */
  lemma FlagTurned(f: seq<bv8>, h: seq<bv8>, cs: nat, c: Config)
    requires Fits(f, cs) && |h| == |f|
    ensures var ops := SwapOps(f, cs, c);
            var g := Do(Do(h, ops[2]), ops[3]);
            && |g| == |f| && Slot(Flag(g, cs)) == 3 - Slot(Flag(f, cs))
            && SameBut(h, g, (cs + 3) * SECTOR, SECTOR)
  {
    hide Do;
    EraseWrite(h, cs + 3, SwapOps(f, cs, c)[3].data);
  }

  /** A completed swap: the new configuration is the one that is read, in front of the rest of its own
      sector; everything else but the flag's sector is as it was, and the flag is turned. */
  lemma SwapCompletes(f: seq<bv8>, cs: nat, c: Config)
    requires Fits(f, cs)
    ensures var g, slot := Run(f, SwapOps(f, cs, c)), 3 - Slot(Flag(f, cs));
            && ReadConfig(g, cs) == c && Slot(Flag(g, cs)) == slot
            && SameButTwo(f, g, (cs + slot) * SECTOR, 8, (cs + 3) * SECTOR, SECTOR)
  {
    hide Do, Run, SameBut, Flag;
    var ops, slot := SwapOps(f, cs, c), 3 - Slot(Flag(f, cs));
    RunFour(f, ops[0], ops[1], ops[2], ops[3]);
    OpsWithin(f, cs, c);
    SlotWritten(f, cs, c);
    hide SwapOps;
    var h := Do(Do(f, ops[0]), ops[1]);
    FlagTurned(f, h, cs, c);
    var g := Do(Do(h, ops[2]), ops[3]);
    SlotKept(h, g, cs, slot);
    SameChain(f, h, g, (cs + slot) * SECTOR, 8, (cs + 3) * SECTOR, SECTOR);
  }

  ghost predicate SameButTwo(f: seq<bv8>, g: seq<bv8>, a: nat, n: nat, b: nat, m: nat) {
    |g| == |f| && forall i :: 0 <= i < |f| && !(a <= i < a + n) && !(b <= i < b + m) ==> g[i] == f[i]
  }

  lemma SameChain(f: seq<bv8>, h: seq<bv8>, g: seq<bv8>, a: nat, n: nat, b: nat, m: nat)
    requires SameBut(f, h, a, n) && SameBut(h, g, b, m)
    ensures SameButTwo(f, g, a, n, b, m)
  {
  }

  lemma SlotKept(h: seq<bv8>, g: seq<bv8>, cs: nat, slot: nat)
    requires Fits(h, cs) && 1 <= slot <= 2 && SameBut(h, g, (cs + 3) * SECTOR, SECTOR)
    ensures Fits(g, cs) && SlotConfig(g, cs, slot) == SlotConfig(h, cs, slot)
  {
  }

  lemma OpsWithin(f: seq<bv8>, cs: nat, c: Config)
    requires Fits(f, cs)
    ensures var ops, slot := SwapOps(f, cs, c), 3 - Slot(Flag(f, cs));
            && |ops| == 4 && ops == [ops[0], ops[1], ops[2], ops[3]]
            && Within(ops[0], cs, slot) && Within(ops[1], cs, slot) && Within(ops[2], cs, 3) && Within(ops[3], cs, 3)
  {
  }

  // ---------------------------------------------------------------- a swap that is cut off

  lemma DoWithin(f: seq<bv8>, cs: nat, op: Op, slot: nat)
    requires Fits(f, cs) && 1 <= slot <= 3 && Within(op, cs, slot)
    ensures var g := Do(f, op);
            && |g| == |f| && (forall s: nat :: 1 <= s <= 2 && s != slot ==>
                SlotConfig(g, cs, s) == SlotConfig(f, cs, s))
            && (slot != 3 ==> Flag(g, cs) == Flag(f, cs)) && g[..SECTOR] == f[..SECTOR]
  {
    hide Torn, Do, SlotConfig, Flag;
    TornEnds(f, op);
    TornWithin(f, cs, op, slot, Do(f, op));
  }

  /** Power may fail at any point of a swap, in the middle of an erase or a write: what is read next is
      the whole old configuration or the whole new one. */
  lemma SwapIsAtomic(f: seq<bv8>, cs: nat, c: Config, g: seq<bv8>)
    requires Fits(f, cs) && Crash(f, SwapOps(f, cs, c), g)
    ensures |g| == |f| && (ReadConfig(g, cs) == ReadConfig(f, cs) || ReadConfig(g, cs) == c)
    ensures g[..SECTOR] == f[..SECTOR]
  {
    hide Do, Torn, Crash, SwapOps, SlotConfig, Flag, Within;
    var ops, slot := SwapOps(f, cs, c), 3 - Slot(Flag(f, cs));
    OpsWithin(f, cs, c);
    CrashFour(f, ops[0], ops[1], ops[2], ops[3], g);
    var f1 := Do(f, ops[0]);
    DoWithin(f, cs, ops[0], slot);
    var f2 := Do(f1, ops[1]);
    DoWithin(f1, cs, ops[1], slot);
    var f3 := Do(f2, ops[2]);
    DoWithin(f2, cs, ops[2], 3);
    SlotWritten(f, cs, c);
    if Torn(f, ops[0], g) {
      TornWithin(f, cs, ops[0], slot, g);
    } else if Torn(f1, ops[1], g) {
      TornWithin(f1, cs, ops[1], slot, g);
    } else if Torn(f2, ops[2], g) {
      TornWithin(f2, cs, ops[2], 3, g);
    } else {
      TornWithin(f3, cs, ops[3], 3, g);
    }
  }

  // ---------------------------------------------------------------- any number of swaps

  /** A swap to a configuration, run to its end or cut off. */
  datatype Attempt = Attempt(config: Config, done: bool)

  ghost predicate History(f: seq<bv8>, cs: nat, as_: seq<Attempt>, g: seq<bv8>)
    requires Fits(f, cs)
    decreases |as_|
  {
    if as_ == [] then g == f
    else
      var a := as_[|as_| - 1];
      exists h :: History(f, cs, as_[..|as_| - 1], h) && Fits(h, cs)
        && if a.done then g == Run(h, SwapOps(h, cs, a.config)) else Crash(h, SwapOps(h, cs, a.config), g)
  }

  /** The configurations that may be found: that of the last swap that was completed, and those of the
      swaps cut off since. */
  function Current(first: Config, as_: seq<Attempt>): set<Config>
    decreases |as_|
  {
    if as_ == [] then {first}
    else
      var a := as_[|as_| - 1];
      if a.done then {a.config} else Current(first, as_[..|as_| - 1]) + {a.config}
  }

  /** After any history of swaps, completed or cut off, a whole configuration is found: that of the last completed
      swap, or that of one cut off since. */
  lemma {:induction false} EveryHistory(f: seq<bv8>, cs: nat, as_: seq<Attempt>, g: seq<bv8>)
    requires Fits(f, cs) && History(f, cs, as_, g)
    ensures Fits(g, cs) && ReadConfig(g, cs) in Current(ReadConfig(f, cs), as_)
    decreases |as_|
  {
    hide Crash, Run, SwapOps, ReadConfig;
    if as_ != [] {
      var a, rest := as_[|as_| - 1], as_[..|as_| - 1];
      var h :| History(f, cs, rest, h) && Fits(h, cs)
        && if a.done then g == Run(h, SwapOps(h, cs, a.config)) else Crash(h, SwapOps(h, cs, a.config), g);
      EveryHistory(f, cs, rest, h);
      if a.done {
        SwapCompletes(h, cs, a.config);
      } else {
        SwapIsAtomic(h, cs, a.config, g);
      }
    }
  }
}

/** Power failing while rBoot writes its configuration: unlike the two slots of boot 1.3, the one sector is not
    written atomically. */
module RBootCrash {
  import opened BootFlash
  import opened RBootImage
  import opened RBoot
  import opened RBootFind
  import opened RBootAgain

  /** Every bit that is set in b is set in a. */
  ghost predicate Covers(a: Sector, b: Sector) {
    forall i :: 0 <= i < SECTOR ==> a[i] & b[i] == b[i]
  }

  lemma CrashTwo(f: seq<bv8>, a: Op, b: Op, g: seq<bv8>)
    requires Crash(f, [a, b], g)
    ensures Torn(f, a, g) || Torn(Do(f, a), b, g)
  {
    hide Do, Torn, Crash;
    CrashStep(f, a, [b], g);
    CrashStep(Do(f, a), b, [], g);
    assert [a] + [b] == [a, b] && [b] + [] == [b];
    CrashNone(Do(Do(f, a), b), g);
    TornEnds(Do(f, a), b);
  }

  /** Whatever a power failure leaves, nothing outside the configuration sector has changed, and the bits of that
      sector that are set include those of the old configuration or those of the new one. */
  lemma CrashedConfig(h: seq<bv8>, d: Sector, g: seq<bv8>)
    requires Bootable(h) && Crash(h, WriteConfig(d), g)
    ensures |g| == |h| && (Covers(Config(g), Config(h)) || Covers(Config(g), d))
    ensures forall i :: 0 <= i < |h| && !(CONFIG <= i < CONFIG + SECTOR) ==> g[i] == h[i]
  {
    hide Crash, Torn, Do, Covers;
    CrashTwo(h, Erase(1), Op.Write(CONFIG, d), g);
    if Torn(h, Erase(1), g) {
      TornErase(h, g);
    } else {
      TornWrite(h, Do(h, Erase(1)), d, g);
    }
  }

  lemma TornErase(h: seq<bv8>, g: seq<bv8>)
    requires Bootable(h) && Torn(h, Erase(1), g)
    ensures |g| == |h| && Covers(Config(g), Config(h))
    ensures forall i :: 0 <= i < |h| && !(CONFIG <= i < CONFIG + SECTOR) ==> g[i] == h[i]
  {
    forall i | 0 <= i < SECTOR ensures Config(g)[i] & Config(h)[i] == Config(h)[i] {
      assert Erase(1).TornCell(CONFIG + i, h[CONFIG + i], g[CONFIG + i]);
    }
  }

  lemma TornWrite(h: seq<bv8>, e: seq<bv8>, d: Sector, g: seq<bv8>)
    requires Bootable(h) && e == Do(h, Erase(1)) && Torn(e, Op.Write(CONFIG, d), g)
    ensures |g| == |h| && Covers(Config(g), d)
    ensures forall i :: 0 <= i < |h| && !(CONFIG <= i < CONFIG + SECTOR) ==> g[i] == h[i]
  {
    forall i | 0 <= i < SECTOR ensures Config(g)[i] & d[i] == d[i] {
      assert Op.Write(CONFIG, d).TornCell(CONFIG + i, e[CONFIG + i], g[CONFIG + i]);
      AndOnes(d[i]);
    }
    forall i | 0 <= i < |h| && !(CONFIG <= i < CONFIG + SECTOR) ensures g[i] == h[i] {
      assert Op.Write(CONFIG, d).TornCell(i, e[i], g[i]);
    }
  }

  /** Erased but for the magic and the version. */
  function HeadOnly(h: seq<bv8>): (g: seq<bv8>)
    requires Bootable(h)
    ensures |g| == |h|
  {
    Do(h, Erase(1))[CONFIG := 0xE1][CONFIG + 1 := 0x01]
  }

  lemma HeadOnlyCrash(h: seq<bv8>, d: Sector, rest: seq<Op>)
    requires Bootable(h) && !Fresh(d)
    ensures Crash(h, WriteConfig(d) + rest, HeadOnly(h))
  {
    hide Crash;
    var a, b, e, g := Erase(1), Op.Write(CONFIG, d), Do(h, Erase(1)), HeadOnly(h);
    forall i | 0 <= i < |e| ensures b.TornCell(i, e[i], g[i]) {
      if b.Lo() <= i < b.Hi() {
        AndOnes(d[i - CONFIG]);
        AndOnes(g[i]);
        MoreOnes(d[i - CONFIG]);
      }
    }
    CrashStep(h, a, [b] + rest, g);
    CrashStep(e, b, rest, g);
    assert [a] + ([b] + rest) == WriteConfig(d) + rest;
  }

  lemma MoreOnes(d: bv8)
    ensures 0xFF & d == d && d & d == d && d & 0xFF == d
  {
  }

  lemma HeadOnlyConfig(h: seq<bv8>)
    requires Bootable(h)
    ensures var c := Config(HeadOnly(h));
            && !Fresh(c) && Count(c) == 0xFF && c[4] == 0xFF
            && forall slot: nat :: slot < 0x100 ==> Rom(c, slot) == 0xFFFF_FFFF
  {
    var g := HeadOnly(h);
    var c := Config(g);
    assert c[0] == g[CONFIG] && c[1] == g[CONFIG + 1];
    forall i | 2 <= i < SECTOR ensures c[i] == 0xFF {
      assert c[i] == g[CONFIG + i];
    }
  }

  /** No boot finds an image, whatever the pin, and none changes the flash: so it stays. */
  ghost predicate Stuck(g: seq<bv8>) {
    && Bootable(g) && Count(Settled(g)) > 0
    && forall low :: Answer(g, low) == 0 && Run(g, BootOps(g, low)) == g
  }

  lemma NoImageErased(g: seq<bv8>)
    ensures Check(g, 0xFFFF_FFFF) == 0
  {
  }

  /** Magic and version are there, so the configuration is not made up again, and every address is still erased. */
  lemma HeadOnlyStuck(h: seq<bv8>)
    requires Bootable(h)
    ensures Stuck(HeadOnly(h))
  {
    hide Rom, HeadOnly, Fresh, Config, Do, Run, Check;
    var g := HeadOnly(h);
    HeadOnlyConfig(h);
    Settles(g);
    var c := Config(g);
    NoImageErased(g);
    forall slot: nat | slot < Count(c) ensures Check(Ready(g), Rom(c, slot)) == 0 {
      assert Rom(c, slot) == 0xFFFF_FFFF;
    }
    NoneIsGood(g);
    if Try(g) < Count(c) {
      ChosenIsFirst(g);
    }
    assert Rom(c, FromByte(c[4])) == 0xFFFF_FFFF;
    NoOps(g);
  }

  /** What a boot writes starts with a whole configuration. */
  lemma BootWrites(f: seq<bv8>, low: bool) returns (d: Sector, rest: seq<Op>)
    requires Bootable(f) && Count(Settled(f)) > 0 && BootOps(f, low) != []
    ensures BootOps(f, low) == WriteConfig(d) + rest && !Fresh(d)
  {
    hide Settled, Fresh, Try, Chosen, ToByte;
    NeverFresh(f, 0);
    if SettleOps(f) != [] {
      d, rest := Settled(f), BootOps(f, low)[2..];
    } else {
      NeverFresh(f, ToByte(Chosen(f)));
      d, rest := Settled(f)[3 := ToByte(Chosen(f))], [];
    }
  }

  /** Power can fail in a boot so that it and every later boot, whatever the pin, finds no image and repairs
      nothing: for every flash, exactly when the boot writes to it at all, or when it is stuck already. */
  lemma StuckForever(f: seq<bv8>, low: bool)
    requires Bootable(f) && Count(Settled(f)) > 0
    ensures (exists g :: Crash(f, BootOps(f, low), g) && Stuck(g)) <==> BootOps(f, low) != [] || Stuck(f)
  {
    hide BootOps, HeadOnly, Stuck, Crash, WriteConfig, Settled;
    if BootOps(f, low) != [] {
      var d, rest := BootWrites(f, low);
      HeadOnlyCrash(f, d, rest);
      HeadOnlyStuck(f);
    } else {
      forall g ensures Crash(f, BootOps(f, low), g) <==> g == f {
        CrashNone(f, g);
      }
    }
  }
}

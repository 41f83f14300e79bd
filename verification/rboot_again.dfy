/** A second boot: exactly when it makes the choice of the first and leaves the flash alone. The only cell a
    boot changes is the one with the current slot, and an image may lie over it. */
module RBootAgain {
  import opened BootFlash
  import opened RBootImage
  import opened RBoot
  import opened RBootFind

  /** Where the current slot is stored. */
  const CELL: nat := CONFIG + 3

  // ---------------------------------------------------------------- what the checker reads at that place

  /** The cell is in the length of one of the sections. */
  predicate InLengths(f: seq<bv8>, pos: nat, count: nat)
    decreases count
  {
    count > 0 && pos + 8 <= |f|
    && (pos + 4 <= CELL < pos + 8 || InLengths(f, pos + 8 + U32(f, pos + 4), count - 1))
  }

  /** The cell is one of the bytes of the sections. */
  predicate InBytes(f: seq<bv8>, pos: nat, count: nat)
    decreases count
  {
    count > 0 && pos + 8 <= |f|
    && (pos + 8 <= CELL < pos + 8 + U32(f, pos + 4) || InBytes(f, pos + 8 + U32(f, pos + 4), count - 1))
  }

  /** The cell says what kind of image is at pos, or where its parts are. */
  predicate InShape(f: seq<bv8>, pos: nat) {
    match Header(f, pos)
    case NoHeader => false
    case Starts(start) =>
      || CELL == pos || CELL == pos + 1 || (f[pos] == 0xEA && pos + 12 <= CELL < pos + 16) || CELL == start + 1
      || (start + 8 <= |f| && InLengths(f, start + 8, FromByte(f[start + 1])))
  }

  /** The cell is among the bytes the image at pos is made of. */
  predicate InImage(f: seq<bv8>, pos: nat) {
    match Header(f, pos)
    case NoHeader => false
    case Starts(start) => start + 8 <= |f| && InBytes(f, start + 8, FromByte(f[start + 1]))
  }

  lemma WordApart(f: seq<bv8>, x: bv8, i: nat)
    requires CELL < |f| && i + 4 <= |f| && !(i <= CELL < i + 4)
    ensures U32(f[CELL := x], i) == U32(f, i)
  {
  }

  lemma {:induction false} CellPassed(f: seq<bv8>, pos: nat, count: nat)
    requires CELL < pos
    ensures !InBytes(f, pos, count) && !InLengths(f, pos, count)
    decreases count
  {
    if count > 0 && pos + 8 <= |f| {
      CellPassed(f, pos + 8 + U32(f, pos + 4), count - 1);
    }
  }

  // ---------------------------------------------------------------- the checksum

  function Plus(a: bv8, b: bv8): bv8 {
    a ^ b
  }

  lemma PlusRules(a: bv8, b: bv8, c: bv8)
    ensures Plus(Plus(a, b), c) == Plus(Plus(a, c), b) && Plus(a, 0) == a
    ensures Plus(Plus(a, b), Plus(b, c)) == Plus(a, c)
    ensures (a == Plus(a, b) <==> b == 0) && (Plus(a, b) == 0 <==> a == b)
  {
  }

  lemma XorStep(a: bv8, s: seq<bv8>)
    requires s != []
    ensures Xor(a, s) == Xor(Plus(a, s[0]), s[1..])
  {
  }

  lemma XorNone(a: bv8)
    ensures Xor(a, []) == a && XorAll(a, []) == a
  {
  }

  lemma {:induction false} XorShift(a: bv8, d: bv8, s: seq<bv8>)
    ensures Xor(Plus(a, d), s) == Plus(Xor(a, s), d)
    decreases |s|
  {
    hide Xor, Plus;
    if s == [] {
      XorNone(a);
      XorNone(Plus(a, d));
    } else {
      XorStep(a, s);
      XorStep(Plus(a, d), s);
      PlusRules(a, d, s[0]);
      XorShift(Plus(a, s[0]), d, s[1..]);
    }
  }

  lemma {:induction false} XorAllShift(a: bv8, d: bv8, ss: seq<Section>)
    ensures XorAll(Plus(a, d), ss) == Plus(XorAll(a, ss), d)
    decreases |ss|
  {
    hide Xor, Plus;
    if ss != [] {
      XorShift(a, d, ss[0].bytes);
      XorAllShift(Xor(a, ss[0].bytes), d, ss[1..]);
    }
  }

  lemma {:induction false} XorChanged(a: bv8, s: seq<bv8>, i: nat, x: bv8)
    requires i < |s|
    ensures Xor(a, s[i := x]) == Plus(Xor(a, s), Plus(s[i], x))
    decreases |s|
  {
    hide Xor, Plus;
    XorStep(a, s);
    XorStep(a, s[i := x]);
    if i == 0 {
      assert s[0 := x][1..] == s[1..];
      PlusRules(a, s[0], x);
      XorShift(Plus(a, s[0]), Plus(s[0], x), s[1..]);
    } else {
      assert s[i := x][1..] == s[1..][i - 1 := x];
      XorChanged(Plus(a, s[0]), s[1..], i - 1, x);
    }
  }

  /** What a change of the cell adds to the checksum. */
  function Change(f: seq<bv8>, x: bv8, there: bool): bv8
    requires CELL < |f|
  {
    if there then Plus(f[CELL], x) else 0
  }

  /** One section, with the cell changed. */
  lemma SectionChanged(f: seq<bv8>, pos: nat, x: bv8, a: bv8) returns (s: Section)
    requires CELL < |f| && HasSection(f, pos) && !(pos + 4 <= CELL < pos + 8)
    ensures HasSection(f[CELL := x], pos) && U32(f[CELL := x], pos + 4) == U32(f, pos + 4)
    ensures s == SectionAt(f[CELL := x], pos)
    ensures var d := Change(f, x, pos + 8 <= CELL < pos + 8 + U32(f, pos + 4));
            Xor(a, s.bytes) == Plus(Xor(a, SectionAt(f, pos).bytes), d)
  {
    hide U32, Xor, Plus;
    var g := f[CELL := x];
    WordApart(f, x, pos + 4);
    s := SectionAt(g, pos);
    var from, to := pos + 8, pos + 8 + U32(f, pos + 4);
    var b := f[from..to];
    PlusRules(Xor(a, b), 0, 0);
    if from <= CELL < to {
      assert g[from..to] == b[CELL - from := x];
      XorChanged(a, b, CELL - from, x);
    } else {
      assert g[from..to] == b;
    }
  }

  lemma XorAllStep(a: bv8, s: Section, ss: seq<Section>)
    ensures XorAll(a, [s] + ss) == XorAll(Xor(a, s.bytes), ss)
  {
    assert ([s] + ss)[1..] == ss;
  }

  /** All sections, with the cell changed. */
  lemma {:induction false} WalkChanged(f: seq<bv8>, pos: nat, count: nat, x: bv8, a: bv8)
    requires CELL < |f| && Walk(f, pos, count).Walked? && !InLengths(f, pos, count)
    ensures var v, w := Walk(f, pos, count), Walk(f[CELL := x], pos, count);
            && w.Walked? && w.end == v.end
            && XorAll(a, w.sections) == Plus(XorAll(a, v.sections), Change(f, x, InBytes(f, pos, count)))
    decreases count
  {
    hide U32, Xor, XorAll, Plus, SectionAt, HasSection;
    var g := f[CELL := x];
    if count == 0 {
      PlusRules(a, 0, 0);
      XorNone(a);
    } else {
      WalkStep(f, pos, count);
      WalkStep(g, pos, count);
      var len := U32(f, pos + 4);
      var s := SectionChanged(f, pos, x, a);
      var next := pos + 8 + len;
      var b := Xor(a, SectionAt(f, pos).bytes);
      var d := Change(f, x, pos + 8 <= CELL < next);
      WalkChanged(f, next, count - 1, x, Plus(b, d));
      var v := Walk(f, next, count - 1).sections;
      XorAllShift(b, d, v);
      XorAllStep(a, SectionAt(f, pos), v);
      XorAllStep(a, s, Walk(g, next, count - 1).sections);
      if pos + 8 <= CELL < next {
        CellPassed(f, next, count - 1);
        PlusRules(XorAll(b, v), d, 0);
        PlusRules(Plus(XorAll(b, v), d), 0, 0);
      } else {
        PlusRules(XorAll(b, v), 0, 0);
      }
    }
  }

  // ---------------------------------------------------------------- the check, with the cell changed

  lemma SoundChanged(f: seq<bv8>, pos: nat, x: bv8)
    requires CELL < |f| && x != f[CELL] && Sound(f, pos) && CELL != pos + 1
    requires !InLengths(f, pos + 8, FromByte(f[pos + 1]))
    ensures Sound(f[CELL := x], pos) <==> !InBytes(f, pos + 8, FromByte(f[pos + 1]))
  {
    hide U32, Xor, XorAll, Plus, Walk, InLengths, InBytes;
    var count := FromByte(f[pos + 1]);
    WalkChanged(f, pos + 8, count, x, CHKSUM_INIT);
    var v := Walk(f, pos + 8, count);
    PlusRules(f[CELL], x, 0);
    PlusRules(XorAll(CHKSUM_INIT, v.sections), Plus(f[CELL], x), 0);
    PlusRules(XorAll(CHKSUM_INIT, v.sections), 0, 0);
    NotTheChecksum(v.end);
  }

  /** The checksum is the last byte of a block of sixteen, and the cell is not. */
  lemma NotTheChecksum(end: nat)
    ensures RoundUp(end) != CELL
  {
  }

  lemma HeaderChanged(f: seq<bv8>, pos: nat, x: bv8)
    requires CELL < |f| && Header(f, pos).Starts? && !InShape(f, pos)
    ensures Header(f[CELL := x], pos) == Header(f, pos)
  {
    hide U32, InLengths;
    if f[pos] == 0xEA {
      WordApart(f, x, pos + 12);
    }
  }

  /** A good image stays good when the cell is changed, exactly if the cell is not among its bytes. */
  lemma CheckChanged(f: seq<bv8>, pos: nat, x: bv8)
    requires CELL < |f| && x != f[CELL] && Check(f, pos) != 0 && !InShape(f, pos)
    ensures Check(f[CELL := x], pos) == if InImage(f, pos) then 0 else Check(f, pos)
  {
    hide Sound, InLengths, InBytes, Header;
    HeaderChanged(f, pos, x);
    ShapeParts(f, pos);
    SoundChanged(f, Header(f, pos).pos, x);
  }

  lemma ShapeParts(f: seq<bv8>, pos: nat)
    requires Check(f, pos) != 0 && !InShape(f, pos)
    ensures Header(f, pos).Starts? && var start := Header(f, pos).pos;
            && Sound(f, start) && start + 8 <= |f| && CELL != start + 1
            && !InLengths(f, start + 8, FromByte(f[start + 1])) && Check(f, pos) == start
            && (InImage(f, pos) <==> InBytes(f, start + 8, FromByte(f[start + 1])))
  {
    hide Walk, InLengths, InBytes, XorAll, Header;
  }

  // ---------------------------------------------------------------- the second boot

  /** Writing a configuration that differs in the current slot changes that cell and no other. */
  lemma Rewritten(h: seq<bv8>, c: Sector, x: bv8)
    requires Bootable(h) && Config(h) == c
    ensures Run(h, WriteConfig(c[3 := x])) == h[CELL := x] && Config(h[CELL := x]) == c[3 := x]
    ensures h[CELL] == c[3] && h[CELL := x][3] == h[3]
  {
    hide Do, Run;
    var d: Sector := c[3 := x];
    TwoOps(h, d);
    EraseWrite(h, 1, d);
    var g := Do(Do(h, Erase(1)), Op.Write(CONFIG, d));
    forall i | 0 <= i < |h| ensures g[i] == h[CELL := x][i] {
      if CONFIG <= i < CONFIG + SECTOR {
        assert Config(h)[i - CONFIG] == h[i];
      }
    }
    assert g == h[CELL := x];
    assert Config(g) == d;
  }

  lemma NeverFresh(f: seq<bv8>, x: bv8)
    requires Bootable(f)
    ensures !Fresh(Settled(f)) && !Fresh(Settled(f)[3 := x])
  {
  }

  /** What a boot finds after its configuration was settled. */
  lemma SettledStays(f: seq<bv8>)
    requires Bootable(f)
    ensures Bootable(Ready(f)) && Config(Ready(f)) == Settled(f)
  {
    hide Do, Run, WriteConfig;
    if Fresh(Config(f)) {
      Configured(f, Settled(f));
    } else {
      NoOps(f);
    }
  }

  /** The flash after a configuration was written. */
  lemma Configured(f: seq<bv8>, c: Sector)
    requires Bootable(f)
    ensures var g := Run(f, WriteConfig(c)); Bootable(g) && Config(g) == c
  {
    hide Do, Run;
    TwoOps(f, c);
    EraseWrite(f, 1, c);
  }

  /** A flash with a configuration is not settled again. */
  lemma Settles(g: seq<bv8>)
    requires Bootable(g) && !Fresh(Config(g))
    ensures Settled(g) == Config(g) && SettleOps(g) == [] && Ready(g) == g
  {
    NoOps(g);
  }

  /** Does a boot without the pin, which found a good image, write the chosen slot back? */
  predicate Rewrites(f: seq<bv8>)
    requires Bootable(f) && Count(Settled(f)) > 0 && Try(f) < Count(Settled(f))
  {
    Try(f) > 0 || Current(Settled(f)) >= Count(Settled(f))
  }

  /** The next boot gives the same answer from the same slot and asks nothing of the flash. */
  predicate Repeats(f: seq<bv8>)
    requires Bootable(f) && Count(Settled(f)) > 0 && Try(f) < Count(Settled(f))
  {
    var g := Run(f, BootOps(f, false));
    && Bootable(g) && Count(Settled(g)) > 0 && Try(g) < Count(Settled(g))
    && Chosen(g) == Chosen(f) && Answer(g, false) == Answer(f, false) && BootOps(g, false) == []
  }

  /** Writing back the chosen slot does the chosen image no harm: it is not written, or the cell is not one of
      the image's bytes; where the cell gives the shape of the image, the changed image must check the same. */
  predicate Unharmed(f: seq<bv8>)
    requires Bootable(f) && Count(Settled(f)) > 0 && Try(f) < Count(Settled(f))
  {
    var c, h := Settled(f), Ready(f);
    var pos := Rom(c, Chosen(f));
    Rewrites(f) ==>
      if InShape(h, pos) then Check(h[CELL := ToByte(Chosen(f))], pos) == Check(h, pos) else !InImage(h, pos)
  }

  lemma NewSlot(f: seq<bv8>)
    requires Bootable(f) && Count(Settled(f)) > 0 && Try(f) < Count(Settled(f)) && Rewrites(f)
    ensures ToByte(Chosen(f)) != Settled(f)[3]
  {
    hide Settled, Ready;
    ByteBack(Chosen(f));
    SlotZero(First(Settled(f)), Count(Settled(f)), Try(f));
  }

  /** With the chosen slot as the current one and its image good, the first try succeeds; with its image bad,
      another slot is chosen or none. */
  lemma FirstTry(g: seq<bv8>, c: Sector, slot: nat)
    requires slot < Count(c)
    ensures var d := c[3 := ToByte(slot)];
            && Count(d) == Count(c) && First(d) == slot && Current(d) < Count(d) && Rom(d, slot) == Rom(c, slot)
            && Slot(First(d), Count(d), 0) == slot
            && (Search(g, d, First(d), 0) == 0 <==> Check(g, Rom(c, slot)) != 0)
            && forall j: nat :: 0 < j < Count(d) ==> Slot(First(d), Count(d), j) != slot
  {
    hide Check, Rom;
    var d: Sector := c[3 := ToByte(slot)];
    ByteBack(slot);
    CurrentApart(c, ToByte(slot));
    SlotFirst(slot, Count(d));
    SearchStep(g, d, slot, 0);
  }

  /** The second boot after the slot was written back. */
  lemma AfterRewrite(f: seq<bv8>)
    requires Bootable(f) && Count(Settled(f)) > 0 && Try(f) < Count(Settled(f)) && Rewrites(f)
    ensures var h, pos := Ready(f), Rom(Settled(f), Chosen(f));
            Repeats(f) <==> Check(h[CELL := ToByte(Chosen(f))], pos) == Check(h, pos)
  {
    hide Check, Rom, Slot, Run, Do, Settled, Fresh, WriteConfig, Config;
    var c, h, slot := Settled(f), Ready(f), Chosen(f);
    var d: Sector := c[3 := ToByte(slot)];
    var g := h[CELL := ToByte(slot)];
    SettledStays(f);
    Rewritten(h, c, ToByte(slot));
    RunBoth(f, SettleOps(f), WriteConfig(d));
    NeverFresh(f, ToByte(slot));
    Settles(g);
    FirstTry(g, c, slot);
    SearchStep(h, c, First(c), Try(f));
  }

  /** The second boot when nothing was written back. */
  lemma AfterNoRewrite(f: seq<bv8>)
    requires Bootable(f) && Count(Settled(f)) > 0 && Try(f) < Count(Settled(f)) && !Rewrites(f)
    ensures Repeats(f)
  {
    hide Check, Rom, Slot, Run, Do, Settled, Fresh, WriteConfig, Config;
    SettledStays(f);
    NeverFresh(f, 0);
    Settles(Ready(f));
    SlotFirst(First(Settled(f)), Count(Settled(f)));
  }

  /** A boot without the pin that found a good image is repeated by the next boot, same slot, same answer and
      nothing written, if and only if writing back the chosen slot did that image no harm. */
  lemma SecondBoot(f: seq<bv8>)
    requires Bootable(f) && Count(Settled(f)) > 0 && Try(f) < Count(Settled(f))
    ensures Repeats(f) <==> Unharmed(f)
  {
    hide Check, Rom, Settled, Ready, InShape, InImage, Repeats;
    if Rewrites(f) {
      AfterRewrite(f);
      var c, h := Settled(f), Ready(f);
      var pos, x := Rom(c, Chosen(f)), ToByte(Chosen(f));
      NewSlot(f);
      SettledStays(f);
      Rewritten(h, c, x);
      ChosenIsFirst(f);
      if !InShape(h, pos) {
        CheckChanged(h, pos, x);
      }
    } else {
      AfterNoRewrite(f);
    }
  }

  // ---------------------------------------------------------------- images elsewhere, and one that lies there

  lemma {:induction false} CellAhead(f: seq<bv8>, pos: nat, count: nat)
    requires Walk(f, pos, count).Walked? && Walk(f, pos, count).end <= CELL
    ensures !InBytes(f, pos, count) && !InLengths(f, pos, count)
    decreases count
  {
    hide U32;
    if count > 0 {
      CellAhead(f, pos + 8 + U32(f, pos + 4), count - 1);
    }
  }

  /** A good image that lies wholly behind the cell, or wholly before it, does not have it in its shape or
      its bytes. */
  lemma Elsewhere(f: seq<bv8>, pos: nat)
    requires Check(f, pos) != 0
    requires var start := Check(f, pos);
             || (CELL < pos && CELL < start)
             || (pos + 16 <= CELL && start + 8 <= CELL && Walk(f, start + 8, FromByte(f[start + 1])).end <= CELL)
    ensures !InShape(f, pos) && !InImage(f, pos)
  {
    hide XorAll, Walk, InBytes, InLengths, U32;
    var start := Check(f, pos);
    if CELL < start {
      CellPassed(f, start + 8, FromByte(f[start + 1]));
    } else {
      CellAhead(f, start + 8, FromByte(f[start + 1]));
    }
  }

  /** A slot at the start of a sector whose image is good lies behind the configuration: address 0 is refused,
      and the configuration starts with its own magic. */
  lemma AlignedBehind(h: seq<bv8>, pos: nat)
    requires Bootable(h) && !Fresh(Config(h)) && pos % SECTOR == 0 && Check(h, pos) != 0
    ensures pos >= 2 * SECTOR
  {
    hide Sound;
    assert h[CONFIG] == Config(h)[0];
  }

  /** With the slots at sector starts, as the program asks for, a boot that found a good image is always
      repeated; where a header with an extra section is used, the section must not lead back before the slot. */
  lemma AlignedRepeats(f: seq<bv8>)
    requires Bootable(f) && Count(Settled(f)) > 0 && Try(f) < Count(Settled(f))
    requires Rom(Settled(f), Chosen(f)) % SECTOR == 0 && Rom(Settled(f), Chosen(f)) <= Answer(f, false)
    ensures Repeats(f)
  {
    hide Check, Rom, Settled, Ready, InShape, InImage, Repeats, Fresh, Config;
    var h, pos := Ready(f), Rom(Settled(f), Chosen(f));
    SettledStays(f);
    NeverFresh(f, 0);
    ChosenIsFirst(f);
    AlignedBehind(h, pos);
    Elsewhere(h, pos);
    SecondBoot(f);
  }

  /** One image at 0xFF0, whose only section is the first four bytes of the configuration; the configuration
      has one slot, and an invalid current one. */
  function Overlapped(): (f: seq<bv8>)
    ensures |f| == 2 * SECTOR
  {
    seq(2 * SECTOR, i => if i == 0xFF0 then 0xE9 else if i == 0xFF1 then 1 else if i == 0xFFC then 4
                         else if i == 0x1000 then 0xE1 else if i == 0x1001 then 1 else if i == 0x1003 then 0x0F
                         else if i == 0x1005 then 1 else if i == 0x1008 then 0xF0 else if i == 0x1009 then 0x0F
                         else 0)
  }

  lemma OverlappedCells(f: seq<bv8>)
    requires f == Overlapped()
    ensures f[0x1000] == 0xE1 && f[0x1001] == 0x01 && f[0x1003] == 0x0F && f[0x1005] == 0x01
    ensures f[0x1008] == 0xF0 && f[0x1009] == 0x0F && f[0x100A] == 0x00 && f[0x100B] == 0x00
  {
  }

  lemma OverlappedConfig()
    ensures var f := Overlapped();
            && Bootable(f) && !Fresh(Config(f)) && Count(Config(f)) == 1 && Current(Config(f)) == 0x0F
            && Rom(Config(f), 0) == 0xFF0
  {
    hide Overlapped;
    var f := Overlapped();
    OverlappedCells(f);
    var c := Config(f);
    assert c[0] == f[0x1000] && c[1] == f[0x1001] && c[3] == f[0x1003] && c[5] == f[0x1005];
    assert c[8] == f[0x1008] && c[9] == f[0x1009] && c[10] == f[0x100A] && c[11] == f[0x100B];
  }

  lemma OverlappedSum(s: seq<bv8>)
    requires s == [0xE1, 0x01, 0x00, 0x0F]
    ensures Xor(CHKSUM_INIT, s) == 0
  {
    hide Xor;
    XorStep(CHKSUM_INIT, s);
    assert s[1..] == [0x01, 0x00, 0x0F] && s[1..][1..] == [0x00, 0x0F] && s[1..][1..][1..] == [0x0F];
    XorStep(0x0E, s[1..]);
    XorStep(0x0F, s[1..][1..]);
    XorStep(0x0F, s[1..][1..][1..]);
    assert s[1..][1..][1..][1..] == [];
    XorNone(0);
  }

  lemma OverlappedGood()
    ensures var f := Overlapped(); Check(f, 0xFF0) == 0xFF0 && InImage(f, 0xFF0) && !InShape(f, 0xFF0)
  {
    hide Xor, XorAll;
    var f := Overlapped();
    assert U32(f, 0xFFC) == 4;
    WalkStep(f, 0xFF8, 1);
    var s := SectionAt(f, 0xFF8);
    assert s.bytes == [0xE1, 0x01, 0x00, 0x0F];
    OverlappedSum(s.bytes);
    XorAllStep(CHKSUM_INIT, s, []);
    XorNone(0);
    assert [s] + [] == [s];
    assert f[RoundUp(0x1004)] == 0;
  }

  /** An image that does not survive being booted: it checks well, writing back its slot spoils its checksum,
      and the next boot finds nothing. */
  lemma BootsOnce()
    ensures var f := Overlapped();
            && Bootable(f) && Count(Settled(f)) == 1 && Try(f) == 0 && Answer(f, false) == 0xFF0 && !Repeats(f)
            && Check(Run(f, BootOps(f, false)), 0xFF0) == 0
  {
    hide Check, Rom, InShape, InImage, Config, Repeats, Fresh, Slot, Run, Do, WriteConfig, Overlapped;
    var f := Overlapped();
    OverlappedConfig();
    OverlappedGood();
    Settles(f);
    SlotFirst(0, 1);
    SearchStep(f, Config(f), 0, 0);
    SecondBoot(f);
    var x := ToByte(Chosen(f));
    NewSlot(f);
    Rewritten(f, Config(f), x);
    RunBoth(f, [], WriteConfig(Config(f)[3 := x]));
    CheckChanged(f, 0xFF0, x);
  }
}

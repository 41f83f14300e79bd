/** rBoot images: sections behind a header, and a checksum byte. What the checker accepts and what the
    loader copies are tied to one description of the format. */
module RBootImage {
  import opened BootFlash
  import Numerals

  const WORD: nat := 0x1_0000_0000

  /** The value of a byte. */
  function FromByte(b: bv8): (n: nat)
    ensures n < 0x100
  {
    b as int
  }

  /** The byte of a value. */
  function ToByte(n: nat): (b: bv8)
    requires n < 0x100
  {
    n as bv8
  }

  lemma ByteBack(n: nat)
    requires n < 0x100
    ensures FromByte(ToByte(n)) == n
  {
    Numerals.ByteHolds(n);
  }

  /** A 32-bit number, lowest byte first. */
  function U32(f: seq<bv8>, pos: nat): (n: nat)
    requires pos + 4 <= |f|
    ensures n < WORD
  {
    FromByte(f[pos]) + 0x100 * FromByte(f[pos + 1]) + 0x1_0000 * FromByte(f[pos + 2])
    + 0x100_0000 * FromByte(f[pos + 3])
  }

  datatype Section = Section(address: nat, bytes: seq<bv8>)

  datatype Walked = Walked(sections: seq<Section>, end: nat) | Broken

  /** So many sections from pos on, and where they end; Broken when they leave the flash. */
  function Walk(f: seq<bv8>, pos: nat, count: nat): (w: Walked)
    ensures w.Walked? ==> pos <= w.end <= |f| || (count == 0 && w.end == pos)
    ensures w.Walked? ==> |w.sections| == count
    decreases count
  {
    if count == 0 then Walked([], pos)
    else if pos + 8 > |f| then Broken
    else
      var len := U32(f, pos + 4);
      if pos + 8 + len > |f| then Broken
      else
        match Walk(f, pos + 8 + len, count - 1)
        case Broken => Broken
        case Walked(rest, end) =>
          Walked([Section(U32(f, pos), f[pos + 8..pos + 8 + len])] + rest, end)
  }

  /** All bytes of a block, exclusive-ored onto x. */
  function Xor(x: bv8, s: seq<bv8>): bv8
    decreases |s|
  {
    if s == [] then x else Xor(x ^ s[0], s[1..])
  }

  function XorAll(x: bv8, ss: seq<Section>): bv8
    decreases |ss|
  {
    if ss == [] then x else XorAll(Xor(x, ss[0].bytes), ss[1..])
  }

  /** Up to the last byte of a block of sixteen. */
  function RoundUp(n: nat): (r: nat)
    ensures r >= n && r % 16 == 15 && r - n < 16
  {
    n / 16 * 16 + 15
  }

  const CHKSUM_INIT: bv8 := 0xEF

  /** The image whose plain header is at pos is whole and its checksum is right. */
  predicate Sound(f: seq<bv8>, pos: nat) {
    && pos + 8 <= |f|
    && var w := Walk(f, pos + 8, FromByte(f[pos + 1]));
       w.Walked? && RoundUp(w.end) < |f| && f[RoundUp(w.end)] == XorAll(CHKSUM_INIT, w.sections)
  }

  /** Where the plain header of the image at pos is: at pos, or behind an extra header and one section.
      The sum is one of 32 bits. */
  datatype Start = Starts(pos: nat) | NoHeader

  function Header(f: seq<bv8>, pos: nat): Start {
    if pos == 0 || pos == 0xFFFF_FFFF || pos + 16 > |f| then NoHeader
    else if f[pos] == 0xE9 then Starts(pos)
    else if f[pos] == 0xEA && f[pos + 1] == 0x04 then Starts((pos + U32(f, pos + 12) + 16) % WORD)
    else NoHeader
  }

  /** What check_image answers: the address of the plain header, or zero. */
  function Check(f: seq<bv8>, pos: nat): nat {
    match Header(f, pos)
    case NoHeader => 0
    case Starts(start) => if Sound(f, start) then start else 0
  }

  // ---------------------------------------------------------------- checking

  /** SPIRead: an error when the block leaves the flash. */
  method SPIRead(flash: Flash, addr: nat, out: array<bv8>, n: nat) returns (err: int)
    requires n <= out.Length
    modifies out
    ensures err == 0 <==> addr + n <= |flash.cells|
    ensures err == 0 ==> out[..n] == flash.cells[addr..addr + n]
  {
    if addr + n <= |flash.cells| {
      flash.Read(addr, out, n);
      err := 0;
    } else {
      err := 1;
    }
  }

  lemma {:induction false} XorAppend(x: bv8, s: seq<bv8>, t: seq<bv8>)
    ensures Xor(x, s + t) == Xor(Xor(x, s), t)
    decreases |s|
  {
    if s == [] {
      assert s + t == t;
    } else {
      assert (s + t)[1..] == s[1..] + t;
      XorAppend(x ^ s[0], s[1..], t);
    }
  }

  /** The checksum goes on over a block. */
  method AddBlock(chksum0: bv8, buffer: array<bv8>, readlen: nat) returns (chksum: bv8)
    requires readlen <= buffer.Length
    ensures chksum == Xor(chksum0, buffer[..readlen])
  {
    chksum := chksum0;
    var loop := 0;
    while loop < readlen
      invariant 0 <= loop <= readlen && chksum == Xor(chksum0, buffer[..loop])
    {
      XorAppend(chksum0, buffer[..loop], [buffer[loop]]);
      assert buffer[..loop + 1] == buffer[..loop] + [buffer[loop]];
      chksum := chksum ^ buffer[loop];
      loop := loop + 1;
    }
  }

  /** The inner loop of the checker: one section, block by block. */
  method CheckSection(flash: Flash, readpos0: nat, length: nat, chksum0: bv8, buffer: array<bv8>)
    returns (ok: bool, readpos: nat, chksum: bv8)
    requires buffer.Length >= 16 && readpos0 <= |flash.cells|
    modifies buffer
    ensures ok <==> readpos0 + length <= |flash.cells|
    ensures ok ==> readpos == readpos0 + length && chksum == Xor(chksum0, flash.cells[readpos0..readpos])
  {
    var remaining: nat := length;
    readpos, chksum := readpos0, chksum0;
    while remaining > 0
      invariant remaining <= length && readpos == readpos0 + (length - remaining) <= |flash.cells|
      invariant chksum == Xor(chksum0, flash.cells[readpos0..readpos])
    {
      var readlen := if remaining < buffer.Length then remaining else buffer.Length;
      var err := SPIRead(flash, readpos, buffer, readlen);
      if err != 0 {
        return false, readpos, chksum;
      }
      ghost var block := buffer[..readlen];
      XorAppend(chksum0, flash.cells[readpos0..readpos], block);
      assert flash.cells[readpos0..readpos] + block == flash.cells[readpos0..readpos + readlen];
      readpos, remaining := readpos + readlen, remaining - readlen;
      chksum := AddBlock(chksum, buffer, readlen);
    }
    ok := true;
  }

  function Behind(done: seq<Section>, w: Walked): Walked {
    if w.Walked? then Walked(done + w.sections, w.end) else Broken
  }

  lemma BehindTwice(a: seq<Section>, b: seq<Section>, w: Walked)
    ensures Behind(a, Behind(b, w)) == Behind(a + b, w)
  {
    if w.Walked? {
      assert a + (b + w.sections) == (a + b) + w.sections;
    }
  }

  lemma BehindNothing(w: Walked)
    ensures Behind([], w) == w
  {
    if w.Walked? {
      assert [] + w.sections == w.sections;
    }
  }

  lemma {:induction false} XorAllAppend(x: bv8, ss: seq<Section>, s: Section)
    ensures XorAll(x, ss + [s]) == Xor(XorAll(x, ss), s.bytes)
    decreases |ss|
  {
    hide Xor;
    if ss == [] {
      assert ss + [s] == [s] && [s][1..] == [];
    } else {
      assert (ss + [s])[1..] == ss[1..] + [s];
      XorAllAppend(Xor(x, ss[0].bytes), ss[1..], s);
    }
  }

  /** A section lies in the flash. */
  predicate HasSection(f: seq<bv8>, pos: nat) {
    pos + 8 <= |f| && pos + 8 + U32(f, pos + 4) <= |f|
  }

  function SectionAt(f: seq<bv8>, pos: nat): Section
    requires HasSection(f, pos)
  {
    Section(U32(f, pos), f[pos + 8..pos + 8 + U32(f, pos + 4)])
  }

  lemma WalkStep(f: seq<bv8>, pos: nat, count: nat)
    requires count > 0
    ensures Walk(f, pos, count) == if HasSection(f, pos)
                                   then Behind([SectionAt(f, pos)], Walk(f, pos + 8 + U32(f, pos + 4), count - 1))
                                   else Broken
  {
    hide U32;
  }

  /** One round of the loop over the sections. */
  method CheckNext(flash: Flash, readpos0: nat, chksum0: bv8, buffer: array<bv8>)
    returns (ok: bool, readpos: nat, chksum: bv8)
    requires buffer.Length >= 16 && readpos0 <= |flash.cells|
    modifies buffer
    ensures ok <==> HasSection(flash.cells, readpos0)
    ensures ok ==> readpos == readpos0 + 8 + U32(flash.cells, readpos0 + 4)
                   && chksum == Xor(chksum0, SectionAt(flash.cells, readpos0).bytes)
  {
    hide Xor, U32;
    readpos, chksum := readpos0, chksum0;
    var err := SPIRead(flash, readpos, buffer, 8);
    if err != 0 {
      return false, readpos, chksum;
    }
    HeaderWords(flash.cells, readpos, buffer[..]);
    ok, readpos, chksum := CheckSection(flash, readpos + 8, U32(buffer[..], 4), chksum, buffer);
  }

  /** The loop over the sections. */
  method CheckSections(flash: Flash, readpos0: nat, sectcount: nat, buffer: array<bv8>)
    returns (ok: bool, readpos: nat, chksum: bv8)
    requires buffer.Length >= 16 && readpos0 <= |flash.cells|
    modifies buffer
    ensures ok <==> Walk(flash.cells, readpos0, sectcount).Walked?
    ensures ok ==> var w := Walk(flash.cells, readpos0, sectcount);
                   readpos == w.end && chksum == XorAll(CHKSUM_INIT, w.sections)
  {
    hide Xor, XorAll, Walk, U32;
    ghost var f := flash.cells;
    var sectcurrent: nat := 0;
    readpos, chksum := readpos0, CHKSUM_INIT;
    ghost var done: seq<Section> := [];
    BehindNothing(Walk(f, readpos0, sectcount));
    XorNothing();
    while sectcurrent < sectcount
      invariant sectcurrent <= sectcount && readpos <= |f|
      invariant Walk(f, readpos0, sectcount) == Behind(done, Walk(f, readpos, sectcount - sectcurrent))
      invariant chksum == XorAll(CHKSUM_INIT, done)
    {
      ghost var at := readpos;
      WalkStep(f, at, sectcount - sectcurrent);
      ok, readpos, chksum := CheckNext(flash, readpos, chksum, buffer);
      if !ok {
        return;
      }
      BehindTwice(done, [SectionAt(f, at)], Walk(f, readpos, sectcount - sectcurrent - 1));
      XorAllAppend(CHKSUM_INIT, done, SectionAt(f, at));
      done, sectcurrent := done + [SectionAt(f, at)], sectcurrent + 1;
    }
    ok := true;
    WalkNone(f, readpos);
    assert done + [] == done;
  }

  lemma WalkNone(f: seq<bv8>, pos: nat)
    ensures Walk(f, pos, 0) == Walked([], pos)
  {
  }

  lemma XorNothing()
    ensures XorAll(CHKSUM_INIT, []) == CHKSUM_INIT
  {
  }

  /** Numbers in a block that was read are those in the flash. */
  lemma HeaderWords(f: seq<bv8>, at: nat, b: seq<bv8>)
    requires at + 8 <= |f| && |b| >= 16 && b[..8] == f[at..at + 8]
    ensures U32(b, 0) == U32(f, at) && U32(b, 4) == U32(f, at + 4) && b[0] == f[at] && b[1] == f[at + 1]
  {
    assert forall i :: 0 <= i < 8 ==> b[..8][i] == f[at..at + 8][i];
  }

  lemma LongHeaderWords(f: seq<bv8>, at: nat, b: seq<bv8>)
    requires at + 16 <= |f| && |b| >= 16 && b[..16] == f[at..at + 16]
    ensures U32(b, 12) == U32(f, at + 12) && b[..8] == f[at..at + 8]
  {
    assert forall i :: 0 <= i < 16 ==> b[i] == b[..16][i] == f[at..at + 16][i] == f[at + i];
    assert b[12] == f[at + 12] && b[13] == f[at + 13] && b[14] == f[at + 14] && b[15] == f[at + 15];
  }

  /** check_image, with a read buffer of any size from sixteen bytes on. */
  method CheckImage(flash: Flash, readpos0: nat, bufferSize: nat) returns (romaddr: nat)
    requires bufferSize >= 16 && |flash.cells| < WORD
    ensures romaddr == Check(flash.cells, readpos0)
  {
    hide Walk, XorAll, U32;
    ghost var f := flash.cells;
    if readpos0 == 0 || readpos0 == 0xFFFF_FFFF {
      return 0;
    }
    var buffer := new bv8[bufferSize];
    var readpos: nat, sectcount: nat := readpos0, 0;
    var err := SPIRead(flash, readpos, buffer, 16);
    if err != 0 {
      return 0;
    }
    LongHeaderWords(f, readpos, buffer[..]);
    HeaderWords(f, readpos, buffer[..]);
    if buffer[0] == 0xE9 {
      romaddr := readpos;
      readpos := readpos + 8;
      sectcount := FromByte(buffer[1]);
    } else if buffer[0] == 0xEA && buffer[1] == 0x04 {
      romaddr := (readpos + U32(buffer[..], 12) + 16) % WORD;
      readpos := romaddr;
      err := SPIRead(flash, readpos, buffer, 8);
      if err != 0 {
        return 0;
      }
      HeaderWords(f, readpos, buffer[..]);
      sectcount := FromByte(buffer[1]);
      readpos := readpos + 8;
    } else {
      return 0;
    }
    var good := CheckRest(flash, readpos, sectcount, buffer);
    if !good {
      romaddr := 0;
    }
  }

  /** The part of check_image behind the header. */
  method CheckRest(flash: Flash, readpos0: nat, sectcount: nat, buffer: array<bv8>) returns (good: bool)
    requires buffer.Length >= 16 && readpos0 <= |flash.cells|
    modifies buffer
    ensures good <==> var w := Walk(flash.cells, readpos0, sectcount);
              w.Walked? && RoundUp(w.end) < |flash.cells|
              && flash.cells[RoundUp(w.end)] == XorAll(CHKSUM_INIT, w.sections)
  {
    hide Walk, XorAll;
    var ok, readpos, chksum := CheckSections(flash, readpos0, sectcount, buffer);
    if !ok {
      return false;
    }
    readpos := RoundUp(readpos);
    var err := SPIRead(flash, readpos, buffer, 1);
    if err != 0 {
      return false;
    }
    assert buffer[..1][0] == flash.cells[readpos];
    good := buffer[0] == chksum;
  }

  // ---------------------------------------------------------------- building an image

  function Le32(n: nat): (s: seq<bv8>)
    requires n < WORD
    ensures |s| == 4
  {
    [ToByte(n % 0x100), ToByte(n / 0x100 % 0x100), ToByte(n / 0x1_0000 % 0x100), ToByte(n / 0x100_0000)]
  }

  lemma Le32Read(f: seq<bv8>, pos: nat, n: nat)
    requires n < WORD && pos + 4 <= |f| && f[pos..pos + 4] == Le32(n)
    ensures U32(f, pos) == n
  {
    hide FromByte, ToByte;
    var s := f[pos..pos + 4];
    ByteBack(n % 0x100);
    ByteBack(n / 0x100 % 0x100);
    ByteBack(n / 0x1_0000 % 0x100);
    ByteBack(n / 0x100_0000);
    assert s[0] == f[pos] && s[1] == f[pos + 1] && s[2] == f[pos + 2] && s[3] == f[pos + 3];
    Quads(n);
  }

  lemma Quads(n: nat)
    ensures n == n % 0x100 + 0x100 * (n / 0x100 % 0x100) + 0x1_0000 * (n / 0x1_0000 % 0x100)
                 + 0x100_0000 * (n / 0x100_0000)
  {
    var a := n / 0x100;
    var b := a / 0x100;
    assert n / 0x1_0000 == b && n / 0x100_0000 == b / 0x100;
  }

  /** Sections as they are stored. */
  ghost predicate Storable(ss: seq<Section>) {
    forall i :: 0 <= i < |ss| ==> ss[i].address < WORD && |ss[i].bytes| < WORD
  }

  function Stored(ss: seq<Section>): seq<bv8>
    requires Storable(ss)
    decreases |ss|
  {
    if ss == [] then []
    else Le32(ss[0].address) + Le32(|ss[0].bytes|) + ss[0].bytes + Stored(ss[1..])
  }

  lemma Cut(f: seq<bv8>, pos: nat, t: seq<bv8>, a: nat, b: nat)
    requires pos + |t| <= |f| && f[pos..pos + |t|] == t && a <= b <= |t|
    ensures f[pos + a..pos + b] == t[a..b]
  {
    forall j | 0 <= j < b - a ensures f[pos + a..pos + b][j] == t[a..b][j] {
      assert f[pos..pos + |t|][a + j] == t[a + j];
    }
  }

  lemma FourParts(a: seq<bv8>, b: seq<bv8>, c: seq<bv8>, d: seq<bv8>)
    requires |a| == 4 && |b| == 4
    ensures var t := a + b + c + d; t[0..4] == a && t[4..8] == b && t[8..8 + |c|] == c && t[8 + |c|..|t|] == d
  {
  }

  /** Walking over stored sections finds them. */
  lemma {:induction false} WalkStored(f: seq<bv8>, pos: nat, ss: seq<Section>)
    requires Storable(ss) && pos + |Stored(ss)| <= |f| && f[pos..pos + |Stored(ss)|] == Stored(ss)
    ensures Walk(f, pos, |ss|) == Walked(ss, pos + |Stored(ss)|)
    decreases |ss|
  {
    hide U32, Le32;
    if ss != [] {
      var s, rest, t := ss[0], Stored(ss[1..]), Stored(ss);
      var n := |s.bytes|;
      assert t == Le32(s.address) + Le32(n) + s.bytes + rest;
      hide Stored;
      FourParts(Le32(s.address), Le32(n), s.bytes, rest);
      Cut(f, pos, t, 0, 4);
      Cut(f, pos, t, 4, 8);
      Cut(f, pos, t, 8, 8 + n);
      Cut(f, pos, t, 8 + n, |t|);
      Le32Read(f, pos, s.address);
      Le32Read(f, pos + 4, n);
      WalkStored(f, pos + 8 + n, ss[1..]);
      assert [s] + ss[1..] == ss;
    }
  }

  /** An image for a place that is a multiple of sixteen: header, sections, padding, checksum. */
  function Build(flags1: bv8, flags2: bv8, entry: nat, ss: seq<Section>): seq<bv8>
    requires Storable(ss) && |ss| < 0x100 && entry < WORD
  {
    var body := [0xE9, ToByte(|ss|), flags1, flags2] + Le32(entry) + Stored(ss);
    body + seq(RoundUp(|body|) - |body|, i => 0) + [XorAll(CHKSUM_INIT, ss)]
  }

  /** The parts of an image that lies at pos. */
  lemma BuiltParts(f: seq<bv8>, pos: nat, flags1: bv8, flags2: bv8, entry: nat, ss: seq<Section>)
    requires Storable(ss) && |ss| < 0x100 && entry < WORD
    requires var b := Build(flags1, flags2, entry, ss); pos + |b| <= |f| && f[pos..pos + |b|] == b
    ensures var n := 8 + |Stored(ss)|;
            && pos + RoundUp(n) < |f| && pos + 16 <= |f|
            && f[pos] == 0xE9 && f[pos + 1] == ToByte(|ss|) && f[pos + 4..pos + 8] == Le32(entry)
            && f[pos + 8..pos + n] == Stored(ss) && f[pos + RoundUp(n)] == XorAll(CHKSUM_INIT, ss)
  {
    hide XorAll, Stored, Le32, ToByte;
    var b, n := Build(flags1, flags2, entry, ss), 8 + |Stored(ss)|;
    BuildShape(flags1, flags2, entry, ss);
    hide Build;
    CutOne(f, pos, b, 0);
    CutOne(f, pos, b, 1);
    CutOne(f, pos, b, RoundUp(n));
    Cut(f, pos, b, 4, 8);
    Cut(f, pos, b, 8, n);
  }

  lemma CutOne(f: seq<bv8>, pos: nat, t: seq<bv8>, i: nat)
    requires pos + |t| <= |f| && f[pos..pos + |t|] == t && i < |t|
    ensures f[pos + i] == t[i]
  {
    assert f[pos..pos + |t|][i] == t[i];
  }

  lemma BuildShape(flags1: bv8, flags2: bv8, entry: nat, ss: seq<Section>)
    requires Storable(ss) && |ss| < 0x100 && entry < WORD
    ensures var b, n := Build(flags1, flags2, entry, ss), 8 + |Stored(ss)|;
            && |b| == RoundUp(n) + 1 >= 16 && b[0] == 0xE9 && b[1] == ToByte(|ss|) && b[4..8] == Le32(entry)
            && b[8..n] == Stored(ss) && b[RoundUp(n)] == XorAll(CHKSUM_INIT, ss)
  {
    hide XorAll, Stored, Le32, ToByte;
  }

  /** An image that was built and written anywhere it fits is accepted, and its sections are those it was
      built from. */
  lemma BuiltIsSound(f: seq<bv8>, pos: nat, flags1: bv8, flags2: bv8, entry: nat, ss: seq<Section>)
    requires Storable(ss) && |ss| < 0x100 && entry < WORD && pos % 16 == 0 && 0 < pos
    requires var b := Build(flags1, flags2, entry, ss);
             pos + |b| <= |f| <= 0xFFFF_FFFF && f[pos..pos + |b|] == b
    ensures Check(f, pos) == pos && U32(f, pos + 4) == entry
    ensures Walk(f, pos + 8, FromByte(f[pos + 1])) == Walked(ss, pos + 8 + |Stored(ss)|)
  {
    hide Walk, XorAll, U32, Stored, Le32, FromByte, ToByte, Build, RoundUp;
    BuiltParts(f, pos, flags1, flags2, entry, ss);
    ByteBack(|ss|);
    Le32Read(f, pos + 4, entry);
    WalkStored(f, pos + 8, ss);
    RoundFrom(pos, 8 + |Stored(ss)|);
  }

  lemma RoundFrom(pos: nat, n: nat)
    requires pos % 16 == 0
    ensures RoundUp(pos + n) == pos + RoundUp(n)
  {
    assert (pos + n) / 16 == pos / 16 + n / 16;
  }

  /** An image in two parts: a header with one section of its own, whose length is a multiple of sixteen, and then an
      image as above. */
  function BuildTwo(flags1: bv8, flags2: bv8, entry: nat, first: Section, image: seq<bv8>): seq<bv8>
    requires entry < WORD && first.address < WORD && |first.bytes| < WORD
  {
    [0xEA, 0x04, flags1, flags2] + Le32(entry) + Le32(first.address) + Le32(|first.bytes|) + first.bytes + image
  }

  lemma TwoShape(flags1: bv8, flags2: bv8, entry: nat, first: Section, image: seq<bv8>)
    requires entry < WORD && first.address < WORD && |first.bytes| < WORD
    ensures var b, n := BuildTwo(flags1, flags2, entry, first, image), |first.bytes|;
            && |b| == 16 + n + |image| && b[0] == 0xEA && b[1] == 0x04 && b[12..16] == Le32(n)
            && b[16 + n..16 + n + |image|] == image
  {
    hide Le32;
  }

  /** The checker answers where the second part of such an image is, when that part is sound. */
  lemma TwoPartsChecked(f: seq<bv8>, pos: nat, flags1: bv8, flags2: bv8, entry: nat, first: Section, image: seq<bv8>)
    requires entry < WORD && first.address < WORD && |first.bytes| < WORD && 0 < pos
    requires var b := BuildTwo(flags1, flags2, entry, first, image);
             pos + |b| <= |f| < WORD && f[pos..pos + |b|] == b
    ensures var at := pos + 16 + |first.bytes|;
            f[at..at + |image|] == image && Check(f, pos) == if Sound(f, at) then at else 0
  {
    hide Le32, U32, Sound;
    var b, n := BuildTwo(flags1, flags2, entry, first, image), |first.bytes|;
    TwoShape(flags1, flags2, entry, first, image);
    hide BuildTwo;
    CutOne(f, pos, b, 0);
    CutOne(f, pos, b, 1);
    Cut(f, pos, b, 12, 16);
    Cut(f, pos, b, 16 + n, |b|);
    Le32Read(f, pos + 12, n);
  }

  /** An image in two parts that was built and written anywhere it fits is accepted. */
  lemma BuiltInTwoIsSound(f: seq<bv8>, pos: nat, flags1: bv8, flags2: bv8, entry: nat, first: Section, ss: seq<Section>)
    requires Storable(ss) && |ss| < 0x100 && entry < WORD && pos % 16 == 0 && 0 < pos
    requires first.address < WORD && |first.bytes| < WORD && |first.bytes| % 16 == 0
    requires var b := BuildTwo(flags1, flags2, entry, first, Build(flags1, flags2, entry, ss));
             pos + |b| <= |f| < WORD && f[pos..pos + |b|] == b
    ensures var at := pos + 16 + |first.bytes|;
            Check(f, pos) == at && Walk(f, at + 8, FromByte(f[at + 1])) == Walked(ss, at + 8 + |Stored(ss)|)
  {
    hide Walk, XorAll, U32, Stored, Le32, FromByte, ToByte, Build, RoundUp;
    var image, at := Build(flags1, flags2, entry, ss), pos + 16 + |first.bytes|;
    TwoShape(flags1, flags2, entry, first, image);
    hide BuildTwo;
    TwoPartsChecked(f, pos, flags1, flags2, entry, first, image);
    Sixteens(pos, |first.bytes|);
    BuiltIsSound(f, at, flags1, flags2, entry, ss);
  }

  lemma Sixteens(pos: nat, n: nat)
    requires pos % 16 == 0 && n % 16 == 0
    ensures (pos + 16 + n) % 16 == 0
  {
  }

  // ---------------------------------------------------------------- the checksum, bit by bit

  /** In how many of these bytes the bit is set. */
  function Ones(s: seq<bv8>, bit: bv8): nat {
    if s == [] then 0 else (if s[0] & bit != 0 then 1 else 0) + Ones(s[1..], bit)
  }

  predicate OneBit(bit: bv8) {
    bit == 1 || bit == 2 || bit == 4 || bit == 8 || bit == 0x10 || bit == 0x20 || bit == 0x40 || bit == 0x80
  }

  lemma BitChanged(x: bv8, b: bv8, bit: bv8)
    requires OneBit(bit)
    ensures (x ^ b) & bit != 0 <==> ((x & bit != 0) != (b & bit != 0))
  {
  }

  /** Each bit of the checksum tells whether it is set in an even or an odd number of the bytes. */
  lemma {:induction false} ChecksumIsParity(x: bv8, s: seq<bv8>, bit: bv8)
    requires OneBit(bit)
    ensures Xor(x, s) & bit != 0 <==> ((x & bit != 0) != (Ones(s, bit) % 2 == 1))
    decreases |s|
  {
    if s != [] {
      BitChanged(x, s[0], bit);
      ChecksumIsParity(x ^ s[0], s[1..], bit);
    }
  }
}

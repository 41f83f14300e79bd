/** The second stage: sections copied into memory. It walks the image on its own; what the checker
    accepted is what gets loaded. */
module RBootLoader {
  import opened BootFlash
  import opened RBootImage

  type Cells = map<nat, bv8>

  /** Bytes stored from an address on; addresses are numbers of 32 bits. */
  function Store(m: Cells, at: nat, s: seq<bv8>): Cells
    decreases |s|
  {
    if s == [] then m else Store(m[at % WORD := s[0]], at + 1, s[1..])
  }

  function StoreAll(m: Cells, ss: seq<Section>): Cells
    decreases |ss|
  {
    if ss == [] then m else StoreAll(Store(m, ss[0].address, ss[0].bytes), ss[1..])
  }

  lemma {:induction false} StoreAppend(m: Cells, at: nat, s: seq<bv8>, t: seq<bv8>)
    ensures Store(m, at, s + t) == Store(Store(m, at, s), at + |s|, t)
    decreases |s|
  {
    if s == [] {
      assert s + t == t;
    } else {
      assert (s + t)[1..] == s[1..] + t;
      StoreAppend(m[at % WORD := s[0]], at + 1, s[1..], t);
    }
  }

  /** Only the address modulo 2^32 matters. */
  lemma {:induction false} StoreWraps(m: Cells, at: nat, s: seq<bv8>)
    ensures Store(m, at, s) == Store(m, at % WORD, s)
    decreases |s|
  {
    if s != [] {
      var next := m[at % WORD := s[0]];
      StoreWraps(next, at + 1, s[1..]);
      StoreWraps(next, at % WORD + 1, s[1..]);
    }
  }

  class Memory {
    var cells: Cells

    constructor (cells: Cells)
      ensures this.cells == cells
    {
      this.cells := cells;
    }

    /** ets_memcpy into memory. */
    method Copy(at: nat, src: array<bv8>, n: nat)
      requires n <= src.Length
      modifies this
      ensures cells == Store(old(cells), at, src[..n])
    {
      cells := Store(cells, at, src[..n]);
    }
  }

  lemma ModAdd(a: nat, b: nat, n: nat)
    requires a % WORD == b % WORD
    ensures (a + n) % WORD % WORD == (b + n) % WORD
  {
    var d := (a - b) / WORD;
    assert a - b == d * WORD;
  }

  /** The inner loop of the loader. */
  method LoadSection(flash: Flash, mem: Memory, readpos0: nat, address: nat, length: nat, buffer: array<bv8>)
    returns (readpos: nat)
    requires buffer.Length >= 16 && readpos0 + length <= |flash.cells|
    modifies mem, buffer
    ensures readpos == readpos0 + length
    ensures mem.cells == Store(old(mem.cells), address, flash.cells[readpos0..readpos])
  {
    hide Store;
    ghost var f, m := flash.cells, mem.cells;
    var remaining: nat := length;
    var writepos: nat := address;
    readpos := readpos0;
    StoreNothing(m, address);
    assert f[readpos0..readpos0] == [];
    while remaining > 0
      invariant remaining <= length && readpos == readpos0 + (length - remaining)
      invariant writepos % WORD == (address + (length - remaining)) % WORD
      invariant mem.cells == Store(m, address, f[readpos0..readpos])
    {
      var readlen := if remaining < buffer.Length then remaining else buffer.Length;
      var err := SPIRead(flash, readpos, buffer, readlen);
      ghost var block := buffer[..readlen];
      StoreAppend(m, address, f[readpos0..readpos], block);
      assert f[readpos0..readpos] + block == f[readpos0..readpos + readlen];
      StoreWraps(mem.cells, writepos, block);
      StoreWraps(mem.cells, address + (length - remaining), block);
      mem.Copy(writepos, buffer, readlen);
      ModAdd(writepos, address + (length - remaining), readlen);
      readpos, remaining := readpos + readlen, remaining - readlen;
      writepos := (writepos + readlen) % WORD;
    }
  }

  lemma StoreNothing(m: Cells, at: nat)
    ensures Store(m, at, []) == m && StoreAll(m, []) == m
  {
  }

  lemma {:induction false} StoreAllAppend(m: Cells, ss: seq<Section>, s: Section)
    ensures StoreAll(m, ss + [s]) == Store(StoreAll(m, ss), s.address, s.bytes)
    decreases |ss|
  {
    hide Store;
    if ss == [] {
      assert ss + [s] == [s] && [s][1..] == [];
    } else {
      assert (ss + [s])[1..] == ss[1..] + [s];
      StoreAllAppend(Store(m, ss[0].address, ss[0].bytes), ss[1..], s);
    }
  }

  /** load_rom, on an image whose sections lie in the flash: it copies exactly those sections, in order,
      and returns the entry point of the header. */
  method LoadRom(flash: Flash, mem: Memory, readpos0: nat, bufferSize: nat) returns (usercode: nat)
    requires bufferSize >= 16 && readpos0 + 8 <= |flash.cells|
    requires Walk(flash.cells, readpos0 + 8, FromByte(flash.cells[readpos0 + 1])).Walked?
    modifies mem
    ensures usercode == U32(flash.cells, readpos0 + 4)
    ensures var w := Walk(flash.cells, readpos0 + 8, FromByte(flash.cells[readpos0 + 1]));
            mem.cells == StoreAll(old(mem.cells), w.sections)
  {
    hide Walk, Store, StoreAll, U32;
    ghost var f, m := flash.cells, mem.cells;
    var buffer := new bv8[bufferSize];
    var err := SPIRead(flash, readpos0, buffer, 8);
    HeaderWords(f, readpos0, buffer[..]);
    var readpos: nat := readpos0 + 8;
    usercode := U32(buffer[..], 4);
    var sectcount: nat := FromByte(buffer[1]);
    ghost var done: seq<Section> := [];
    ghost var w := Walk(f, readpos0 + 8, sectcount);
    BehindNothing(w);
    StoreNothing(m, 0);
    while sectcount > 0
      invariant readpos <= |f| && w == Behind(done, Walk(f, readpos, sectcount))
      invariant mem.cells == StoreAll(m, done)
    {
      ghost var at := readpos;
      WalkStep(f, at, sectcount);
      err := SPIRead(flash, readpos, buffer, 8);
      HeaderWords(f, at, buffer[..]);
      readpos := LoadSection(flash, mem, readpos + 8, U32(buffer[..], 0), U32(buffer[..], 4), buffer);
      BehindTwice(done, [SectionAt(f, at)], Walk(f, readpos, sectcount - 1));
      StoreAllAppend(m, done, SectionAt(f, at));
      done, sectcount := done + [SectionAt(f, at)], sectcount - 1;
    }
    WalkNone(f, readpos);
    assert done + [] == done;
  }

  function Bytes(ss: seq<Section>): seq<bv8>
    decreases |ss|
  {
    if ss == [] then [] else ss[0].bytes + Bytes(ss[1..])
  }

  /** The checksum is that of all section bytes in a row. */
  lemma {:induction false} XorOfBytes(x: bv8, ss: seq<Section>)
    ensures XorAll(x, ss) == Xor(x, Bytes(ss))
    decreases |ss|
  {
    if ss != [] {
      XorAppend(x, ss[0].bytes, Bytes(ss[1..]));
      XorOfBytes(Xor(x, ss[0].bytes), ss[1..]);
    }
  }

  /** An image the checker accepts, loaded from the address it gave: the loader reads the same header and
      the same sections, and all bytes it copies make up the checksum the image ends with. */
  method CheckAndLoad(flash: Flash, mem: Memory, readpos: nat, bufferSize: nat, loadBufferSize: nat)
    returns (romaddr: nat, usercode: nat)
    requires bufferSize >= 16 && loadBufferSize >= 16 && |flash.cells| < WORD
    modifies mem
    ensures romaddr == Check(flash.cells, readpos)
    ensures romaddr == 0 ==> mem.cells == old(mem.cells)
    ensures romaddr != 0 ==>
              var f := flash.cells;
              && romaddr + 8 <= |f| && usercode == U32(f, romaddr + 4)
              && var w := Walk(f, romaddr + 8, FromByte(f[romaddr + 1]));
                 && w.Walked? && mem.cells == StoreAll(old(mem.cells), w.sections)
                 && RoundUp(w.end) < |f| && Xor(CHKSUM_INIT, Bytes(w.sections)) == f[RoundUp(w.end)]
  {
    hide Walk, XorAll, StoreAll, Bytes, Xor;
    usercode := 0;
    romaddr := CheckImage(flash, readpos, bufferSize);
    if romaddr != 0 {
      XorOfBytes(CHKSUM_INIT, Walk(flash.cells, romaddr + 8, FromByte(flash.cells[romaddr + 1])).sections);
      usercode := LoadRom(flash, mem, romaddr, loadBufferSize);
    }
  }
}

/** NOR flash as a boot loader sees it: erasing sets bits, writing clears them, and power may fail in the
    middle of either. */
module BootFlash {

  const SECTOR: nat := 0x1000

  /** The sizes that the flash header of an image can announce, by its code; any other code means the first. */
  const MEGABITS: seq<nat> := [4, 2, 8, 16, 32]

  /** The announced size in bytes. */
  function Announced(header3: bv8): nat {
    var code := (header3 >> 4) as nat;
    MEGABITS[if code < 5 then code else 0] * 0x2_0000
  }

  datatype Op = Erase(sector: nat) | Write(addr: nat, data: seq<bv8>) {
    function Lo(): nat {
      if Erase? then sector * SECTOR else addr
    }

    function Hi(): nat {
      if Erase? then sector * SECTOR + SECTOR else addr + |data|
    }

    function Cell(i: nat, c: bv8): bv8 {
      if !(Lo() <= i < Hi()) then c else if Erase? then 0xFF else c & data[i - addr]
    }

    /** A cell the operation may have left behind when it was cut off. */
    predicate TornCell(i: nat, c: bv8, d: bv8) {
      if !(Lo() <= i < Hi()) then d == c
      else if Erase? then d & c == c
      else d & c == d && d & (c & data[i - addr]) == c & data[i - addr]
    }
  }

  /** The operation, run to its end. */
  function Do(f: seq<bv8>, op: Op): (g: seq<bv8>)
    ensures |g| == |f| && forall i :: 0 <= i < |f| ==> g[i] == op.Cell(i, f[i])
  {
    seq(|f|, i requires 0 <= i < |f| => op.Cell(i, f[i]))
  }

  /** The operation, cut off anywhere: any of its bits may or may not have changed yet. */
  ghost predicate Torn(f: seq<bv8>, op: Op, g: seq<bv8>) {
    |g| == |f| && forall i :: 0 <= i < |f| ==> op.TornCell(i, f[i], g[i])
  }

  function Run(f: seq<bv8>, ops: seq<Op>): (g: seq<bv8>)
    ensures |g| == |f|
    decreases |ops|
  {
    if ops == [] then f else Run(Do(f, ops[0]), ops[1..])
  }

  /** What the flash may hold when power fails somewhere in a series of operations, or behind it. */
  ghost predicate Crash(f: seq<bv8>, ops: seq<Op>, g: seq<bv8>)
    decreases |ops|
  {
    if ops == [] then g == f
    else Torn(f, ops[0], g) || Crash(Do(f, ops[0]), ops[1..], g)
  }

  lemma TornCells(f: bv8, d: bv8)
    ensures 0xFF & f == f && (f & d) & f == f & d && (f & d) & (f & d) == f & d && f & f == f
    ensures f & (f & d) == f & d
  {
  }

  /** Nothing done yet and all done are both among the ways to be cut off. */
  lemma TornEnds(f: seq<bv8>, op: Op)
    ensures Torn(f, op, f) && Torn(f, op, Do(f, op))
  {
    forall i | 0 <= i < |f| ensures op.TornCell(i, f[i], f[i]) && op.TornCell(i, f[i], op.Cell(i, f[i])) {
      if op.Lo() <= i < op.Hi() {
        TornCells(f[i], if op.Erase? then 0 else op.data[i - op.addr]);
      }
    }
  }

  /** Every state between two operations is a crash state, and so is the final one. */
  lemma {:induction false} RunIsCrash(f: seq<bv8>, ops: seq<Op>, k: nat)
    requires k <= |ops|
    ensures Crash(f, ops, Run(f, ops[..k]))
    decreases k
  {
    if k == 0 {
      if ops != [] {
        TornEnds(f, ops[0]);
      }
    } else {
      assert ops[..k][1..] == ops[1..][..k - 1];
      RunIsCrash(Do(f, ops[0]), ops[1..], k - 1);
    }
  }

  lemma RunStep(f: seq<bv8>, op: Op, ops: seq<Op>)
    ensures Run(f, [op] + ops) == Run(Do(f, op), ops)
  {
    assert ([op] + ops)[1..] == ops;
  }

  lemma CrashStep(f: seq<bv8>, op: Op, ops: seq<Op>, g: seq<bv8>)
    ensures Crash(f, [op] + ops, g) <==> Torn(f, op, g) || Crash(Do(f, op), ops, g)
  {
    assert ([op] + ops)[1..] == ops;
  }

  /** The four states a series of four operations goes through. */
  lemma RunFour(f: seq<bv8>, a: Op, b: Op, c: Op, d: Op)
    ensures Run(f, [a, b, c, d]) == Do(Do(Do(Do(f, a), b), c), d)
  {
    hide Do, Run;
    RunStep(f, a, [b, c, d]);
    RunStep(Do(f, a), b, [c, d]);
    RunStep(Do(Do(f, a), b), c, [d]);
    RunStep(Do(Do(Do(f, a), b), c), d, []);
    assert [a] + [b, c, d] == [a, b, c, d] && [b] + [c, d] == [b, c, d] && [c] + [d] == [c, d] && [d] + [] == [d];
    RunNone(Do(Do(Do(Do(f, a), b), c), d));
  }

  lemma RunNone(f: seq<bv8>)
    ensures Run(f, []) == f
  {
  }

  lemma CrashFour(f: seq<bv8>, a: Op, b: Op, c: Op, d: Op, g: seq<bv8>)
    requires Crash(f, [a, b, c, d], g)
    ensures Torn(f, a, g) || Torn(Do(f, a), b, g) || Torn(Do(Do(f, a), b), c, g) || Torn(Do(Do(Do(f, a), b), c), d, g)
  {
    hide Do, Torn, Crash;
    var h := Do(Do(Do(f, a), b), c);
    CrashStep(f, a, [b, c, d], g);
    CrashStep(Do(f, a), b, [c, d], g);
    CrashStep(Do(Do(f, a), b), c, [d], g);
    CrashStep(h, d, [], g);
    assert [a] + [b, c, d] == [a, b, c, d] && [b] + [c, d] == [b, c, d] && [c] + [d] == [c, d] && [d] + [] == [d];
    CrashNone(Do(h, d), g);
    TornEnds(h, d);
  }

  lemma CrashNone(f: seq<bv8>, g: seq<bv8>)
    ensures Crash(f, [], g) <==> g == f
  {
  }

  lemma AndOnes(d: bv8)
    ensures 0xFF & d == d
  {
  }

  /** Erasing a sector and writing from its start leaves the data and then erased cells. */
  lemma EraseWrite(f: seq<bv8>, sector: nat, data: seq<bv8>)
    requires sector * SECTOR + SECTOR <= |f| && |data| <= SECTOR
    ensures var g := Do(Do(f, Erase(sector)), Write(sector * SECTOR, data));
            |g| == |f| && forall i {:trigger g[i]} :: 0 <= i < |f| ==>
              g[i] == (if sector * SECTOR <= i < sector * SECTOR + |data| then data[i - sector * SECTOR]
                       else if sector * SECTOR <= i < sector * SECTOR + SECTOR then 0xFF else f[i])
  {
    var at := sector * SECTOR;
    var e := Do(f, Erase(sector));
    var g := Do(e, Write(at, data));
    forall i | 0 <= i < |f|
      ensures g[i] == if at <= i < at + |data| then data[i - at] else if at <= i < at + SECTOR then 0xFF else f[i]
    {
      assert g[i] == Write(at, data).Cell(i, e[i]);
      if at <= i < at + |data| {
        AndOnes(data[i - at]);
      }
    }
  }

  /** The flash chip. The log is the operations it was asked for. */
  class Flash {
    var cells: seq<bv8>
    ghost var log: seq<Op>

    constructor (cells: seq<bv8>)
      ensures this.cells == cells && log == []
    {
      this.cells, log := cells, [];
    }

    method Read(addr: nat, out: array<bv8>, n: nat)
      requires addr + n <= |cells| && n <= out.Length
      modifies out
      ensures out[..n] == cells[addr..addr + n] && out[n..] == old(out[n..])
    {
      forall i | 0 <= i < n {
        out[i] := cells[addr + i];
      }
    }

    method EraseSector(sector: nat)
      requires sector * SECTOR + SECTOR <= |cells|
      modifies this
      ensures cells == Do(old(cells), Erase(sector)) && log == old(log) + [Erase(sector)]
    {
      cells, log := Do(cells, Erase(sector)), log + [Erase(sector)];
    }

    method Write(addr: nat, data: array<bv8>, n: nat)
      requires addr + n <= |cells| && n <= data.Length
      modifies this
      ensures cells == Do(old(cells), Op.Write(addr, data[..n])) && log == old(log) + [Op.Write(addr, data[..n])]
    {
      cells, log := Do(cells, Op.Write(addr, data[..n])), log + [Op.Write(addr, data[..n])];
    }
  }
}

/** The checksum a sender computes, as the remainder of a division of polynomials, and that the receiver's bit
    operations compute it. */
module AirKissChecksum {
  import opened Numerals
  import opened AirKiss

  // ---------------------------------------------------------------- the division

  /** x^8 + x^5 + x^4 + 1, highest power first. */
  const DIVISOR: seq<bool> := [true, false, false, true, true, false, false, false, true]

  /** Long division: while there are more than eight coefficients, the divisor is taken off under a leading one. */
  function Divide(p: seq<bool>): (r: seq<bool>)
    requires |p| >= 8
    ensures |r| == 8
    decreases |p|
  {
    if |p| == 8 then p
    else Divide(seq(|p| - 1, i requires 0 <= i < |p| - 1 => p[i + 1] != (p[0] && i < 8 && DIVISOR[i + 1])))
  }

  predicate Nth(b: bv8, i: nat)
    requires i < 8
  {
    if i == 0 then b & 1 != 0
    else if i == 1 then b & 2 != 0
    else if i == 2 then b & 4 != 0
    else if i == 3 then b & 8 != 0
    else if i == 4 then b & 0x10 != 0
    else if i == 5 then b & 0x20 != 0
    else if i == 6 then b & 0x40 != 0
    else b & 0x80 != 0
  }

  /** The bits of a byte in the order they are sent, the lowest first. */
  function Bits(b: bv8): (s: seq<bool>)
    ensures |s| == 8
  {
    seq(8, i requires 0 <= i < 8 => Nth(b, i))
  }

  function Bit(on: bool, b: bv8): bv8 {
    if on then b else 0
  }

  function FromBits(s: seq<bool>): bv8
    requires |s| == 8
  {
    Bit(s[0], 1) | Bit(s[1], 2) | Bit(s[2], 4) | Bit(s[3], 8)
    | Bit(s[4], 0x10) | Bit(s[5], 0x20) | Bit(s[6], 0x40) | Bit(s[7], 0x80)
  }

  function AllBits(s: seq<Byte>): seq<bool> {
    if s == [] then [] else Bits(s[0] as bv8) + AllBits(s[1..])
  }

  const ZEROS: seq<bool> := [false, false, false, false, false, false, false, false]

  /** The remainder of the bits, times x^8, by the divisor. */
  function Checksum(s: seq<Byte>): Byte {
    FromBits(Divide(AllBits(s) + ZEROS)) as int
  }

  // ---------------------------------------------------------------- the shift register

  function Plus(a: bv8, b: bv8): bv8 {
    a ^ b
  }

  /** The register after one bit. */
  function Shift(z: bv8): bv8 {
    if z & 1 != 0 then (z >> 1) ^ 0x8C else z >> 1
  }

  function Shifts(z: bv8, n: nat): bv8
    decreases n
  {
    if n == 0 then z else Shifts(Shift(z), n - 1)
  }

  lemma RoundShifts(crc: bv8, b: bv8)
    ensures Plus(CrcRound(crc, b), b >> 1) == Shift(Plus(crc, b))
  {
  }

  function Right(b: bv8, n: nat): bv8
    decreases n
  {
    if n == 0 then b else Right(b >> 1, n - 1)
  }

  lemma RightOut(b: bv8)
    ensures Right(b, 8) == 0
  {
    var c := b >> 4;
    assert Right(b, 8) == Right(b >> 1, 7) == Right(b >> 1 >> 1, 6) == Right(b >> 1 >> 1 >> 1, 5);
    assert b >> 1 >> 1 >> 1 >> 1 == c;
    assert Right(b, 8) == Right(c, 4) == Right(c >> 1, 3) == Right(c >> 1 >> 1, 2) == Right(c >> 1 >> 1 >> 1, 1);
    assert c >> 1 >> 1 >> 1 >> 1 == 0;
  }

  lemma {:induction false} RoundsShift(crc: bv8, b: bv8, n: nat)
    ensures Plus(CrcRounds(crc, b, n), Right(b, n)) == Shifts(Plus(crc, b), n)
    decreases n
  {
    hide Plus, CrcRound, Shift;
    if n > 0 {
      RoundShifts(crc, b);
      RoundsShift(CrcRound(crc, b), b >> 1, n - 1);
    }
  }

  lemma XorNone(a: bv8)
    ensures Plus(a, 0) == a && Plus(0, a) == a
  {
  }

  lemma Crc1Shifts(b: bv8)
    ensures Crc1(b) == Shifts(b, 8)
  {
    hide CrcRounds, Shifts, Right, Plus;
    RoundsShift(0, b, 8);
    RightOut(b);
    XorNone(b);
    XorNone(CrcRounds(0, b, 8));
  }

  // ---------------------------------------------------------------- the register divides

  /** A register taken together with the first eight of the bits behind it. */
  function Onto(z: bv8, p: seq<bool>): (r: seq<bool>)
    requires |p| >= 8
    ensures |r| == |p|
  {
    seq(|p|, i requires 0 <= i < |p| => if i < 8 then Bits(z)[i] != p[i] else p[i])
  }

  lemma ShiftBit(z: bv8, i: nat)
    requires i < 8
    ensures Nth(Shift(z), i) == ((i < 7 && Nth(z, i + 1)) != (Nth(z, 0) && DIVISOR[i + 1]))
  {
  }

  /** One step of the division under a zero bit is one shift of the register. */
  lemma DivideStep(z: bv8, p: seq<bool>)
    requires |p| >= 8
    ensures Divide(Onto(z, [false] + p)) == Divide(Onto(Shift(z), p))
  {
    hide Shift, Nth;
    var q := Onto(z, [false] + p);
    assert !([false] + p)[0] && q[0] == Bits(z)[0] == Nth(z, 0);
    var r := seq(|q| - 1, i requires 0 <= i < |q| - 1 => q[i + 1] != (q[0] && i < 8 && DIVISOR[i + 1]));
    var t := Onto(Shift(z), p);
    forall i | 0 <= i < |r| ensures r[i] == t[i] {
      assert ([false] + p)[i + 1] == p[i];
      if i < 8 {
        ShiftBit(z, i);
        assert Bits(Shift(z))[i] == Nth(Shift(z), i);
        assert i < 7 ==> q[i + 1] == (Bits(z)[i + 1] != p[i]) && Bits(z)[i + 1] == Nth(z, i + 1);
      }
    }
    assert r == t;
  }

  function Zeros(n: nat): (s: seq<bool>)
    ensures |s| == n
  {
    if n == 0 then [] else [false] + Zeros(n - 1)
  }

  lemma {:induction false} DivideZeros(z: bv8, n: nat, p: seq<bool>)
    requires |p| >= 8
    ensures Divide(Onto(z, Zeros(n) + p)) == Divide(Onto(Shifts(z, n), p))
    decreases n
  {
    hide Divide, Onto, Shift;
    if n == 0 {
      assert Zeros(0) + p == p;
    } else {
      assert Zeros(n) + p == [false] + (Zeros(n - 1) + p);
      DivideStep(z, Zeros(n - 1) + p);
      DivideZeros(Shift(z), n - 1, p);
    }
  }

  lemma XorLow(a: bv8, b: bv8)
    ensures var y := Plus(a, b);
            && Nth(y, 0) == (Nth(a, 0) != Nth(b, 0)) && Nth(y, 1) == (Nth(a, 1) != Nth(b, 1))
            && Nth(y, 2) == (Nth(a, 2) != Nth(b, 2)) && Nth(y, 3) == (Nth(a, 3) != Nth(b, 3))
  {
  }

  lemma XorHigh(a: bv8, b: bv8)
    ensures var y := Plus(a, b);
            && Nth(y, 4) == (Nth(a, 4) != Nth(b, 4)) && Nth(y, 5) == (Nth(a, 5) != Nth(b, 5))
            && Nth(y, 6) == (Nth(a, 6) != Nth(b, 6)) && Nth(y, 7) == (Nth(a, 7) != Nth(b, 7))
  {
  }

  lemma XorBit(a: bv8, b: bv8, i: nat)
    requires i < 8
    ensures Nth(Plus(a, b), i) == (Nth(a, i) != Nth(b, i))
  {
    hide Nth, Plus;
    XorLow(a, b);
    XorHigh(a, b);
  }

  lemma {:induction false} ZerosAre(n: nat, i: nat)
    requires i < n
    ensures !Zeros(n)[i]
  {
    if i > 0 {
      ZerosAre(n - 1, i - 1);
    }
  }

  lemma OntoByte(z: bv8, b: bv8, p: seq<bool>)
    ensures Onto(z, Bits(b) + p) == Onto(Plus(z, b), Zeros(8) + p)
  {
    hide Nth, Plus;
    var x, y := Onto(z, Bits(b) + p), Onto(Plus(z, b), Zeros(8) + p);
    forall i | 0 <= i < |x| ensures x[i] == y[i] {
      if i < 8 {
        ZerosAre(8, i);
        XorBit(z, b, i);
        assert Bits(Plus(z, b))[i] == Nth(Plus(z, b), i) && Bits(z)[i] == Nth(z, i) && Bits(b)[i] == Nth(b, i);
      } else {
        assert (Bits(b) + p)[i] == p[i - 8] == (Zeros(8) + p)[i];
      }
    }
  }

  /** One byte more of the message is one byte of the division. */
  lemma DivideByte(z: bv8, b: bv8, p: seq<bool>)
    requires |p| >= 8
    ensures Divide(Onto(z, Bits(b) + p)) == Divide(Onto(Crc1(Plus(z, b)), p))
  {
    hide Divide, Onto, Bits, Crc1, Shifts, Plus;
    OntoByte(z, b, p);
    DivideZeros(Plus(z, b), 8, p);
    Crc1Shifts(Plus(z, b));
  }

  function Fold(z: bv8, s: seq<Byte>): bv8
    decreases |s|
  {
    if s == [] then z else Fold(Crc1(Plus(z, s[0] as bv8)), s[1..])
  }

  lemma {:induction false} FoldLast(z: bv8, s: seq<Byte>)
    requires s != []
    ensures Fold(z, s) == Crc1(Plus(Fold(z, s[..|s| - 1]), s[|s| - 1] as bv8))
    decreases |s|
  {
    hide Crc1, Plus;
    if |s| == 1 {
      assert s[..0] == [] && s[1..] == [];
    } else {
      FoldLast(Crc1(Plus(z, s[0] as bv8)), s[1..]);
      assert s[1..][..|s| - 2] == s[..|s| - 1][1..];
    }
  }

  lemma {:induction false} CrcIsFold(s: seq<Byte>)
    ensures CrcOf(s) == Fold(0, s)
    decreases |s|
  {
    hide Crc1;
    if s != [] {
      FoldLast(0, s);
      CrcIsFold(s[..|s| - 1]);
    }
  }

  lemma {:induction false} DivideAll(z: bv8, s: seq<Byte>)
    ensures Divide(Onto(z, AllBits(s) + ZEROS)) == Divide(Onto(Fold(z, s), ZEROS))
    decreases |s|
  {
    hide Divide, Onto, Bits, Crc1, Plus;
    if s == [] {
      assert AllBits(s) + ZEROS == ZEROS;
    } else {
      var rest := AllBits(s[1..]) + ZEROS;
      assert AllBits(s) + ZEROS == Bits(s[0] as bv8) + rest;
      DivideByte(z, s[0] as bv8, rest);
      DivideAll(Crc1(Plus(z, s[0] as bv8)), s[1..]);
    }
  }

  lemma BitsBack(b: bv8)
    ensures FromBits(Bits(b)) == b
  {
  }

  /** The receiver's checksum, computed bit by bit in a register that is shifted right, is the remainder. */
  lemma ChecksumIs(s: seq<Byte>)
    ensures Crc(s) == Checksum(s)
  {
    hide Divide, Bits, FromBits, Fold, AllBits, CrcOf;
    var p := AllBits(s) + ZEROS;
    NoRegister(p);
    DivideAll(0, s);
    CrcIsFold(s);
    var c := Fold(0, s);
    EndBits(c);
    BitsBack(c);
  }

  lemma NoRegister(p: seq<bool>)
    requires |p| >= 8
    ensures Onto(0, p) == p
  {
    hide Nth;
    forall i | 0 <= i < 8 ensures !Bits(0)[i] {
      NthNone(i);
    }
  }

  lemma NthNone(i: nat)
    requires i < 8
    ensures !Nth(0, i)
  {
  }

  lemma EndBits(c: bv8)
    ensures Divide(Onto(c, ZEROS)) == Bits(c)
  {
    hide Bits;
    assert Onto(c, ZEROS) == Bits(c);
  }

  // ---------------------------------------------------------------- the index is in the checksum

  lemma ShiftXor(a: bv8, b: bv8)
    ensures Plus(Shift(a), Shift(b)) == Shift(Plus(a, b))
  {
  }

  lemma {:induction false} ShiftsXor(a: bv8, b: bv8, n: nat)
    ensures Plus(Shifts(a, n), Shifts(b, n)) == Shifts(Plus(a, b), n)
    decreases n
  {
    hide Shift, Plus;
    if n > 0 {
      ShiftXor(a, b);
      ShiftsXor(Shift(a), Shift(b), n - 1);
    }
  }

  lemma XorTwice(a: bv8, b: bv8, d: bv8)
    ensures Plus(Plus(a, d), Plus(b, d)) == Plus(a, b)
  {
  }

  /** Two registers that take in the same bytes differ by what their first difference becomes. */
  lemma {:induction false} FoldXor(a: bv8, b: bv8, s: seq<Byte>)
    ensures Plus(Fold(a, s), Fold(b, s)) == Shifts(Plus(a, b), 8 * |s|)
    decreases |s|
  {
    hide Crc1, Shifts, Plus;
    if s == [] {
      NoShift(Plus(a, b));
    } else {
      var d := s[0] as bv8;
      Crc1Shifts(Plus(a, d));
      Crc1Shifts(Plus(b, d));
      ShiftsXor(Plus(a, d), Plus(b, d), 8);
      XorTwice(a, b, d);
      FoldXor(Crc1(Plus(a, d)), Crc1(Plus(b, d)), s[1..]);
      ShiftsMore(Plus(a, b), 8, 8 * |s| - 8);
    }
  }

  lemma NoShift(a: bv8)
    ensures Shifts(a, 0) == a
  {
  }

  lemma {:induction false} ShiftsMore(a: bv8, m: nat, n: nat)
    ensures Shifts(Shifts(a, m), n) == Shifts(a, m + n)
    decreases m
  {
    hide Shift;
    if m > 0 {
      ShiftsMore(Shift(a), m - 1, n);
    }
  }

  /** The checksums of two groups with the same data. */
  lemma SameData(i: Byte, j: Byte, d: seq<Byte>)
    requires |d| == 4
    ensures Plus(CrcOf([i] + d), CrcOf([j] + d)) == Shifts(Plus(i as bv8, j as bv8), 40)
  {
    hide Crc1, Shifts, Plus, CrcOf;
    CrcIsFold([i] + d);
    CrcIsFold([j] + d);
    assert ([i] + d)[1..] == d && ([j] + d)[1..] == d;
    var a, b := i as bv8, j as bv8;
    Crc1Shifts(Plus(0, a));
    Crc1Shifts(Plus(0, b));
    XorNone(a);
    XorNone(b);
    ShiftsXor(a, b, 8);
    FoldXor(Shifts(a, 8), Shifts(b, 8), d);
    ShiftsMore(Plus(a, b), 8, 32);
  }

  /** What becomes of a register in forty shifts depends on each of its bits. */
  lemma {:induction false} Forty(z: bv8)
    ensures Shifts(z, 8) == Eight(z)
    ensures Shifts(z, 40) == Eight(Eight(Eight(Eight(Eight(z)))))
  {
    hide Shift;
    EightShifts(z);
    EightShifts(Eight(z));
    EightShifts(Eight(Eight(z)));
    EightShifts(Eight(Eight(Eight(z))));
    EightShifts(Eight(Eight(Eight(Eight(z)))));
    ShiftsMore(z, 8, 32);
    ShiftsMore(Eight(z), 8, 24);
    ShiftsMore(Eight(Eight(z)), 8, 16);
    ShiftsMore(Eight(Eight(Eight(z))), 8, 8);
  }

  function Eight(z: bv8): bv8 {
    Shift(Shift(Shift(Shift(Shift(Shift(Shift(Shift(z))))))))
  }

  lemma EightShifts(z: bv8)
    ensures Shifts(z, 8) == Eight(z)
  {
    hide Shift;
    var y := Shift(Shift(Shift(Shift(z))));
    assert Shifts(z, 8) == Shifts(y, 4);
  }

  lemma SevenBits(z: bv8)
    requires 0 < z < 0x80
    ensures Eight(Eight(Eight(Eight(Eight(z))))) & 0x7F != 0
  {
  }

  lemma ApartBits(a: bv8, b: bv8)
    requires Plus(a, b) & 0x7F != 0
    ensures a & 0x7F != b & 0x7F
  {
  }

  predicate IsLow(c: bv8) {
    c & 0x80 == 0
  }

  lemma LowByte(c: bv8)
    requires c as int < 0x80
    ensures IsLow(c)
  {
  }

  lemma ApartIndices(i: Byte, j: Byte)
    requires i < 0x80 && j < 0x80 && i != j
    ensures 0 < Plus(i as bv8, j as bv8) < 0x80
  {
    hide Plus, IsLow;
    ByteHolds(i);
    ByteHolds(j);
    LowByte(i as bv8);
    LowByte(j as bv8);
    PlusBits(i as bv8, j as bv8);
  }

  lemma PlusBits(a: bv8, b: bv8)
    requires IsLow(a) && IsLow(b) && a != b
    ensures 0 < Plus(a, b) < 0x80
  {
  }

  lemma LowBits(c: bv8)
    ensures c as int % 0x80 == (c & 0x7F) as int
  {
  }

  /** Groups with the same data and different indices have different checksums, so a group whose index is damaged
      is not taken for another. */
  lemma IndexMatters(i: Byte, j: Byte, d: seq<Byte>)
    requires i < 0x80 && j < 0x80 && i != j && |d| == 4
    ensures GroupCrc(i, d) != GroupCrc(j, d)
  {
    hide CrcOf, Plus, Shifts, Eight;
    SameData(i, j, d);
    ApartIndices(i, j);
    var z := Plus(i as bv8, j as bv8);
    Forty(z);
    SevenBits(z);
    ApartBits(CrcOf([i] + d), CrcOf([j] + d));
    LowBits(CrcOf([i] + d));
    LowBits(CrcOf([j] + d));
  }
}

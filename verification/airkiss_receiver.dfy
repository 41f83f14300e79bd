/** The receiver's global context and the functions that change it, packet by packet. */
module AirKissReceiver {
  import opened AirKiss

  /** 1 << i */
  function Bit(i: nat): nat {
    if i == 0 then 1 else 2 * Bit(i - 1)
  }

  /** m & (1 << i) is not 0. */
  predicate HasBit(m: nat, i: nat)
    decreases i
  {
    if i == 0 then m % 2 == 1 else HasBit(m / 2, i - 1)
  }

  /** The indices of the bits that are set in a word. */
  ghost function Bits(m: nat): set<nat> {
    set i: nat | i < 16 && HasBit(m, i)
  }

  /** Adding a bit that is not set changes that bit alone: what |= does to it. */
  lemma {:induction false} SetBit(m: nat, i: nat, j: nat)
    requires !HasBit(m, i)
    ensures HasBit(m + Bit(i), j) <==> HasBit(m, j) || i == j
    decreases i
  {
    if i > 0 {
      assert (m + Bit(i)) / 2 == m / 2 + Bit(i - 1);
      if j > 0 {
        SetBit(m / 2, i - 1, j - 1);
      }
    } else if j > 0 {
      assert (m + 1) / 2 == m / 2;
    }
  }

  lemma {:induction false} SetBound(m: nat, i: nat, k: nat)
    requires i < k && m < Bit(k) && !HasBit(m, i)
    ensures m + Bit(i) < Bit(k)
    decreases i
  {
    if i > 0 {
      SetBound(m / 2, i - 1, k - 1);
    }
  }

  lemma {:induction false} LowBit(n: nat, j: nat)
    ensures Bit(n) >= 1
    ensures HasBit(Bit(n) - 1, j) <==> j < n
    decreases n
  {
    if n == 0 {
      NoBit(j);
    } else {
      LowBit(n - 1, if j == 0 then 0 else j - 1);
      assert (Bit(n) - 1) / 2 == Bit(n - 1) - 1;
    }
  }

  lemma {:induction false} NoBit(j: nat)
    ensures !HasBit(0, j)
  {
    if j > 0 {
      NoBit(j - 1);
    }
  }

  lemma {:induction false} SameWord(a: nat, b: nat, k: nat)
    requires a < Bit(k) && b < Bit(k) && forall j: nat :: j < k ==> (HasBit(a, j) <==> HasBit(b, j))
    ensures a == b
    decreases k
  {
    if k > 0 {
      assert HasBit(a, 0) <==> HasBit(b, 0);
      forall j: nat | j < k - 1 ensures HasBit(a / 2, j) <==> HasBit(b / 2, j) {
        assert HasBit(a, j + 1) <==> HasBit(b, j + 1);
      }
      SameWord(a / 2, b / 2, k - 1);
    }
  }

  lemma SameBits(a: nat, b: nat)
    requires Bits(a) == Bits(b) && a < 0x1_0000 && b < 0x1_0000
    ensures a == b
  {
    forall j: nat | j < 16 ensures HasBit(a, j) <==> HasBit(b, j) {
      assert j in Bits(a) <==> j in Bits(b);
    }
    assert Bit(4) == 0x10 && Bit(8) == 0x100 && Bit(12) == 0x1000 && Bit(16) == 0x1_0000;
    SameWord(a, b, 16);
  }

  lemma SetBits(m: nat, i: nat)
    requires i < 9 && m < 0x200 && !HasBit(m, i)
    ensures Bits(m + Bit(i)) == Bits(m) + {i} && m + Bit(i) < 0x200
  {
    assert Bit(9) == 0x200 by {
      assert Bit(4) == 0x10;
    }
    SetBound(m, i, 9);
    forall j: nat | j < 16 ensures HasBit(m + Bit(i), j) <==> HasBit(m, j) || i == j {
      SetBit(m, i, j);
    }
  }

  lemma {:induction false} Monotone(n: nat, k: nat)
    requires n <= k
    ensures 1 <= Bit(n) <= Bit(k)
  {
    if n > 0 {
      Monotone(n - 1, k - 1);
    } else if k > 0 {
      Monotone(0, k - 1);
    }
  }

  lemma LowBits(n: nat)
    requires n <= 9
    ensures 1 <= Bit(n) <= 0x200 && Bits(Bit(n) - 1) == Below(n)
  {
    assert Bit(4) == 0x10 && Bit(9) == 0x200;
    Monotone(n, 9);
    var m := Bit(n) - 1;
    forall j: nat | j < 16 ensures HasBit(m, j) <==> j < n {
      LowBit(n, j);
    }
  }

  class Context {
    var airkissState: Phase
    const record: array<Word>
    var baseLen: Byte
    var totalLen: Byte
    var ssidCrc: Byte
    var pswdLen: Byte
    var pswdLenCrc: Byte
    var needSeq: Byte
    var seqSuccessMapCmp: Word
    var seqSuccessMap: Word
    const usrData: array<Byte>
    var randomNum: Byte
    var dummyap: Header

    ghost predicate Valid()
      reads this
    {
      && record.Length == 7 && usrData.Length == USR_DATA_BUFF_MAX_SIZE
      && pswdLen <= PASSWORD_MAX_LEN && needSeq <= 9
      && seqSuccessMap < 0x200 && seqSuccessMapCmp < 0x200
    }

    ghost function Window(): Record
      requires record.Length == 7
      reads record
    {
      Record(record[0], record[1], record[2], record[3], record[4], record[5], record[6])
    }

    ghost function View(): (s: Rx)
      requires Valid()
      reads this, record, usrData
      ensures Shape(s)
    {
      Rx(airkissState, Window(), baseLen, totalLen, ssidCrc, pswdLen, pswdLenCrc, needSeq,
         Bits(seqSuccessMapCmp), Bits(seqSuccessMap), usrData[..], randomNum, dummyap)
    }

    /** airkiss_init */
    constructor ()
      ensures Valid() && View() == INIT && fresh(record) && fresh(usrData)
    {
      airkissState := Idle;
      record := new Word[7](_ => 0);
      baseLen, totalLen, ssidCrc, pswdLen, pswdLenCrc, needSeq := 0, 0, 0, 0, 0, 0;
      seqSuccessMapCmp, seqSuccessMap := 0, 0;
      usrData := new Byte[USR_DATA_BUFF_MAX_SIZE](_ => 0);
      randomNum := 0;
      dummyap := seq(24, _ => 0);
      new;
      forall j: nat | j < 16 ensures !HasBit(0, j) { NoBit(j); }
      assert Bits(0) == {};
      assert usrData[..] == INIT.usrData;
    }

    /** airkiss_record_move_ones */
    method MoveOnes(n: nat)
      requires n < record.Length
      modifies record
      ensures forall i :: 0 <= i < n ==> record[i] == old(record[i + 1])
      ensures forall i :: n <= i < record.Length ==> record[i] == old(record[i])
    {
      for i := 0 to n
        invariant forall k :: 0 <= k < i ==> record[k] == old(record[k + 1])
        invariant forall k :: i <= k < record.Length ==> record[k] == old(record[k])
      {
        record[i] := record[i + 1];
      }
    }

    /** resest_airkiss_data */
    method ResetData()
      requires record.Length == 7
      modifies record
      ensures Window() == CLEAR
    {
      for i := 0 to 7
        invariant forall k :: 0 <= k < i ==> record[k] == 0
      {
        record[i] := 0;
      }
    }

    method AddSeqData(data: seq<Byte>, seqNo: nat)
      requires Valid() && |data| == 4
      modifies this`seqSuccessMap, usrData
      ensures Valid() && View() == AirKiss.AddSeqData(old(View()), data, seqNo)
    {
      if seqNo < needSeq {
        if seqNo * 4 + 4 <= USR_DATA_BUFF_MAX_SIZE {
          if !HasBit(seqSuccessMap, seqNo) {
            ghost var u := usrData[..];
            forall k | 0 <= k < 4 {
              usrData[seqNo * 4 + k] := data[k];
            }
            assert usrData[..] == Store(u, data, seqNo);
            SetBits(seqSuccessMap, seqNo);
            seqSuccessMap := seqSuccessMap + Bit(seqNo);
          }
        }
      }
    }

    method RecvDiscover(f: Frame)
      requires Valid()
      modifies this, record
      ensures Valid() && View() == Discover(old(View()), f)
    {
      record[4] := f.length;
      MoveOnes(4);
      var r0: int, r1: int, r2: int, r3: int := record[0], record[1], record[2], record[3];
      if r1 - r0 == 1 && r2 - r1 == 1 && r3 - r2 == 1 {
        baseLen := (r0 - 1) % 0x100;
        airkissState := SrcLocked;
        ResetData();
        dummyap := f.header;
      }
    }

    method ProcessMagicCode(length: Word)
      requires Valid()
      modifies this, record
      ensures Valid() && View() == Magic(old(View()), length)
    {
      record[4] := Code(length, baseLen);
      MoveOnes(4);
      if Tag(record[0]) == 0x00 && Tag(record[1]) == 0x10 && Tag(record[2]) == 0x20 && Tag(record[3]) == 0x30 {
        totalLen := Nibbles(record[0], record[1]);
        ssidCrc := Nibbles(record[2], record[3]);
        airkissState := MagicCodeComplete;
        ResetData();
      }
    }

    method ProcessPrefixCode(length: Word)
      requires Valid()
      modifies this, record
      ensures Valid() && View() == Prefix(old(View()), length)
    {
      record[4] := Code(length, baseLen);
      MoveOnes(4);
      if Tag(record[0]) == 0x40 && Tag(record[1]) == 0x50 && Tag(record[2]) == 0x60 && Tag(record[3]) == 0x70 {
        TakePrefix();
      }
    }

    /** What ProcessPrefixCode does with four tagged codes. */
    method TakePrefix()
      requires Valid()
      modifies this, record
      ensures Valid() && View() == PrefixCodes(old(View()), old(Window()))
    {
      hide Crc, Bits, Below;
      pswdLen := Nibbles(record[0], record[1]);
      if pswdLen > PASSWORD_MAX_LEN {
        pswdLen := 0;
      }
      pswdLenCrc := Nibbles(record[2], record[3]);
      var crc := CrcOfByte(pswdLen);
      ResetData();
      if crc == pswdLenCrc {
        airkissState := PrefixCodeComplete;
        SetNeed();
      }
    }

    method SetNeed()
      requires Valid()
      modifies this`needSeq, this`seqSuccessMapCmp
      ensures Valid() && needSeq == Need(pswdLen) && Bits(seqSuccessMapCmp) == Below(needSeq)
    {
      needSeq := ((pswdLen + 1) + 3) / 4;
      LowBits(needSeq);
      seqSuccessMapCmp := Bit(needSeq) - 1;
    }

    method ProcessSequence(length: Word)
      requires Valid()
      modifies this, record, usrData
      ensures Valid() && View() == Sequence(old(View()), length)
    {
      record[6] := Code(length, baseLen);
      MoveOnes(6);
      ghost var r := Window();
      if Kind(record[0]) == 0x80 && Kind(record[1]) == 0x80
         && IsData(record[2]) && IsData(record[3]) && IsData(record[4]) && IsData(record[5])
         && record[1] % 0x80 <= totalLen / 4 + 1
      {
        var tempBuffer := new Byte[6];
        tempBuffer[0], tempBuffer[1] := record[0] % 0x80, record[1] % 0x80;
        tempBuffer[2], tempBuffer[3] := record[2] % 0x100, record[3] % 0x100;
        tempBuffer[4], tempBuffer[5] := record[4] % 0x100, record[5] % 0x100;
        var crc := CalcCrcBytes(tempBuffer, 1, 5);
        assert tempBuffer[1..1 + 5] == [r.w1 % 0x80] + GroupData(r);
        if tempBuffer[0] == crc % 0x80 {
          var data := tempBuffer[2..6];
          assert data == GroupData(r);
          TakeGroup(data, tempBuffer[1]);
        }
      }
    }

    /** What ProcessSequence does with a valid group. */
    method TakeGroup(data: seq<Byte>, seqNo: Byte)
      requires Valid() && |data| == 4
      modifies this, record, usrData
      ensures Valid() && View() == Finish(AirKiss.AddSeqData(old(View()).(record := CLEAR), data, seqNo))
    {
      AddSeqData(data, seqNo);
      ResetData();
      ghost var same := Bits(seqSuccessMapCmp) == Bits(seqSuccessMap);
      if same {
        SameBits(seqSuccessMapCmp, seqSuccessMap);
      }
      if seqSuccessMapCmp == seqSuccessMap {
        randomNum := usrData[pswdLen];
        usrData[pswdLen] := 0;
        airkissState := Complete;
      }
    }

    /** airkiss_recv */
    method Recv(f: Frame) returns (status: Status)
      requires Valid()
      modifies this, record, usrData
      ensures Valid() && View() == AirKiss.Recv(old(View()), f)
      ensures status == Reports(old(airkissState), airkissState)
    {
      if airkissState != Idle {
        var passes := f.length >= 24 && f.header[4..22] == dummyap[4..22];
        if !passes {
          return CONTINUE;
        }
      }
      status := CONTINUE;
      match airkissState
      case Idle =>
        if f.length >= 50 {
          RecvDiscover(f);
          if airkissState == SrcLocked {
            return CHANNEL_LOCKED;
          }
        }
      case SrcLocked => ProcessMagicCode(f.length);
      case MagicCodeComplete => ProcessPrefixCode(f.length);
      case PrefixCodeComplete =>
        ProcessSequence(f.length);
        if airkissState == Complete {
          return COMPLETE;
        }
      case Complete => airkissState := Idle;
    }
  }

  method CrcOfByte(b: Byte) returns (crc: Byte)
    ensures crc == Crc([b])
  {
    assert [b][..0] == [];
    assert CrcOf([b]) == Crc1(CrcOf([]) ^ (b as bv8));
    assert (0 as bv8) ^ (b as bv8) == b as bv8;
    var c := CalcCrc1Byte(b as bv8);
    crc := c as int;
  }
}

/** The AirKiss receiver: a Wi-Fi password spelled out in the lengths of packets.
    Masks that select a field of a code are written as quotients and remainders. */
module AirKiss {
  type Byte = x: int | 0 <= x < 0x100
  type Word = x: int | 0 <= x < 0x1_0000

  const PASSWORD_MAX_LEN: nat := 32
  const USR_DATA_BUFF_MAX_SIZE: nat := 65

  // ---------------------------------------------------------------- CRC-8

  /** One round of calcrc_1byte: crc is the remainder so far, the low bit of b the next data bit. */
  function CrcRound(crc: bv8, b: bv8): bv8 {
    if (crc ^ b) & 0x01 != 0 then ((crc ^ 0x18) >> 1) | 0x80 else crc >> 1
  }

  function CrcRounds(crc: bv8, b: bv8, n: nat): bv8
    decreases n
  {
    if n == 0 then crc else CrcRounds(CrcRound(crc, b), b >> 1, n - 1)
  }

  function Crc1(b: bv8): bv8 {
    CrcRounds(0, b, 8)
  }

  function CrcOf(s: seq<Byte>): bv8 {
    if s == [] then 0 else Crc1(CrcOf(s[..|s| - 1]) ^ (s[|s| - 1] as bv8))
  }

  function Crc(s: seq<Byte>): Byte {
    CrcOf(s) as int
  }

  /** The round is division by the reflected polynomial x^8 + x^5 + x^4 + 1. */
  lemma CrcRoundDivides(crc: bv8, b: bv8)
    ensures CrcRound(crc, b) == (crc >> 1) ^ (if (crc ^ b) & 0x01 == 0x01 then 0x8C else 0)
  {
  }

  lemma Crc1Unrolled(b: bv8)
    ensures Crc1(b) ==
            CrcRound(CrcRound(CrcRound(CrcRound(CrcRound(CrcRound(CrcRound(CrcRound(
              0, b), b >> 1), b >> 2), b >> 3), b >> 4), b >> 5), b >> 6), b >> 7)
  {
  }

  /** The checksum of one byte determines the byte: a wrong length byte never passes for another. */
  lemma Crc1Injective(a: bv8, b: bv8)
    requires Crc1(a) == Crc1(b)
    ensures a == b
  {
    Crc1Unrolled(a);
    Crc1Unrolled(b);
  }

  method CalcCrc1Byte(abyte: bv8) returns (crc: bv8)
    ensures crc == Crc1(abyte)
  {
    crc := 0;
    var b := abyte;
    for i := 0 to 8
      invariant CrcRounds(crc, b, 8 - i) == Crc1(abyte)
    {
      if (crc ^ b) & 0x01 != 0 {
        crc := crc ^ 0x18;
        crc := crc >> 1;
        crc := crc | 0x80;
      } else {
        crc := crc >> 1;
      }
      b := b >> 1;
    }
  }

  method CalcCrcBytes(p: array<Byte>, start: nat, n: nat) returns (crc: Byte)
    requires start + n <= p.Length
    ensures crc == Crc(p[start..start + n])
  {
    hide Crc1, CrcRound;
    var c: bv8 := 0;
    for i := 0 to n
      invariant c == CrcOf(p[start..start + i])
    {
      assert p[start..start + i + 1][..i] == p[start..start + i];
      c := CalcCrc1Byte(c ^ (p[start + i] as bv8));
    }
    crc := c as int;
  }

  // ---------------------------------------------------------------- the receiver's state

  datatype Phase = Idle | SrcLocked | MagicCodeComplete | PrefixCodeComplete | Complete

  datatype Status = CONTINUE | CHANNEL_LOCKED | COMPLETE

  /** The sliding windows, which share their storage. */
  datatype Record = Record(w0: Word, w1: Word, w2: Word, w3: Word, w4: Word, w5: Word, w6: Word)

  datatype Rx = Rx(
    phase: Phase,
    record: Record,
    baseLen: Byte,
    totalLen: Byte,
    ssidCrc: Byte,
    pswdLen: Byte,
    pswdLenCrc: Byte,
    needSeq: Byte,
    target: set<nat>,      // the bits of seq_success_map_cmp
    got: set<nat>,         // the bits of seq_success_map
    usrData: seq<Byte>,
    randomNum: Byte,
    ap: seq<Byte>)         // header of the frame that locked the channel

  type Header = h: seq<Byte> | |h| == 24 witness seq(24, _ => 0)

  /** A frame as the receiver sees it: the first 24 bytes of its header, and its length. */
  datatype Frame = Frame(header: Header, length: Word)

  const CLEAR: Record := Record(0, 0, 0, 0, 0, 0, 0)

  ghost predicate Shape(s: Rx) {
    && |s.usrData| == USR_DATA_BUFF_MAX_SIZE && |s.ap| == 24
    && s.pswdLen <= PASSWORD_MAX_LEN && s.needSeq <= 9
  }

  const INIT: Rx :=
    Rx(Idle, CLEAR, 0, 0, 0, 0, 0, 0, {}, {}, seq(USR_DATA_BUFF_MAX_SIZE, _ => 0), 0, seq(24, _ => 0))

  /** A value recorded in a window of four: the older ones move down, and the copy beyond the window
      stays until the next value overwrites it. */
  function Slide4(r: Record, v: Word): Record {
    Record(r.w1, r.w2, r.w3, v, v, r.w5, r.w6)
  }

  function Slide6(r: Record, v: Word): Record {
    Record(r.w1, r.w2, r.w3, r.w4, r.w5, v, v)
  }

  /** The code a length stands for, as an unsigned short. */
  function Code(length: Word, base: Byte): Word {
    (length - base) % 0x1_0000
  }

  /** airkiss_filter: long enough, and the three addresses are those of the locked sender. */
  predicate Passes(s: Rx, f: Frame)
    requires |s.ap| == 24
  {
    f.length >= 24 && f.header[4..22] == s.ap[4..22]
  }

  // ---------------------------------------------------------------- steps

  predicate Rises(r: Record) {
    r.w1 - r.w0 == 1 && r.w2 - r.w1 == 1 && r.w3 - r.w2 == 1
  }

  function Discover(s: Rx, f: Frame): (s': Rx)
    requires Shape(s)
    ensures Shape(s')
  {
    var r := Slide4(s.record, f.length);
    if Rises(r) then
      s.(phase := SrcLocked, baseLen := (r.w0 - 1) % 0x100, record := CLEAR, ap := f.header)
    else s.(record := r)
  }

  /** code & 0x01f0 */
  function Tag(code: Word): Word {
    code / 0x10 % 0x20 * 0x10
  }

  function Nibbles(hi: Word, lo: Word): Byte {
    hi % 0x10 * 0x10 + lo % 0x10
  }

  predicate Tagged(r: Record, tag: Word) {
    Tag(r.w0) == tag && Tag(r.w1) == tag + 0x10 && Tag(r.w2) == tag + 0x20 && Tag(r.w3) == tag + 0x30
  }

  function Magic(s: Rx, length: Word): (s': Rx)
    requires Shape(s)
    ensures Shape(s')
  {
    var r := Slide4(s.record, Code(length, s.baseLen));
    if Tagged(r, 0x00) then
      s.(phase := MagicCodeComplete, totalLen := Nibbles(r.w0, r.w1), ssidCrc := Nibbles(r.w2, r.w3),
         record := CLEAR)
    else s.(record := r)
  }

  /** The number of groups that hold a password of this length and the random byte. */
  function Need(pswdLen: nat): (n: nat)
    ensures 4 * n - 4 < pswdLen + 1 <= 4 * n
  {
    (pswdLen + 1 + 3) / 4
  }

  function Below(n: nat): (r: set<nat>)
    ensures forall i: nat :: i in r <==> i < n
  {
    if n == 0 then {} else Below(n - 1) + {n - 1}
  }

  /** Four codes with the prefix tags: a password length, and its checksum. */
  function PrefixCodes(s: Rx, r: Record): (s': Rx)
    requires Shape(s)
    ensures Shape(s')
  {
    var said := Nibbles(r.w0, r.w1);
    var len := if said > PASSWORD_MAX_LEN then 0 else said;
    var crc := Nibbles(r.w2, r.w3);
    if Crc([len]) == crc then
      s.(phase := PrefixCodeComplete, pswdLen := len, pswdLenCrc := crc, needSeq := Need(len),
         target := Below(Need(len)), record := CLEAR)
    else s.(pswdLen := len, pswdLenCrc := crc, record := CLEAR)
  }

  function Prefix(s: Rx, length: Word): (s': Rx)
    requires Shape(s)
    ensures Shape(s')
  {
    var r := Slide4(s.record, Code(length, s.baseLen));
    if Tagged(r, 0x40) then PrefixCodes(s, r) else s.(record := r)
  }

  /** code & 0x180 */
  function Kind(code: Word): Word {
    code / 0x80 % 4 * 0x80
  }

  /** Whether code & 0x100 */
  predicate IsData(code: Word) {
    code / 0x100 % 2 == 1
  }

  /** The shape of a sequence group in the window, checksum aside. */
  predicate GroupShape(r: Record, totalLen: Byte) {
    && Kind(r.w0) == 0x80 && Kind(r.w1) == 0x80
    && IsData(r.w2) && IsData(r.w3) && IsData(r.w4) && IsData(r.w5)
    && r.w1 % 0x80 <= totalLen / 4 + 1
  }

  function GroupData(r: Record): (d: seq<Byte>)
    ensures |d| == 4
  {
    [r.w2 % 0x100, r.w3 % 0x100, r.w4 % 0x100, r.w5 % 0x100]
  }

  /** The seven bits of checksum that a group carries, over its index and data. */
  function GroupCrc(seqNo: Byte, d: seq<Byte>): Byte {
    Crc([seqNo] + d) % 0x80
  }

  predicate GroupValid(r: Record, totalLen: Byte) {
    GroupShape(r, totalLen) && r.w0 % 0x80 == GroupCrc(r.w1 % 0x80, GroupData(r))
  }

  /** A group that is needed and not there yet. */
  predicate Wanted(got: set<nat>, needSeq: Byte, seqNo: nat) {
    seqNo < needSeq && seqNo * 4 + 4 <= USR_DATA_BUFF_MAX_SIZE && seqNo !in got
  }

  function Store(usrData: seq<Byte>, data: seq<Byte>, seqNo: nat): (u: seq<Byte>)
    requires |data| == 4 && seqNo * 4 + 4 <= |usrData|
    ensures |u| == |usrData|
  {
    usrData[..seqNo * 4] + data + usrData[seqNo * 4 + 4..]
  }

  lemma StoreApart(u: seq<Byte>, d: seq<Byte>, i: nat, j: nat)
    requires |d| == 4 && 4 * i + 4 <= |u| && 4 * j + 4 <= |u|
    ensures Store(u, d, i)[4 * j..4 * j + 4] == if i == j then d else u[4 * j..4 * j + 4]
  {
    assert forall k :: 4 * j <= k < 4 * j + 4 ==>
             Store(u, d, i)[k] == if i == j then d[k - 4 * i] else u[k];
  }

  /** airkiss_add_seq_data: the first valid group with a needed index is kept. */
  function AddSeqData(s: Rx, data: seq<Byte>, seqNo: nat): (s': Rx)
    requires Shape(s) && |data| == 4
    ensures Shape(s')
  {
    if Wanted(s.got, s.needSeq, seqNo)
    then s.(usrData := Store(s.usrData, data, seqNo), got := s.got + {seqNo})
    else s
  }

  function Finish(s: Rx): (s': Rx)
    requires Shape(s)
    ensures Shape(s')
  {
    if s.target == s.got then
      s.(randomNum := s.usrData[s.pswdLen], usrData := s.usrData[s.pswdLen := 0], phase := Complete)
    else s
  }

  function Sequence(s: Rx, length: Word): (s': Rx)
    requires Shape(s)
    ensures Shape(s')
  {
    var r := Slide6(s.record, Code(length, s.baseLen));
    if GroupValid(r, s.totalLen) then Finish(AddSeqData(s.(record := CLEAR), GroupData(r), r.w1 % 0x80))
    else s.(record := r)
  }

  /** What airkiss_recv does to the state. */
  function Recv(s: Rx, f: Frame): (s': Rx)
    requires Shape(s)
    ensures Shape(s')
  {
    if s.phase != Idle && !Passes(s, f) then s
    else
      match s.phase
      case Idle => if f.length < 50 then s else Discover(s, f)
      case SrcLocked => Magic(s, f.length)
      case MagicCodeComplete => Prefix(s, f.length)
      case PrefixCodeComplete => Sequence(s, f.length)
      case Complete => s.(phase := Idle)
  }

  /** What airkiss_recv returns. */
  function Reports(before: Phase, after: Phase): Status {
    if before == Idle && after == SrcLocked then CHANNEL_LOCKED
    else if before == PrefixCodeComplete && after == Complete then COMPLETE
    else CONTINUE
  }
}

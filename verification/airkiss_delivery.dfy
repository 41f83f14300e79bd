/** What a sender spells out, and what the receiver makes of it. */
module AirKissDelivery {
  import opened AirKiss
  import opened AirKissChecksum

  /** One message of a sender. The data the groups carry is the password, the random byte and whatever
      follows them (the network name). */
  datatype Transmission = Transmission(
    base: Byte,            // packet length that stands for code 0
    total: Byte,           // announced length of the data
    ssidCrc: Byte,
    password: seq<Byte>,
    random: Byte,
    more: seq<Byte>)
  {
    function Data(): seq<Byte> {
      password + [random] + more
    }

    /** The password fits, its groups are whole, and the announced length covers it. */
    ghost predicate Valid() {
      && 49 <= base && |password| <= 32 && 4 * Need(|password|) <= |Data()|
      && |password| + 1 <= total
    }

    /** Groups whose four bytes exist and whose index the announced length admits. */
    ghost predicate Has(i: nat) {
      4 * i + 4 <= |Data()| && i <= total / 4 + 1
    }

    function Group(i: nat): seq<Byte>
      requires 4 * i + 4 <= |Data()|
    {
      Data()[4 * i..4 * i + 4]
    }
  }

  function GuideCodes(): seq<Word> {
    [1, 2, 3, 4]
  }

  /** Two bytes in four codes, tagged in steps of 0x10 from tag. */
  function TagCodes(tag: Word, x: Byte, y: Byte): seq<Word>
    requires tag <= 0x40
  {
    [tag + x / 0x10, tag + 0x10 + x % 0x10, tag + 0x20 + y / 0x10, tag + 0x30 + y % 0x10]
  }

  function Offset(k: Word, b: Byte): Word
    requires k <= 0x100
  {
    k + b
  }

  /** A group: seven bits of the checksum of its index and data, the index, and the four bytes. */
  function GroupCodes(i: nat, d: seq<Byte>): seq<Word>
    requires i < 0x80 && |d| == 4
  {
    [Offset(0x80, Checksum([i] + d) % 0x80), 0x80 + i,
     Offset(0x100, d[0]), Offset(0x100, d[1]), Offset(0x100, d[2]), Offset(0x100, d[3])]
  }

  /** All frames carry the addresses in h. */
  ghost predicate From(fs: seq<Frame>, h: Header) {
    forall f <- fs :: f.header[4..22] == h[4..22]
  }

  /** The frames' lengths spell out the codes. */
  ghost predicate Spell(fs: seq<Frame>, base: Byte, codes: seq<Word>) {
    |fs| == |codes| && forall i :: 0 <= i < |fs| ==> fs[i].length == base + codes[i]
  }

  function Feed(s: Rx, fs: seq<Frame>): (s': Rx)
    requires Shape(s)
    ensures Shape(s')
    decreases |fs|
  {
    if fs == [] then s else Feed(Recv(s, fs[0]), fs[1..])
  }

  lemma {:induction false} FeedConcat(s: Rx, a: seq<Frame>, b: seq<Frame>)
    requires Shape(s)
    ensures Feed(s, a + b) == Feed(Feed(s, a), b)
    decreases |a|
  {
    if a == [] {
      assert a + b == b;
    } else {
      assert (a + b)[1..] == a[1..] + b;
      FeedConcat(Recv(s, a[0]), a[1..], b);
    }
  }

  lemma FeedFirst(s: Rx, fs: seq<Frame>, k: nat)
    requires Shape(s) && k < |fs|
    ensures Feed(s, fs[k..]) == Feed(Recv(s, fs[k]), fs[k + 1..])
  {
    assert fs[k..][1..] == fs[k + 1..];
  }

  lemma Feed4(s: Rx, fs: seq<Frame>, s1: Rx, s2: Rx, s3: Rx)
    requires Shape(s) && |fs| == 4
    requires s1 == Recv(s, fs[0]) && s2 == Recv(s1, fs[1]) && s3 == Recv(s2, fs[2])
    ensures Feed(s, fs) == Recv(s3, fs[3])
  {
    assert fs[0..] == fs && fs[4..] == [];
    FeedFirst(s, fs, 0);
    FeedFirst(s1, fs, 1);
    FeedFirst(s2, fs, 2);
    FeedFirst(s3, fs, 3);
  }

  // ---------------------------------------------------------------- the four stages

  /** Four rising lengths lock the receiver on to the sender. */
  lemma LockOn(s: Rx, fs: seq<Frame>, base: Byte)
    requires Shape(s) && s.phase == Idle && s.record == CLEAR
    requires 49 <= base && |fs| == 4 && Spell(fs, base, GuideCodes())
    ensures Feed(s, fs) == s.(phase := SrcLocked, baseLen := base, ap := fs[3].header)
  {
    var l: Word := base;
    var s1 := s.(record := Record(0, 0, 0, l + 1, l + 1, 0, 0));
    var s2 := s.(record := Record(0, 0, l + 1, l + 2, l + 2, 0, 0));
    var s3 := s.(record := Record(0, l + 1, l + 2, l + 3, l + 3, 0, 0));
    Feed4(s, fs, s1, s2, s3);
  }

  /** A frame of the locked sender is heard as the code it stands for. */
  lemma Heard(s: Rx, f: Frame, code: Word)
    requires Shape(s) && 49 <= s.baseLen && f.header[4..22] == s.ap[4..22] && code < 0x200
    requires f.length == s.baseLen + code
    ensures Passes(s, f) && Code(f.length, s.baseLen) == code
  {
  }

  ghost predicate Locked(s: Rx, base: Byte, fs: seq<Frame>) {
    && Shape(s) && s.baseLen == base >= 49
    && forall i :: 0 <= i < |fs| ==> fs[i].header[4..22] == s.ap[4..22]
  }

  /** Four tagged codes are recognised exactly at the fourth. */
  lemma TaggedWindows(tag: Word, c: seq<Word>, x: Byte, y: Byte)
    requires (tag == 0 || tag == 0x40) && c == TagCodes(tag, x, y)
    ensures !Tagged(Record(0, 0, 0, c[0], c[0], 0, 0), tag)
    ensures !Tagged(Record(0, 0, c[0], c[1], c[1], 0, 0), tag)
    ensures !Tagged(Record(0, c[0], c[1], c[2], c[2], 0, 0), tag)
    ensures Tagged(Record(c[0], c[1], c[2], c[3], c[3], 0, 0), tag)
    ensures Nibbles(c[0], c[1]) == x && Nibbles(c[2], c[3]) == y
    ensures forall i :: 0 <= i < 4 ==> c[i] < 0x200
  {
  }

  lemma MagicOn(s: Rx, fs: seq<Frame>, total: Byte, ssidCrc: Byte)
    requires Locked(s, s.baseLen, fs) && s.phase == SrcLocked && s.record == CLEAR
    requires |fs| == 4 && Spell(fs, s.baseLen, TagCodes(0, total, ssidCrc))
    ensures Feed(s, fs) == s.(phase := MagicCodeComplete, totalLen := total, ssidCrc := ssidCrc)
  {
    var c := TagCodes(0, total, ssidCrc);
    TaggedWindows(0, c, total, ssidCrc);
    var s1 := s.(record := Record(0, 0, 0, c[0], c[0], 0, 0));
    var s2 := s.(record := Record(0, 0, c[0], c[1], c[1], 0, 0));
    var s3 := s.(record := Record(0, c[0], c[1], c[2], c[2], 0, 0));
    Heard(s, fs[0], c[0]);
    Heard(s1, fs[1], c[1]);
    Heard(s2, fs[2], c[2]);
    Heard(s3, fs[3], c[3]);
    Feed4(s, fs, s1, s2, s3);
  }

  lemma PrefixOn(s: Rx, fs: seq<Frame>, len: Byte)
    requires Locked(s, s.baseLen, fs) && s.phase == MagicCodeComplete && s.record == CLEAR && len <= 32
    requires |fs| == 4 && Spell(fs, s.baseLen, TagCodes(0x40, len, Checksum([len])))
    ensures Feed(s, fs) == s.(phase := PrefixCodeComplete, pswdLen := len, pswdLenCrc := Crc([len]),
                              needSeq := Need(len), target := Below(Need(len)))
  {
    hide Checksum, Crc;
    var c := TagCodes(0x40, len, Checksum([len]));
    ChecksumIs([len]);
    TaggedWindows(0x40, c, len, Crc([len]));
    var s1 := s.(record := Record(0, 0, 0, c[0], c[0], 0, 0));
    var s2 := s.(record := Record(0, 0, c[0], c[1], c[1], 0, 0));
    var s3 := s.(record := Record(0, c[0], c[1], c[2], c[2], 0, 0));
    Heard(s, fs[0], c[0]);
    Heard(s1, fs[1], c[1]);
    Heard(s2, fs[2], c[2]);
    Heard(s3, fs[3], c[3]);
    Feed4(s, fs, s1, s2, s3);
  }

  /** The parts of the six codes of a group. */
  lemma GroupParts(c: seq<Word>, i: nat, d: seq<Byte>)
    requires i < 0x80 && |d| == 4 && c == GroupCodes(i, d)
    ensures |c| == 6 && Kind(c[0]) == 0x80 && Kind(c[1]) == 0x80 && c[0] % 0x80 == GroupCrc(i, d) && c[1] % 0x80 == i
    ensures !IsData(c[0]) && !IsData(c[1]) && Kind(0) != 0x80 && !IsData(0)
    ensures forall k :: 2 <= k < 6 ==> IsData(c[k]) && Kind(c[k]) != 0x80 && c[k] % 0x100 == d[k - 2]
    ensures forall k :: 0 <= k < 6 ==> c[k] < 0x200
  {
    hide Crc, Checksum;
    ChecksumIs([i] + d);
  }

  /** A window that straddles two groups never has the shape of one. */
  lemma Unaligned(i: nat, d: seq<Byte>, j: nat, e: seq<Byte>, k: nat, stale: Word, total: Byte)
    requires i < 0x80 && j < 0x80 && |d| == 4 && |e| == 4 && 0 < k < 6
    ensures var w := (GroupCodes(i, d) + GroupCodes(j, e))[k..k + 6];
            !GroupShape(Record(w[0], w[1], w[2], w[3], w[4], w[5], stale), total)
  {
    hide GroupCodes, GroupCrc, Kind, IsData;
    var a, b := GroupCodes(i, d), GroupCodes(j, e);
    GroupParts(a, i, d);
    GroupParts(b, j, e);
    var w := (a + b)[k..k + 6];
    if k == 1 {
      assert w[1] == a[2];
    } else {
      assert w[0] == a[k];
    }
  }

  /** A window that a group has only partly entered never has the shape of one. */
  lemma GroupWindows(c: seq<Word>, i: nat, d: seq<Byte>, total: Byte)
    requires i < 0x80 && |d| == 4 && c == GroupCodes(i, d)
    ensures !GroupShape(Record(0, 0, 0, 0, 0, c[0], c[0]), total)
    ensures !GroupShape(Record(0, 0, 0, 0, c[0], c[1], c[1]), total)
    ensures !GroupShape(Record(0, 0, 0, c[0], c[1], c[2], c[2]), total)
    ensures !GroupShape(Record(0, 0, c[0], c[1], c[2], c[3], c[3]), total)
    ensures !GroupShape(Record(0, c[0], c[1], c[2], c[3], c[4], c[4]), total)
    ensures i <= total / 4 + 1 ==> GroupValid(Record(c[0], c[1], c[2], c[3], c[4], c[5], c[5]), total)
    ensures GroupData(Record(c[0], c[1], c[2], c[3], c[4], c[5], c[5])) == d && c[1] % 0x80 == i
    ensures forall k :: 0 <= k < 6 ==> c[k] < 0x200
  {
    hide GroupCodes, GroupCrc, Kind, IsData;
    GroupParts(c, i, d);
    var r := Record(c[0], c[1], c[2], c[3], c[4], c[5], c[5]);
    assert GroupData(r) == d;
  }

  lemma SequenceWaits(s: Rx, f: Frame, code: Word)
    requires Locked(s, s.baseLen, [f]) && s.phase == PrefixCodeComplete && code < 0x200
    requires f.length == s.baseLen + code && !GroupShape(Slide6(s.record, code), s.totalLen)
    ensures Recv(s, f) == s.(record := Slide6(s.record, code))
  {
    assert [f][0] == f;
    Heard(s, f, code);
  }

  /** Six lengths of a group are taken in at the sixth, once. */
  lemma GroupOn(s: Rx, fs: seq<Frame>, i: nat, d: seq<Byte>)
    requires Locked(s, s.baseLen, fs) && s.phase == PrefixCodeComplete && s.record == CLEAR
    requires i < 0x80 && |d| == 4 && i <= s.totalLen / 4 + 1
    requires |fs| == 6 && Spell(fs, s.baseLen, GroupCodes(i, d))
    ensures Feed(s, fs) == Finish(AddSeqData(s, d, i))
  {
    var c := GroupCodes(i, d);
    GroupWindows(c, i, d, s.totalLen);
    var s1 := s.(record := Record(0, 0, 0, 0, 0, c[0], c[0]));
    var s2 := s.(record := Record(0, 0, 0, 0, c[0], c[1], c[1]));
    var s3 := s.(record := Record(0, 0, 0, c[0], c[1], c[2], c[2]));
    var s4 := s.(record := Record(0, 0, c[0], c[1], c[2], c[3], c[3]));
    var s5 := s.(record := Record(0, c[0], c[1], c[2], c[3], c[4], c[4]));
    SequenceWaits(s, fs[0], c[0]);
    SequenceWaits(s1, fs[1], c[1]);
    SequenceWaits(s2, fs[2], c[2]);
    SequenceWaits(s3, fs[3], c[3]);
    SequenceWaits(s4, fs[4], c[4]);
    GroupTaken(s5, fs[5], s, i, d);
    assert fs[0..] == fs && fs[6..] == [];
    FeedFirst(s, fs, 0);
    FeedFirst(s1, fs, 1);
    FeedFirst(s2, fs, 2);
    FeedFirst(s3, fs, 3);
    FeedFirst(s4, fs, 4);
    FeedFirst(s5, fs, 5);
  }

  lemma GroupTaken(s5: Rx, f: Frame, s: Rx, i: nat, d: seq<Byte>)
    requires Locked(s, s.baseLen, [f]) && s.phase == PrefixCodeComplete && s.record == CLEAR
    requires i < 0x80 && |d| == 4 && i <= s.totalLen / 4 + 1
    requires var c := GroupCodes(i, d);
             f.length == s.baseLen + c[5] && s5 == s.(record := Record(0, c[0], c[1], c[2], c[3], c[4], c[4]))
    ensures Recv(s5, f) == Finish(AddSeqData(s, d, i))
  {
    var c := GroupCodes(i, d);
    GroupWindows(c, i, d, s.totalLen);
    SequenceTakes(s5, f, c[5]);
    assert s5.(record := CLEAR) == s;
  }

  lemma SequenceTakes(s: Rx, f: Frame, code: Word)
    requires Locked(s, s.baseLen, [f]) && s.phase == PrefixCodeComplete && code < 0x200
    requires f.length == s.baseLen + code && GroupValid(Slide6(s.record, code), s.totalLen)
    ensures var r := Slide6(s.record, code);
            Recv(s, f) == Finish(AddSeqData(s.(record := CLEAR), GroupData(r), r.w1 % 0x80))
  {
    assert [f][0] == f;
    Heard(s, f, code);
  }

  // ---------------------------------------------------------------- the groups of one message

  ghost predicate Covered(seen: set<nat>, need: nat) {
    forall j :: 0 <= j < need ==> j in seen
  }

  /** The receiver after the message's prefix and the groups in seen. */
  ghost predicate Holding(s: Rx, tx: Transmission, seen: set<nat>)
    requires tx.Valid()
  {
    && Shape(s) && s.phase == PrefixCodeComplete && s.record == CLEAR
    && s.baseLen == tx.base && s.totalLen == tx.total
    && s.pswdLen == |tx.password| && s.needSeq == Need(|tx.password|)
    && s.target == Below(s.needSeq) && s.got == seen * s.target
    && forall i :: 0 <= i < s.needSeq && i in seen ==> s.usrData[4 * i..4 * i + 4] == tx.Group(i)
  }

  ghost predicate Delivered(s: Rx, tx: Transmission) {
    && s.phase == Complete && s.pswdLen == |tx.password| && s.pswdLen <= |s.usrData|
    && s.usrData[..s.pswdLen] == tx.password && s.randomNum == tx.random
  }

  lemma TakeGroup(s: Rx, tx: Transmission, seen: set<nat>, i: nat)
    requires tx.Valid() && Holding(s, tx, seen) && tx.Has(i)
    ensures var s' := AddSeqData(s, tx.Group(i), i); Holding(s', tx, seen + {i})
  {
    var s' := AddSeqData(s, tx.Group(i), i);
    forall j | 0 <= j < s.needSeq && j in seen + {i}
      ensures s'.usrData[4 * j..4 * j + 4] == tx.Group(j)
    {
      if Wanted(s.got, s.needSeq, i) {
        StoreApart(s.usrData, tx.Group(i), i, j);
      }
    }
  }

  lemma FinishMessage(s: Rx, tx: Transmission, seen: set<nat>)
    requires tx.Valid() && Holding(s, tx, seen)
    ensures if Covered(seen, s.needSeq) then Delivered(Finish(s), tx) else Finish(s) == s
  {
    if Covered(seen, s.needSeq) {
      assert s.got == s.target;
      var n := |tx.password|;
      forall k | 0 <= k <= n
        ensures s.usrData[k] == tx.Data()[k]
      {
        var i := k / 4;
        assert s.usrData[4 * i..4 * i + 4][k - 4 * i] == tx.Group(i)[k - 4 * i];
      }
      assert Finish(s).usrData[..n] == tx.password;
    } else {
      var j :| 0 <= j < s.needSeq && j !in seen;
      assert j in s.target && j !in s.got;
    }
  }

  // ---------------------------------------------------------------- a whole message

  function SetOf(order: seq<nat>): set<nat> {
    set i | i in order
  }

  ghost predicate Sends(tx: Transmission, order: seq<nat>) {
    forall k :: 0 <= k < |order| ==> tx.Has(order[k])
  }

  function OrderCodes(tx: Transmission, order: seq<nat>): seq<Word>
    requires Sends(tx, order)
  {
    if order == [] then [] else GroupCodes(order[0], tx.Group(order[0])) + OrderCodes(tx, order[1..])
  }

  /** The groups in this order, repeats included, are all there at the last of them and not before. */
  ghost predicate JustCovers(seen: set<nat>, order: seq<nat>, need: nat) {
    && order != [] && Covered(seen + SetOf(order), need)
    && !Covered(seen + SetOf(order[..|order| - 1]), need)
  }

  lemma Slice(fs: seq<Frame>, base: Byte, a: seq<Word>, b: seq<Word>)
    requires Spell(fs, base, a + b)
    ensures Spell(fs[..|a|], base, a) && Spell(fs[|a|..], base, b)
  {
    forall k | 0 <= k < |a| ensures fs[..|a|][k].length == base + a[k] {
      assert (a + b)[k] == a[k];
    }
    forall k | 0 <= k < |b| ensures fs[|a|..][k].length == base + b[k] {
      assert (a + b)[|a| + k] == b[k];
    }
  }

  lemma CoverStep(seen: set<nat>, order: seq<nat>, need: nat)
    requires JustCovers(seen, order, need)
    ensures |order| == 1 ==> Covered(seen + {order[0]}, need)
    ensures |order| > 1 ==> !Covered(seen + {order[0]}, need)
                            && JustCovers(seen + {order[0]}, order[1..], need)
  {
    var i, rest := order[0], order[1..];
    assert order == [i] + rest;
    assert seen + SetOf(order) == (seen + {i}) + SetOf(rest);
    if |order| > 1 {
      var before := order[..|order| - 1];
      assert before == [i] + rest[..|rest| - 1];
      assert seen + SetOf(before) == (seen + {i}) + SetOf(rest[..|rest| - 1]);
    } else {
      assert (seen + {i}) + SetOf(rest) == seen + {i};
    }
  }

  /** One group of the message: either it was the last one missing, or the receiver holds one more. */
  lemma GroupStep(s: Rx, tx: Transmission, seen: set<nat>, i: nat, fs: seq<Frame>)
    requires tx.Valid() && Holding(s, tx, seen) && tx.Has(i)
    requires Locked(s, tx.base, fs) && Spell(fs, tx.base, GroupCodes(i, tx.Group(i)))
    ensures if Covered(seen + {i}, s.needSeq) then Delivered(Feed(s, fs), tx)
            else Holding(Feed(s, fs), tx, seen + {i}) && Feed(s, fs).ap == s.ap && Feed(s, fs).needSeq == s.needSeq
  {
    GroupOn(s, fs, i, tx.Group(i));
    TakeGroup(s, tx, seen, i);
    FinishMessage(AddSeqData(s, tx.Group(i), i), tx, seen + {i});
  }

  lemma SplitHead(s: Rx, tx: Transmission, order: seq<nat>, fs: seq<Frame>) returns (head: seq<Frame>, tail: seq<Frame>)
    requires Locked(s, tx.base, fs) && Sends(tx, order) && order != [] && Spell(fs, tx.base, OrderCodes(tx, order))
    ensures Feed(s, fs) == Feed(Feed(s, head), tail) && (|order| == 1 ==> tail == [])
    ensures Locked(s, tx.base, head) && Spell(head, tx.base, GroupCodes(order[0], tx.Group(order[0])))
    ensures Locked(s, tx.base, tail) && Spell(tail, tx.base, OrderCodes(tx, order[1..]))
  {
    head, tail := fs[..6], fs[6..];
    Slice(fs, tx.base, GroupCodes(order[0], tx.Group(order[0])), OrderCodes(tx, order[1..]));
    assert fs == head + tail;
    FeedConcat(s, head, tail);
  }

  lemma {:induction false} GroupsOn(s: Rx, tx: Transmission, seen: set<nat>, order: seq<nat>, fs: seq<Frame>)
    requires tx.Valid() && Holding(s, tx, seen) && Sends(tx, order)
    requires JustCovers(seen, order, s.needSeq)
    requires Locked(s, tx.base, fs) && Spell(fs, tx.base, OrderCodes(tx, order))
    ensures Delivered(Feed(s, fs), tx)
    decreases |order|
  {
    var head, tail := SplitHead(s, tx, order, fs);
    GroupStep(s, tx, seen, order[0], head);
    CoverStep(seen, order, s.needSeq);
    if |order| > 1 {
      GroupsOn(Feed(s, head), tx, seen + {order[0]}, order[1..], tail);
    }
  }

  function MessageCodes(tx: Transmission, order: seq<nat>): seq<Word>
    requires |tx.password| < 0x100 && Sends(tx, order)
  {
    GuideCodes() + TagCodes(0x00, tx.total, tx.ssidCrc)
    + TagCodes(0x40, |tx.password|, Checksum([|tx.password|])) + OrderCodes(tx, order)
  }

  /** The frames of a complete, loss-free message: guide, magic and prefix codes, then groups in any
      order and any number of times until the password is complete. */
  ghost predicate LossFree(fs: seq<Frame>, tx: Transmission, order: seq<nat>) {
    && tx.Valid() && Sends(tx, order) && JustCovers({}, order, Need(|tx.password|))
    && Spell(fs, tx.base, MessageCodes(tx, order))
    && forall f <- fs :: f.header[4..22] == fs[0].header[4..22]
  }

  lemma FourSlices(fs: seq<Frame>, base: Byte, g: seq<Word>, m: seq<Word>, p: seq<Word>, rest: seq<Word>)
    requires |g| == |m| == |p| == 4 && Spell(fs, base, g + m + p + rest)
    ensures |fs| >= 12 && fs == fs[..4] + (fs[4..8] + (fs[8..12] + fs[12..]))
    ensures Spell(fs[..4], base, g) && Spell(fs[4..8], base, m) && Spell(fs[8..12], base, p)
    ensures Spell(fs[12..], base, rest)
  {
    Slice(fs, base, g + m + p, rest);
    Slice(fs[..12], base, g + m, p);
    Slice(fs[..8], base, g, m);
    assert fs[..12][..8] == fs[..8] && fs[..12][8..] == fs[8..12];
    assert fs[..8][..4] == fs[..4] && fs[..8][4..] == fs[4..8];
  }

  /** A receiver with no groups left over from before gets exactly the password and the random byte. */
  lemma Delivery(s: Rx, tx: Transmission, order: seq<nat>, fs: seq<Frame>)
    requires Shape(s) && s.phase == Idle && s.record == CLEAR && s.got == {}
    requires LossFree(fs, tx, order)
    ensures Delivered(Feed(s, fs), tx)
  {
    var len := |tx.password|;
    FourSlices(fs, tx.base, GuideCodes(), TagCodes(0, tx.total, tx.ssidCrc), TagCodes(0x40, len, Checksum([len])),
               OrderCodes(tx, order));
    DeliveryInStages(s, tx, order, fs[..4], fs[4..8], fs[8..12], fs[12..]);
  }

  /** The first three stages. */
  lemma UpToPrefix(s: Rx, tx: Transmission, f1: seq<Frame>, f2: seq<Frame>, f3: seq<Frame>) returns (s3: Rx)
    requires Shape(s) && s.phase == Idle && s.record == CLEAR && tx.Valid()
    requires Spell(f1, tx.base, GuideCodes()) && Spell(f2, tx.base, TagCodes(0, tx.total, tx.ssidCrc))
    requires Spell(f3, tx.base, TagCodes(0x40, |tx.password|, Checksum([|tx.password|])))
    requires var h := f1[3].header; From(f2, h) && From(f3, h)
    ensures s3 == Feed(Feed(Feed(s, f1), f2), f3)
    ensures s3 == Rx(PrefixCodeComplete, CLEAR, tx.base, tx.total, tx.ssidCrc, |tx.password|, Crc([|tx.password|]),
                     Need(|tx.password|), Below(Need(|tx.password|)), s.got, s.usrData, s.randomNum, f1[3].header)
  {
    LockOn(s, f1, tx.base);
    var s1 := Feed(s, f1);
    MagicOn(s1, f2, tx.total, tx.ssidCrc);
    var s2 := Feed(s1, f2);
    PrefixOn(s2, f3, |tx.password|);
    s3 := Feed(s2, f3);
  }

  lemma Feed3(s: Rx, f1: seq<Frame>, f2: seq<Frame>, f3: seq<Frame>, f4: seq<Frame>)
    requires Shape(s)
    ensures Feed(s, f1 + (f2 + (f3 + f4))) == Feed(Feed(Feed(Feed(s, f1), f2), f3), f4)
  {
    FeedConcat(s, f1, f2 + (f3 + f4));
    FeedConcat(Feed(s, f1), f2, f3 + f4);
    FeedConcat(Feed(Feed(s, f1), f2), f3, f4);
  }

  lemma DeliveryInStages(s: Rx, tx: Transmission, order: seq<nat>,
                         f1: seq<Frame>, f2: seq<Frame>, f3: seq<Frame>, f4: seq<Frame>)
    requires Shape(s) && s.phase == Idle && s.record == CLEAR && s.got == {}
    requires tx.Valid() && Sends(tx, order) && JustCovers({}, order, Need(|tx.password|))
    requires Spell(f1, tx.base, GuideCodes()) && Spell(f2, tx.base, TagCodes(0, tx.total, tx.ssidCrc))
    requires Spell(f3, tx.base, TagCodes(0x40, |tx.password|, Checksum([|tx.password|])))
    requires Spell(f4, tx.base, OrderCodes(tx, order))
    requires var h := f1[3].header; From(f2, h) && From(f3, h) && From(f4, h)
    ensures Delivered(Feed(s, f1 + (f2 + (f3 + f4))), tx)
  {
    hide Recv, Feed, Crc, Checksum, TagCodes, OrderCodes, JustCovers, Covered;
    var s3 := UpToPrefix(s, tx, f1, f2, f3);
    Feed3(s, f1, f2, f3, f4);
    assert s3.got == {} * s3.target;
    GroupsOn(s3, tx, {}, order, f4);
  }

  /** The plain case: every group of the password once, in order. */
  lemma DeliveryInOrder(s: Rx, tx: Transmission, fs: seq<Frame>)
    requires Shape(s) && s.phase == Idle && s.record == CLEAR && s.got == {} && tx.Valid()
    requires var order := seq(Need(|tx.password|), i => i);
             && Sends(tx, order) && Spell(fs, tx.base, MessageCodes(tx, order))
    requires forall f <- fs :: f.header[4..22] == fs[0].header[4..22]
    ensures Delivered(Feed(s, fs), tx)
  {
    hide Feed, Recv, OrderCodes, MessageCodes, Delivered, Crc, Checksum, Spell;
    var n := Need(|tx.password|);
    var order := seq(n, i => i);
    forall j | 0 <= j < n ensures j in {} + SetOf(order) {
      assert order[j] == j;
    }
    assert n - 1 !in {} + SetOf(order[..n - 1]);
    Delivery(s, tx, order, fs);
  }

  // ---------------------------------------------------------------- other senders

  /** The frames that carry the addresses of the sender that was locked on to. */
  function Own(ap: seq<Byte>, fs: seq<Frame>): seq<Frame>
    requires |ap| == 24
  {
    if fs == [] then [] else (if fs[0].header[4..22] == ap[4..22] then [fs[0]] else []) + Own(ap, fs[1..])
  }

  lemma LockStays(s: Rx, f: Frame)
    requires Shape(s) && s.phase != Idle
    ensures Recv(s, f).ap == s.ap && (f.header[4..22] != s.ap[4..22] ==> Recv(s, f) == s)
  {
    hide Crc;
  }

  /** The receiver stays locked on through these frames. */
  predicate StaysLocked(s: Rx, fs: seq<Frame>)
    requires Shape(s)
    decreases |fs|
  {
    s.phase != Idle && (fs != [] ==> StaysLocked(Recv(s, fs[0]), fs[1..]))
  }

  /** Frames of other senders, wherever they come, change nothing while the receiver is locked on. */
  lemma {:induction false} OthersIgnored(s: Rx, fs: seq<Frame>)
    requires Shape(s) && StaysLocked(s, Own(s.ap, fs))
    ensures Feed(s, fs) == Feed(s, Own(s.ap, fs))
    decreases |fs|
  {
    hide Recv;
    if fs != [] {
      var own, rest := Own(s.ap, fs), Own(s.ap, fs[1..]);
      LockStays(s, fs[0]);
      if fs[0].header[4..22] == s.ap[4..22] {
        assert own[0] == fs[0] && own[1..] == rest;
        OthersIgnored(Recv(s, fs[0]), fs[1..]);
      } else {
        assert own == rest;
        OthersIgnored(s, fs[1..]);
      }
    }
  }

  // ---------------------------------------------------------------- a second session

  function Frames(base: Byte, codes: seq<Word>): (fs: seq<Frame>)
    requires forall i :: 0 <= i < |codes| ==> codes[i] < 0x200
    ensures Spell(fs, base, codes) && forall f <- fs :: f.header == seq(24, _ => 0)
  {
    seq(|codes|, i requires 0 <= i < |codes| => Frame(seq(24, _ => 0), base + codes[i]))
  }

  /** The shortest message: an empty password and the random byte r, in one group. */
  function Shortest(r: Byte): Transmission {
    Transmission(49, 4, 0, [], r, [0, 0, 0])
  }

  lemma ShortestOrder(r: Byte)
    ensures var tx := Shortest(r);
            && tx.Valid() && tx.Has(0) && |tx.Group(0)| == 4 && Sends(tx, [0])
            && JustCovers({}, [0], Need(0)) && OrderCodes(tx, [0]) == GroupCodes(0, tx.Group(0))
  {
    hide Crc, Checksum;
    var order: seq<nat> := [0];
    assert order[1..] == [] && order[..0] == [];
    assert Shortest(r).Has(0);
    assert 0 in {} + SetOf(order) && 0 !in {} + SetOf(order[..0]);
    assert OrderCodes(Shortest(r), order) == GroupCodes(0, Shortest(r).Group(0)) + [];
  }

  lemma SpellConcat(f1: seq<Frame>, f2: seq<Frame>, base: Byte, c1: seq<Word>, c2: seq<Word>)
    requires Spell(f1, base, c1) && Spell(f2, base, c2)
    ensures Spell(f1 + f2, base, c1 + c2)
  {
  }

  lemma FourJoined(f1: seq<Frame>, f2: seq<Frame>, f3: seq<Frame>, f4: seq<Frame>, base: Byte,
                   g: seq<Word>, m: seq<Word>, p: seq<Word>, rest: seq<Word>)
    requires Spell(f1, base, g) && Spell(f2, base, m) && Spell(f3, base, p) && Spell(f4, base, rest)
    ensures Spell(f1 + (f2 + (f3 + f4)), base, g + m + p + rest)
  {
    hide Spell;
    SpellConcat(f1, f2, base, g, m);
    SpellConcat(f1 + f2, f3, base, g + m, p);
    SpellConcat(f1 + f2 + f3, f4, base, g + m + p, rest);
    assert f1 + (f2 + (f3 + f4)) == f1 + f2 + f3 + f4;
  }

  lemma ShortestFrames(r: Byte) returns (f1: seq<Frame>, f2: seq<Frame>, f3: seq<Frame>, f4: seq<Frame>)
    ensures var tx := Shortest(r);
            && tx.Valid() && tx.Has(0) && |tx.Group(0)| == 4
            && Spell(f4, 49, GroupCodes(0, tx.Group(0))) && LossFree(f1 + (f2 + (f3 + f4)), tx, [0])
    ensures Spell(f1, 49, GuideCodes()) && Spell(f2, 49, TagCodes(0, 4, 0))
    ensures Spell(f3, 49, TagCodes(0x40, 0, Checksum([0])))
    ensures var h := f1[3].header; From(f2, h) && From(f3, h) && From(f4, h)
  {
    hide Crc, Checksum, Below, Recv, OrderCodes, SetOf, JustCovers;
    ShortestOrder(r);
    var g, m, p := GuideCodes(), TagCodes(0, 4, 0), TagCodes(0x40, 0, Checksum([0]));
    var o := GroupCodes(0, Shortest(r).Group(0));
    f1, f2, f3, f4 := Frames(49, g), Frames(49, m), Frames(49, p), Frames(49, o);
    FourJoined(f1, f2, f3, f4, 49, g, m, p, o);
  }

  /** Groups left over from an earlier message spoil the next one: here is a message that goes wrong. */
  lemma StaleGroups(s: Rx) returns (tx: Transmission, fs: seq<Frame>)
    requires Shape(s) && s.phase == Idle && s.record == CLEAR && s.got != {}
    ensures LossFree(fs, tx, [0]) && !Delivered(Feed(s, fs), tx)
  {
    hide Recv, Feed, Crc, Checksum, Below, TagCodes, OrderCodes, JustCovers;
    var old0: int := s.usrData[0];
    tx := Shortest((old0 + 1) % 0x100);
    var f1, f2, f3, f4 := ShortestFrames((old0 + 1) % 0x100);
    fs := f1 + (f2 + (f3 + f4));
    var s3 := UpToPrefix(s, tx, f1, f2, f3);
    Feed3(s, f1, f2, f3, f4);
    GroupOn(s3, f4, 0, tx.Group(0));
    StaleFinish(s3, tx.Group(0));
  }

  lemma StaleFinish(s: Rx, d: seq<Byte>)
    requires Shape(s) && s.got != {} && s.needSeq == 1 && s.target == Below(1) && s.pswdLen == 0 && |d| == 4
    requires s.phase == PrefixCodeComplete
    ensures var s' := Finish(AddSeqData(s, d, 0));
            s'.phase != Complete || s'.randomNum == s.usrData[0]
  {
    var s' := AddSeqData(s, d, 0);
    assert Below(1) == {0};
    if 0 in s.got {
      assert s' == s;
    } else {
      var i :| i in s.got;
      assert i in s'.got && i != 0;
    }
  }

  /** A session is sure to deliver whatever is sent exactly when no group is left over, which is what
      airkiss_init establishes and the end of a session does not. */
  lemma SessionSound(s: Rx)
    requires Shape(s) && s.phase == Idle && s.record == CLEAR
    ensures (forall tx, order, fs :: LossFree(fs, tx, order) ==> Delivered(Feed(s, fs), tx)) <==> s.got == {}
  {
    if s.got == {} {
      forall tx, order, fs | LossFree(fs, tx, order)
        ensures Delivered(Feed(s, fs), tx)
      {
        Delivery(s, tx, order, fs);
      }
    } else {
      var tx, fs := StaleGroups(s);
    }
  }
}

/** The byte-stuffed frames that messages take in the ring: encoder, decoder and what they mean. */
module MqttProto {
  import opened MqttRingBuf

  const ESC: Byte := 0x7D
  const BEG: Byte := 0x7E
  const END: Byte := 0x7F

  // ---------------------------------------------------------------- encoder

  function StuffByte(b: Byte): seq<Byte> {
    if b == ESC || b == BEG || b == END then [ESC, b ^ 0x20] else [b]
  }

  function Stuff(m: seq<Byte>): seq<Byte> {
    if m == [] then [] else StuffByte(m[0]) + Stuff(m[1..])
  }

  /** What a complete put of message m leaves in the ring. */
  function Frame(m: seq<Byte>): seq<Byte> {
    [BEG] + Stuff(m) + [END]
  }

  function Min(a: nat, b: nat): nat {
    if a < b then a else b
  }

  /** The index of the first END, or the length if there is none. */
  function FirstEnd(q: seq<Byte>): (n: nat)
    ensures n <= |q| && (n < |q| ==> q[n] == END)
    ensures forall i :: 0 <= i < n ==> q[i] != END
  {
    if q == [] || q[0] == END then 0 else 1 + FirstEnd(q[1..])
  }

  /** What fits of a frame: the encoder writes until a byte is refused and leaves that prefix behind. */
  function Fit(frame: seq<Byte>, room: nat): seq<Byte> {
    frame[..Min(|frame|, room)]
  }

  /** A C int narrowed to 16 bits, signed. */
  function ToInt16(x: nat): int {
    var low := x % 0x1_0000;
    if low < 0x8000 then low else low - 0x1_0000
  }

  // ---------------------------------------------------------------- decoder

  datatype Parser = Parser(data: seq<Byte>, esc: bool, begun: bool)

  /** One byte other than END; bytes beyond max are dropped. */
  function Feed(p: Parser, value: Byte, max: nat): Parser {
    if value == ESC then p.(esc := true)
    else if value == BEG then Parser([], false, true)
    else if !p.begun then p
    else
      var v := if p.esc then value ^ 0x20 else value;
      Parser(if |p.data| < max then p.data + [v] else p.data, false, true)
  }

  function FeedAll(p: Parser, s: seq<Byte>, max: nat): Parser
    decreases |s|
  {
    if s == [] then p else FeedAll(Feed(p, s[0], max), s[1..], max)
  }

  datatype Got = Got(msg: seq<Byte>, rest: seq<Byte>) | Nothing

  /** Decode up to and including the first END; without one, everything is used up for nothing. */
  function Scan(p: Parser, q: seq<Byte>, max: nat): Got
    decreases |q|
  {
    if q == [] then Nothing
    else if q[0] == END then Got(p.data, q[1..])
    else Scan(Feed(p, q[0], max), q[1..], max)
  }

  const FRESH := Parser([], false, false)

  /** What a dequeue obtains from ring contents q. */
  function Take(q: seq<Byte>, max: nat): Got {
    Scan(FRESH, q, max)
  }

  /** Every message that dequeues would obtain from q, in order. */
  function Messages(q: seq<Byte>, max: nat): seq<seq<Byte>>
    decreases |q|
  {
    match Take(q, max)
    case Nothing => []
    case Got(m, rest) =>
      ScanIs(FRESH, q, max);
      [m] + Messages(rest, max)
  }

  /** Ring contents as the queue operations leave them: frames, whole or torn, each opened by BEG. */
  ghost predicate Framed(q: seq<Byte>) {
    && (q != [] ==> q[0] == BEG)
    && forall i :: 0 <= i < |q| - 1 && q[i] == END ==> q[i + 1] == BEG
  }

  function Truncate(m: seq<Byte>, max: nat): seq<Byte> {
    m[..Min(|m|, max)]
  }

  // ---------------------------------------------------------------- lemmas

  lemma {:induction false} FirstEndConcat(a: seq<Byte>, b: seq<Byte>)
    ensures FirstEnd(a + b) == if FirstEnd(a) < |a| then FirstEnd(a) else |a| + FirstEnd(b)
  {
    if a == [] {
      assert a + b == b;
    } else {
      assert (a + b)[1..] == a[1..] + b;
      FirstEndConcat(a[1..], b);
    }
  }

  /** Stuffed bytes hold no END, so a frame ends where its END is and nowhere before. */
  lemma {:induction false} StuffHasNoEnd(m: seq<Byte>)
    ensures FirstEnd(Stuff(m)) == |Stuff(m)|
  {
    if m != [] {
      StuffHasNoEnd(m[1..]);
      var v := StuffByte(m[0]);
      assert v[1..] == [] || v[1..][1..] == [];
      assert FirstEnd(v) == |v|;
      FirstEndConcat(v, Stuff(m[1..]));
    }
  }

  lemma FrameEnd(m: seq<Byte>)
    ensures FirstEnd(Frame(m)) == |Frame(m)| - 1
  {
    StuffHasNoEnd(m);
    assert FirstEnd([BEG]) == 1 && FirstEnd([END]) == 0;
    FirstEndConcat([BEG], Stuff(m));
    FirstEndConcat([BEG] + Stuff(m), [END]);
  }

  lemma {:induction false} PrefixEnd(q: seq<Byte>, k: nat)
    requires k <= FirstEnd(q)
    ensures FirstEnd(q[..k]) == k
  {
    if k > 0 {
      assert q[..k][1..] == q[1..][..k - 1];
      PrefixEnd(q[1..], k - 1);
    }
  }

  /** A frame cut off anywhere holds no END. */
  lemma TornHasNoEnd(m: seq<Byte>, k: nat)
    requires k < |Frame(m)|
    ensures FirstEnd(Frame(m)[..k]) == k
  {
    FrameEnd(m);
    PrefixEnd(Frame(m), k);
  }

  /** Unstuffing is the inverse of stuffing, up to the size of the output buffer. */
  lemma {:induction false} FeedStuffed(p: Parser, m: seq<Byte>, max: nat)
    requires p.begun && !p.esc && |p.data| <= max
    ensures FeedAll(p, Stuff(m), max) == Parser(Truncate(p.data + m, max), false, true)
    decreases |m|
  {
    hide Stuff, StuffByte, FeedAll, Feed;
    if m == [] {
      assert p.data + m == p.data;
      FeedNothing(p, max);
    } else {
      var b := m[0];
      var v := StuffByte(b);
      StuffFirst(m);
      FeedAllConcat(p, v, Stuff(m[1..]), max);
      var p' := Parser(if |p.data| < max then p.data + [b] else p.data, false, true);
      FeedByte(p, b, max);
      FeedStuffed(p', m[1..], max);
      assert p.data + m == (p.data + [b]) + m[1..];
      if |p.data| == max {
        assert Truncate(p.data + m, max) == p.data == Truncate(p.data + m[1..], max);
      }
    }
  }

  lemma FeedNothing(p: Parser, max: nat)
    ensures FeedAll(p, Stuff([]), max) == p
  {
  }

  lemma StuffFirst(m: seq<Byte>)
    requires m != []
    ensures Stuff(m) == StuffByte(m[0]) + Stuff(m[1..])
  {
  }

  lemma FeedByte(p: Parser, b: Byte, max: nat)
    requires p.begun && !p.esc
    ensures FeedAll(p, StuffByte(b), max) == Parser(if |p.data| < max then p.data + [b] else p.data, false, true)
  {
    var v := StuffByte(b);
    if |v| == 2 {
      assert (b ^ 0x20) ^ 0x20 == b;
      var e := Feed(p, ESC, max);
      assert v[1..] == [b ^ 0x20] && v[1..][1..] == [];
      assert FeedAll(e, v[1..], max) == Feed(e, b ^ 0x20, max);
    } else {
      assert FeedAll(p, v, max) == FeedAll(Feed(p, b, max), v[1..], max);
    }
  }

  lemma {:induction false} FeedAllConcat(p: Parser, s: seq<Byte>, t: seq<Byte>, max: nat)
    ensures FeedAll(p, s + t, max) == FeedAll(FeedAll(p, s, max), t, max)
    decreases |s|
  {
    if s == [] {
      assert s + t == t;
    } else {
      assert (s + t)[1..] == s[1..] + t;
      FeedAllConcat(Feed(p, s[0], max), s[1..], t, max);
    }
  }

  /** Decoding up to the first END, all at once. */
  lemma {:induction false} ScanIs(p: Parser, q: seq<Byte>, max: nat)
    ensures Scan(p, q, max) == if FirstEnd(q) == |q| then Nothing
                               else Got(FeedAll(p, q[..FirstEnd(q)], max).data, q[FirstEnd(q) + 1..])
    decreases |q|
  {
    if q != [] && q[0] != END {
      ScanIs(Feed(p, q[0], max), q[1..], max);
      if FirstEnd(q) < |q| {
        assert q[..FirstEnd(q)][1..] == q[1..][..FirstEnd(q[1..])];
      }
    }
  }

  /** Bytes behind the first END are left alone. */
  lemma {:induction false} ScanStops(p: Parser, q: seq<Byte>, t: seq<Byte>, max: nat)
    requires FirstEnd(q) < |q|
    ensures Scan(p, q, max).Got?
    ensures Scan(p, q + t, max) == Got(Scan(p, q, max).msg, Scan(p, q, max).rest + t)
    decreases |q|
  {
    assert (q + t)[1..] == q[1..] + t;
    if q[0] != END {
      ScanStops(Feed(p, q[0], max), q[1..], t, max);
    }
  }

  /** The parser's begin flag is not initialised before a dequeue; on framed contents it cannot matter. */
  lemma JunkIsHarmless(junk: bool, q: seq<Byte>, max: nat)
    requires Framed(q)
    ensures Scan(Parser([], false, junk), q, max) == Take(q, max)
  {
  }

  /** A complete frame decodes to its message whatever torn frames precede it. */
  lemma FrameDecodes(torn: seq<Byte>, m: seq<Byte>, max: nat)
    requires FirstEnd(torn) == |torn|
    ensures Take(torn + Frame(m), max) == Got(Truncate(m, max), [])
  {
    hide Stuff, Scan, FeedAll, Feed, FirstEnd, Frame;
    var q, f := torn + Frame(m), [BEG] + Stuff(m);
    var n := |q| - 1;
    FrameEnd(m);
    FrameIs(m);
    FirstEndConcat(torn, Frame(m));
    ScanIs(FRESH, q, max);
    assert q[..n] == torn + f && q[n + 1..] == [];
    FeedAllConcat(FRESH, torn, f, max);
    FeedFrame(FeedAll(FRESH, torn, max), m, max);
  }

  lemma FrameIs(m: seq<Byte>)
    ensures Frame(m) == [BEG] + Stuff(m) + [END]
  {
  }

  lemma FeedFrame(p: Parser, m: seq<Byte>, max: nat)
    ensures FeedAll(p, [BEG] + Stuff(m), max).data == Truncate(m, max)
  {
    hide Stuff;
    var f := [BEG] + Stuff(m);
    assert f[1..] == Stuff(m);
    FeedStuffed(Parser([], false, true), m, max);
    assert [] + m == m;
  }

  /** Torn frames are invisible, whole ones add exactly their message at the end. */
  lemma {:induction false} MessagesAfterPut(q: seq<Byte>, m: seq<Byte>, k: nat, max: nat)
    requires k <= |Frame(m)|
    ensures Messages(q + Frame(m)[..k], max)
         == if k == |Frame(m)| then Messages(q, max) + [Truncate(m, max)] else Messages(q, max)
    decreases |q|
  {
    var t := Frame(m)[..k];
    if FirstEnd(q) < |q| {
      ScanStops(FRESH, q, t, max);
      ScanIs(FRESH, q, max);
      var g := Take(q, max);
      MessagesAfterPut(g.rest, m, k, max);
      assert Messages(q + t, max) == [g.msg] + Messages(g.rest + t, max);
    } else {
      ScanIs(FRESH, q, max);
      if k == |Frame(m)| {
        assert t == Frame(m);
        FrameDecodes(q, m, max);
      } else {
        TornHasNoEnd(m, k);
        FirstEndConcat(q, t);
        ScanIs(FRESH, q + t, max);
      }
    }
  }

  lemma PutKeepsFramed(q: seq<Byte>, m: seq<Byte>, k: nat)
    requires Framed(q) && k <= |Frame(m)|
    ensures Framed(q + Frame(m)[..k])
  {
    FrameEnd(m);
    var t := Frame(m)[..k];
    assert forall i :: 0 <= i < |t| - 1 ==> t[i] == Frame(m)[i] != END;
    assert k > 0 ==> t[0] == BEG;
  }

  lemma TakeKeepsFramed(q: seq<Byte>, max: nat)
    requires Framed(q) && Take(q, max).Got?
    ensures Framed(Take(q, max).rest)
  {
    ScanIs(FRESH, q, max);
  }

  // ---------------------------------------------------------------- operations

  lemma FitConcat(a: seq<Byte>, b: seq<Byte>, room: nat)
    ensures Fit(a + b, room) == if |a| <= room then a + Fit(b, room - |a|) else Fit(a, room)
  {
  }

  /** The ring after n bytes of the message, and one more that fits. */
  lemma StuffSnoc(q: seq<Byte>, m: seq<Byte>, n: nat)
    requires n < |m|
    ensures |Stuff(m[..n + 1])| == |Stuff(m[..n])| + |StuffByte(m[n])|
    ensures (q + Stuff(m[..n])) + StuffByte(m[n]) == q + Stuff(m[..n + 1])
  {
    StuffConcat(m[..n], [m[n]]);
    assert m[..n + 1] == m[..n] + [m[n]];
    assert Stuff([m[n]]) == StuffByte(m[n]) + Stuff([]);
  }

  /** The ring after n bytes of the message, and one more that does not fit. */
  lemma StuffStops(q: seq<Byte>, m: seq<Byte>, n: nat, room: nat)
    requires n < |m|
    requires |Stuff(m[..n])| <= room < |Stuff(m[..n])| + |StuffByte(m[n])|
    ensures (q + Stuff(m[..n])) + Fit(StuffByte(m[n]), room - |Stuff(m[..n])|) == q + Fit(Stuff(m), room)
    ensures room < |Stuff(m)|
  {
    var done, v, left := Stuff(m[..n]), StuffByte(m[n]), Stuff(m[n + 1..]);
    StuffSnoc([], m, n);
    StuffConcat(m[..n + 1], m[n + 1..]);
    assert m == m[..n + 1] + m[n + 1..];
    assert [] + done == done && [] + Stuff(m[..n + 1]) == Stuff(m[..n + 1]);
    assert Stuff(m) == (done + v) + left;
    FitConcat(done + v, left, room);
    FitConcat(done, v, room);
    assert Fit(Stuff(m), room) == done + Fit(v, room - |done|);
  }

  lemma {:induction false} StuffConcat(a: seq<Byte>, b: seq<Byte>)
    ensures Stuff(a + b) == Stuff(a) + Stuff(b)
  {
    if a == [] {
      assert a + b == b;
    } else {
      assert (a + b)[1..] == a[1..] + b;
      StuffConcat(a[1..], b);
    }
  }

  /** The three pieces of a frame, put one after the other. */
  lemma FrameFits(q: seq<Byte>, m: seq<Byte>, room: nat)
    ensures |Frame(m)| == |Stuff(m)| + 2
    ensures 1 + |Stuff(m)| <= room ==> |Fit(Stuff(m), room - 1)| == |Stuff(m)|
    ensures room == 0 ==> q + Fit(Frame(m), room) == q
    ensures 1 <= room < 1 + |Stuff(m)| ==> (q + [BEG]) + Fit(Stuff(m), room - 1) == q + Fit(Frame(m), room)
    ensures room == 1 + |Stuff(m)| ==> (q + [BEG]) + Fit(Stuff(m), room - 1) == q + Fit(Frame(m), room)
    ensures 1 + |Stuff(m)| < room ==>
              ((q + [BEG]) + Fit(Stuff(m), room - 1)) + [END] == q + Fit(Frame(m), room)
  {
  }

  /** The switch in the body of the encoder's loop: one message byte, escaped where it has to be. */
  method AddByte(rb: RingBuf, b: Byte) returns (rc: int)
    requires rb.Valid()
    modifies rb, rb.buf
    ensures rb.Valid() && rb.buf == old(rb.buf)
    ensures rb.contents == old(rb.contents) + Fit(StuffByte(b), rb.Capacity() - |old(rb.contents)|)
    ensures rc == if |old(rb.contents)| + |StuffByte(b)| <= rb.Capacity() then 0 else -1
  {
    if b == ESC || b == BEG || b == END {
      rc := rb.Put(ESC);
      if rc == -1 {
        return -1;
      }
      rc := rb.Put(b ^ 0x20);
    } else {
      rc := rb.Put(b);
    }
  }

  /** The encoder's loop; i counts the bytes written, starting from the two marks. */
  method AddBody(rb: RingBuf, packet: seq<Byte>) returns (rc: int, i: nat)
    requires rb.Valid()
    modifies rb, rb.buf
    ensures rb.Valid() && rb.buf == old(rb.buf)
    ensures rb.contents == old(rb.contents) + Fit(Stuff(packet), rb.Capacity() - |old(rb.contents)|)
    ensures rc == if |old(rb.contents)| + |Stuff(packet)| <= rb.Capacity() then 0 else -1
    ensures rc == 0 ==> i == |Stuff(packet)| + 2
  {
    ghost var q := rb.contents;
    ghost var room := rb.Capacity() - |q|;
    i, rc := 2, 0;
    var n := 0;
    while n < |packet|
      invariant n <= |packet| && rc == 0
      invariant rb.Valid() && rb.buf == old(rb.buf)
      invariant rb.contents == q + Stuff(packet[..n]) && i == |Stuff(packet[..n])| + 2
    {
      rc := AddByte(rb, packet[n]);
      if rc == -1 {
        StuffStops(q, packet, n, room);
        return;
      }
      StuffSnoc(q, packet, n);
      i := i + |StuffByte(packet[n])|;
      n := n + 1;
    }
    assert packet[..n] == packet;
  }

  /** PROTO_AddRb: rc is the encoded length narrowed to 16 bits, or -1 when the ring filled up first. */
  method AddRb(rb: RingBuf, packet: seq<Byte>) returns (rc: int)
    requires rb.Valid() && |packet| <= 0x7FFF
    modifies rb, rb.buf
    ensures rb.Valid() && rb.buf == old(rb.buf)
    ensures rb.contents == old(rb.contents) + Fit(Frame(packet), rb.Capacity() - |old(rb.contents)|)
    ensures rc == if |old(rb.contents)| + |Frame(packet)| <= rb.Capacity()
                  then ToInt16(|Frame(packet)|) else -1
  {
    hide Frame, Stuff, Fit;
    FrameFits(rb.contents, packet, rb.Capacity() - |rb.contents|);
    rc := rb.Put(BEG);
    if rc == 0 {
      var i;
      rc, i := AddBody(rb, packet);
      if rc == 0 {
        rc := rb.Put(END);
        if rc == 0 {
          rc := ToInt16(i);
        }
      }
    }
  }

  class ProtoParser {
    var buf: array<Byte>
    var bufSize: nat
    var dataLen: nat
    var isEsc: bool
    var isBegin: bool

    ghost predicate Valid()
      reads this
    {
      dataLen <= bufSize <= buf.Length
    }

    ghost function State(): Parser
      requires Valid()
      reads this, buf
    {
      Parser(buf[..dataLen], isEsc, isBegin)
    }

    /** PROTO_Init sets every field but isBegin. */
    constructor (buf: array<Byte>, bufSize: nat)
      requires bufSize <= buf.Length
      ensures Valid() && this.buf == buf && this.bufSize == bufSize
      ensures State().data == [] && !State().esc
    {
      this.buf := buf;
      this.bufSize := bufSize;
      dataLen := 0;
      isEsc := false;
    }

    method ParseByte(value: Byte) returns (rc: int)
      requires Valid()
      modifies this, buf
      ensures Valid() && buf == old(buf) && bufSize == old(bufSize)
      ensures value == END ==> rc == 0 && State() == old(State()).(begun := false)
      ensures value != END ==> rc == -1 && State() == Feed(old(State()), value, bufSize)
    {
      if value == ESC {
        isEsc := true;
      } else if value == BEG {
        dataLen := 0;
        isEsc := false;
        isBegin := true;
      } else if value == END {
        isBegin := false;
        return 0;
      } else if isBegin {
        var v := value;
        if isEsc {
          v := v ^ 0x20;
          isEsc := false;
        }
        if dataLen < bufSize {
          buf[dataLen] := v;
          dataLen := dataLen + 1;
        }
      }
      return -1;
    }
  }

  /** PROTO_ParseRb: decode the oldest message into out, or use the whole ring up and fail. */
  method ParseRb(rb: RingBuf, out: array<Byte>, max: nat) returns (rc: int, len: nat)
    requires rb.Valid() && Framed(rb.contents)
    requires max <= out.Length && out != rb.buf
    modifies rb, out
    ensures rb.Valid() && rb.buf == old(rb.buf)
    ensures match Take(old(rb.contents), max)
            case Got(m, rest) => rc == 0 && len == |m| && len <= out.Length && out[..len] == m
                                 && rb.contents == rest
            case Nothing => rc == -1 && rb.contents == []
  {
    ghost var q0 := rb.contents;
    var proto := new ProtoParser(out, max);
    JunkIsHarmless(proto.isBegin, q0, max);
    var get, c := rb.Get();
    while get == 0
      invariant rb.Valid() && rb.buf == old(rb.buf)
      invariant proto.Valid() && fresh(proto) && proto.buf == out && proto.bufSize == max
      invariant get == 0 ==> Scan(proto.State(), [c] + rb.contents, max) == Take(q0, max)
      invariant get != 0 ==> Take(q0, max) == Nothing && rb.contents == []
      decreases if get == 0 then |rb.contents| + 1 else 0
    {
      var parsed := proto.ParseByte(c);
      assert ([c] + rb.contents)[1..] == rb.contents;
      if parsed == 0 {
        return 0, proto.dataLen;
      }
      get, c := rb.Get();
    }
    return -1, 0;
  }
}

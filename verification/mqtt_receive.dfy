/** When the receive handler of the MQTT client returns: the loop over the packets of one piece of received
    data, one pass at a time, and the packet length that makes it go round for ever. */
module MqttReceive {
  import opened Numerals
  import opened MqttRingBuf
  import opened MqttProto
  import opened MqttQueue
  import opened MqttClient

  /** Between two passes, or behind the last. */
  datatype Reading = Reading(s: State, len: nat, at: nat) | Returned(s: State)

  /** One pass, as the C code makes it. */
  function Pass(c: Config, r: Reading, parse: nat -> Packet): (q: Reading)
    requires |r.s.ring| <= c.cap
    ensures |q.s.ring| <= c.cap
  {
    match r
    case Returned(_) => r
    case Reading(s, len, at) =>
      var next := ReceiveOne(c, s, len, parse(at)).next;
      if Again(s.conn, len, parse(at)) then Reading(next, len - parse(at).totalLen, at + parse(at).totalLen)
      else Returned(next)
  }

  function Passes(c: Config, r: Reading, parse: nat -> Packet, n: nat): (q: Reading)
    requires |r.s.ring| <= c.cap
    ensures |q.s.ring| <= c.cap
    decreases n
  {
    if n == 0 then r else Passes(c, Pass(c, r, parse), parse, n - 1)
  }

  lemma {:induction false} NeverReturns(c: Config, r: Reading, parse: nat -> Packet, n: nat)
    requires |r.s.ring| <= c.cap && r.Reading? && Hangs(r.s.conn, r.len, r.at, parse)
    ensures Passes(c, r, parse, n).Reading?
    decreases n
  {
    if n > 0 {
      var q := Pass(c, r, parse);
      assert q.Reading? && q.s.conn == r.s.conn;
      NeverReturns(c, q, parse, n - 1);
    }
  }

  lemma {:induction false} ReturnsWith(c: Config, s: State, len: nat, at: nat, parse: nat -> Packet) returns (n: nat)
    requires |s.ring| <= c.cap && !Hangs(s.conn, len, at, parse)
    ensures Passes(c, Reading(s, len, at), parse, n) == Returned(ReceiveAll(c, s, len, at, parse).next)
    decreases len
  {
    var r, p := Reading(s, len, at), parse(at);
    var q := Pass(c, r, parse);
    if Again(s.conn, len, p) {
      assert q.s.conn == s.conn;
      n := ReturnsWith(c, q.s, len - p.totalLen, at + p.totalLen, parse);
      n := n + 1;
    } else {
      n := 1;
      assert Passes(c, q, parse, 0) == q;
    }
  }

  /** The handler returns, after some number of passes, if and only if no packet that it goes through reports a
      length of zero; and then it has done what the receive event says. */
  lemma ReturnsExactly(c: Config, s: State, len: nat, at: nat, parse: nat -> Packet)
    requires |s.ring| <= c.cap
    ensures (exists n: nat :: Passes(c, Reading(s, len, at), parse, n).Returned?) <==> !Hangs(s.conn, len, at, parse)
    ensures !Hangs(s.conn, len, at, parse) ==>
              exists n: nat ::
                Passes(c, Reading(s, len, at), parse, n) == Returned(ReceiveAll(c, s, len, at, parse).next)
  {
    if Hangs(s.conn, len, at, parse) {
      forall n: nat ensures Passes(c, Reading(s, len, at), parse, n).Reading? {
        NeverReturns(c, Reading(s, len, at), parse, n);
      }
    } else {
      var n := ReturnsWith(c, s, len, at, parse);
    }
  }

  // ---------------------------------------------------------------- where a length of zero comes from

  /** The bytes of the remaining length, from the i-th on, and the bytes of the header. */
  function LengthFrom(b: seq<Byte>, i: nat, weight: nat, tot: nat): nat
    requires i <= |b|
    decreases |b| - i
  {
    if i == |b| then tot + i
    else
      var t := tot + (b[i] & 0x7F) as nat * weight;
      if b[i] & 0x80 == 0 then t + i + 1 else LengthFrom(b, i + 1, weight * 0x80, t)
  }

  /** mqtt_get_total_length. */
  method GetTotalLength(buffer: array<Byte>, length: nat) returns (totlen: nat)
    requires 1 <= length <= buffer.Length
    ensures totlen == LengthFrom(buffer[..length], 1, 1, 0)
  {
    ghost var b := buffer[..length];
    totlen := 0;
    var i: nat, weight: nat := 1, 1;
    while i < length
      invariant 1 <= i <= length && LengthFrom(b, i, weight, totlen) == LengthFrom(b, 1, 1, 0)
    {
      assert b[i] == buffer[i];
      totlen := totlen + (buffer[i] & 0x7F) as nat * weight;
      if buffer[i] & 0x80 == 0 {
        i := i + 1;
        break;
      }
      i, weight := i + 1, weight * 0x80;
    }
    totlen := totlen + i;
  }

  /** Section 2.2.3 of MQTT 3.1.1: the remaining length, seven bits in a byte, the lowest first, and the high bit of a
      byte says that another one follows. */
  function EncodeLength(n: nat): seq<Byte> {
    if n < 128 then [n as Byte] else [(n % 128 + 128) as Byte] + EncodeLength(n / 128)
  }

  lemma LowSeven(b: Byte)
    ensures (b & 0x7F) as nat == b as nat % 128 && (b & 0x80 == 0 <==> (b as nat) < 128)
  {
  }

  lemma Weighed(n: nat, weight: nat)
    ensures n % 128 * weight + n / 128 * (weight * 128) == n * weight
  {
    assert n == n / 128 * 128 + n % 128;
    Factor(n % 128, n / 128, weight);
  }

  lemma Factor(a: nat, b: nat, weight: nat)
    ensures a * weight + b * (weight * 128) == (b * 128 + a) * weight
  {
  }

  function Seven(b: Byte): nat {
    (b & 0x7F) as nat
  }

  predicate Last(b: Byte) {
    b & 0x80 == 0
  }

  lemma FirstLengthByte(n: nat)
    ensures var b := EncodeLength(n)[0]; Seven(b) == n % 128 && (Last(b) <==> n < 128)
  {
    if n < 128 {
      ByteHolds(n);
    } else {
      ByteHolds(n % 128 + 128);
    }
    LowSeven(EncodeLength(n)[0]);
  }

  lemma LengthStep(b: seq<Byte>, i: nat, weight: nat, tot: nat)
    requires i < |b|
    ensures LengthFrom(b, i, weight, tot)
            == if Last(b[i]) then tot + Seven(b[i]) * weight + i + 1
               else LengthFrom(b, i + 1, weight * 128, tot + Seven(b[i]) * weight)
  {
  }

  lemma LengthTail(n: nat)
    requires n >= 128
    ensures EncodeLength(n) == [EncodeLength(n)[0]] + EncodeLength(n / 128)
  {
  }

  /** The length bytes, wherever they stand, add what they encode. */
  lemma {:induction false} LengthDecoded(n: nat, front: seq<Byte>, rest: seq<Byte>, weight: nat, tot: nat)
    ensures LengthFrom(front + EncodeLength(n) + rest, |front|, weight, tot)
            == tot + n * weight + |front| + |EncodeLength(n)|
    decreases n
  {
    hide Seven, Last, LengthFrom;
    var e, i := EncodeLength(n), |front|;
    var b := front + e + rest;
    FirstLengthByte(n);
    assert b[i] == e[0];
    LengthStep(b, i, weight, tot);
    if n >= 128 {
      var f, t := front + [e[0]], tot + n % 128 * weight;
      LengthTail(n);
      hide EncodeLength;
      assert b == f + EncodeLength(n / 128) + rest;
      LengthDecoded(n / 128, f, rest, weight * 128, t);
      Weighed(n, weight);
    }
  }

  /** The total length of a packet is its type byte, its length bytes and what these encode. */
  lemma TotalLength(first: Byte, n: nat, rest: seq<Byte>)
    ensures LengthFrom([first] + EncodeLength(n) + rest, 1, 1, 0) == 1 + |EncodeLength(n)| + n
  {
    LengthDecoded(n, [first], rest, 1, 0);
  }

  lemma ThreeBytes()
    ensures 0xFC as bv8 & 0x7F == 0x7C && 0xFC as bv8 & 0x80 != 0 && 0xFF as bv8 & 0x7F == 0x7F
    ensures 0xFF as bv8 & 0x80 != 0
    ensures 0x03 as bv8 & 0x7F == 0x03 && 0x03 as bv8 & 0x80 == 0
  {
  }

  /** The client keeps the length in 16 bits: a publish packet that announces 65532 bytes behind its header has
      length zero, and a handler that is given it in the data state does not return. */
  lemma ZeroLength(c: Config, s: State, b: seq<Byte>, parse: nat -> Packet)
    requires |s.ring| <= c.cap && s.conn == MqttData && 4 <= |b| < MQTT_BUF_SIZE
    requires b[1] == 0xFC && b[2] == 0xFF && b[3] == 0x03
    requires parse(0).msgType == TYPE_PUBLISH && parse(0).totalLen == LengthFrom(b, 1, 1, 0) % 0x1_0000
    ensures parse(0).totalLen == 0 && Stuck(s, Receive(|b|, parse))
    ensures forall n: nat :: Passes(c, Reading(s, |b|, 0), parse, n).Reading?
  {
    ThreeBytes();
    assert LengthFrom(b, 3, 0x4000, 16380) == 65536;
    assert LengthFrom(b, 2, 0x80, 124) == 65536;
    assert LengthFrom(b, 1, 1, 0) == 65536;
    ReturnsExactly(c, s, |b|, 0, parse);
  }
}

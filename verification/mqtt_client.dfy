/** The MQTT client's events as atomic steps, and what holds over every run of them. */
module MqttClient {
  import opened MqttRingBuf
  import opened MqttProto
  import opened MqttQueue

  const MQTT_SEND_TIMOUT: nat := 5
  const MQTT_RECONNECT_TIMEOUT: nat := 5

  const TYPE_CONNECT: Byte := 1
  const TYPE_CONNACK: Byte := 2
  const TYPE_PUBLISH: Byte := 3
  const TYPE_PUBREC: Byte := 5
  const TYPE_PUBREL: Byte := 6
  const TYPE_PINGREQ: Byte := 12

  /** An outgoing message: the message builder's buffer holds MQTT_BUF_SIZE bytes. */
  type Msg = m: seq<Byte> | |m| <= MQTT_BUF_SIZE

  datatype Conn =
    | Idle | TcpReconnectReq | TcpReconnect | TcpConnecting | TcpDisconnecting | TcpDisconnected
    | MqttDeleting | MqttDeleted | MqttConnectSending | MqttData

  /** What the message parser reports about the packet at one offset of the received data, and the
      response the message builder makes for it. The length is one of 16 bits, and may be zero. */
  datatype Packet = Packet(msgType: Byte, qos: Byte, totalLen: nat, reply: Msg)

  datatype Event =
    | Publish(m: Msg)
    | Subscribe(m: Msg)
    | Ping(m: Msg)
    | Receive(len: nat, parse: nat -> Packet)
    | Task(stale: Byte)      // stale: what the buffer's first byte holds when an empty message is dequeued
    | Timer(sendOk: bool)
    | SentCallback
    | ConnectCallback
    | DisconnectCallback
    | ReconnectCallback
    | DnsFound(resolved: bool, first: bool)
    | Connect
    | Disconnect
    | Delete

  datatype State = State(
    conn: Conn,
    sendTimeout: nat,
    keepAliveTick: nat,
    reconnectTick: nat,
    pendingType: Byte,
    ring: seq<Byte>)

  /** One event: the next state, the messages queued by it and the messages sent by the task. */
  datatype Effect = Effect(next: State, queued: seq<Msg>, sent: seq<seq<Byte>>)

  datatype Config = Config(cap: nat, keepAlive: nat)

  // ---------------------------------------------------------------- steps

  function TypeOf(first: Byte): Byte {
    (first & 0xF0) >> 4
  }

  function Enqueue(c: Config, s: State, m: Msg): Effect
    requires |s.ring| <= c.cap
  {
    var r := Retry(s.ring, c.cap, m);
    Effect(s.(ring := r.ring), if r.ok then [m] else [], [])
  }

  /** A reply is offered once; the retry loop is not used for it. */
  function Reply(c: Config, s: State, m: Msg): Effect
    requires |s.ring| <= c.cap
  {
    Effect(s.(ring := Offer(s.ring, c.cap, m)), if |s.ring| + |Frame(m)| <= c.cap then [m] else [], [])
  }

  predicate Answered(p: Packet) {
    || (p.msgType == TYPE_PUBLISH && (p.qos == 1 || p.qos == 2))
    || p.msgType == TYPE_PUBREC || p.msgType == TYPE_PUBREL || p.msgType == TYPE_PINGREQ
  }

  function Then(a: Effect, b: Effect): Effect {
    Effect(b.next, a.queued + b.queued, a.sent + b.sent)
  }

  /** One pass of the receive handler, without the jump back to READPACKET. */
  function ReceiveOne(c: Config, s: State, len: nat, p: Packet): Effect
    requires |s.ring| <= c.cap
  {
    if 0 < len < MQTT_BUF_SIZE && s.conn == MqttConnectSending
       && p.msgType == TYPE_CONNACK && s.pendingType == TYPE_CONNECT then
      Effect(s.(conn := MqttData), [], [])
    else if 0 < len < MQTT_BUF_SIZE && s.conn == MqttData && Answered(p) then Reply(c, s, p.reply)
    else Effect(s, [], [])
  }

  /** Does the pass jump back for another packet? */
  predicate Again(conn: Conn, len: nat, p: Packet) {
    0 < len < MQTT_BUF_SIZE && conn == MqttData && p.msgType == TYPE_PUBLISH && p.totalLen < len
  }

  /** Going through the packets meets one whose length reads as zero, and jumps back to that same packet. */
  predicate Hangs(conn: Conn, len: nat, at: nat, parse: nat -> Packet)
    decreases len
  {
    && Again(conn, len, parse(at))
    && (parse(at).totalLen == 0 || Hangs(conn, len - parse(at).totalLen, at + parse(at).totalLen, parse))
  }

  /** All passes; where the handler hangs, those up to the packet it does not get past. */
  function ReceiveAll(c: Config, s: State, len: nat, at: nat, parse: nat -> Packet): Effect
    requires |s.ring| <= c.cap
    decreases len
  {
    var one := ReceiveOne(c, s, len, parse(at));
    if Again(s.conn, len, parse(at)) && parse(at).totalLen > 0 then
      var n := parse(at).totalLen;
      Then(one, ReceiveAll(c, one.next, len - n, at + n, parse))
    else one
  }

  function Tick(c: Config, s: State, sendOk: bool): State {
    var t :=
      if s.conn == MqttData then
        var tick := (s.keepAliveTick + 1) % 0x1_0000_0000;
        if tick > c.keepAlive then
          var p := s.(pendingType := TYPE_PINGREQ, sendTimeout := MQTT_SEND_TIMOUT, keepAliveTick := tick);
          if sendOk then p.(keepAliveTick := 0) else p.(conn := TcpReconnectReq)
        else s.(keepAliveTick := tick)
      else if s.conn == TcpReconnectReq then
        if s.reconnectTick + 1 > MQTT_RECONNECT_TIMEOUT then s.(reconnectTick := 0, conn := TcpReconnect)
        else s.(reconnectTick := s.reconnectTick + 1)
      else s;
    if t.sendTimeout > 0 then t.(sendTimeout := t.sendTimeout - 1) else t
  }

  function Connecting(s: State): State {
    s.(keepAliveTick := 0, reconnectTick := 0, conn := TcpConnecting)
  }

  function RunTask(s: State, stale: Byte): Effect {
    match s.conn
    case TcpReconnect => Effect(Connecting(s), [], [])
    case MqttData =>
      if s.ring == [] || s.sendTimeout != 0 then Effect(s, [], [])
      else (
        match Take(s.ring, MQTT_BUF_SIZE)
        case Nothing => Effect(s.(ring := []), [], [])
        case Got(m, rest) =>
          Effect(s.(ring := rest, sendTimeout := MQTT_SEND_TIMOUT,
                    pendingType := TypeOf(if m == [] then stale else m[0])), [], [m])
      )
    case _ => Effect(s, [], [])
  }

  function Step(c: Config, s: State, e: Event): Effect
    requires |s.ring| <= c.cap
  {
    match e
    case Publish(m) => if m == [] then Effect(s, [], []) else Enqueue(c, s, m)
    case Subscribe(m) => Enqueue(c, s, m)
    case Ping(m) => if m == [] then Effect(s, [], []) else Enqueue(c, s, m)
    case Receive(len, parse) => ReceiveAll(c, s, len, 0, parse)
    case Task(stale) => RunTask(s, stale)
    case Timer(sendOk) => Effect(Tick(c, s, sendOk), [], [])
    case SentCallback => Effect(s.(sendTimeout := 0), [], [])
    case ConnectCallback =>
      Effect(s.(pendingType := TYPE_CONNECT, sendTimeout := MQTT_SEND_TIMOUT, conn := MqttConnectSending), [], [])
    case DisconnectCallback =>
      Effect(s.(conn := match s.conn
                        case TcpDisconnecting => TcpDisconnected
                        case MqttDeleting => MqttDeleted
                        case _ => TcpReconnectReq), [], [])
    case ReconnectCallback => Effect(s.(conn := TcpReconnectReq), [], [])
    case DnsFound(resolved, first) =>
      Effect(if !resolved then s.(conn := TcpReconnectReq)
             else if first then s.(conn := TcpConnecting) else s, [], [])
    case Connect => Effect(Connecting(s), [], [])
    case Disconnect => Effect(s.(conn := TcpDisconnecting), [], [])
    case Delete => Effect(s.(conn := MqttDeleting), [], [])
  }

  /** What every step keeps. */
  ghost predicate Inv(c: Config, s: State) {
    |s.ring| <= c.cap && Framed(s.ring)
  }

  // ---------------------------------------------------------------- one step

  function Queue(s: State): seq<seq<Byte>> {
    Messages(s.ring, MQTT_BUF_SIZE)
  }

  /** How a message leaves the queue. */
  datatype Out = Sent(m: seq<Byte>) | Lost(m: seq<Byte>)

  function Lose(ms: seq<seq<Byte>>): (outs: seq<Out>)
    ensures |outs| == |ms|
  {
    seq(|ms|, i requires 0 <= i < |ms| => Lost(ms[i]))
  }

  /** Everything that left, in order. */
  function All(outs: seq<Out>): (ms: seq<seq<Byte>>)
    ensures |ms| == |outs|
  {
    seq(|outs|, i requires 0 <= i < |outs| => outs[i].m)
  }

  function SentOnly(outs: seq<Out>): seq<seq<Byte>> {
    if outs == [] then [] else (if outs[0].Sent? then [outs[0].m] else []) + SentOnly(outs[1..])
  }

  /** How many of the oldest messages have to go before m is in the queue: none when its frame fits; those up to
      the first whose slot it fits into; or all of them, in vain. */
  function Dropped(c: Config, s: State, m: Msg): nat
    requires |s.ring| <= c.cap
  {
    var i := FirstFit(Slots(s.ring), |Frame(m)|);
    if |s.ring| + |Frame(m)| <= c.cap then 0 else if i < |Slots(s.ring)| then i + 1 else i
  }

  /** Is there room for m, or can one message make it? */
  predicate Admitted(c: Config, s: State, m: Msg) {
    |s.ring| + |Frame(m)| <= c.cap || exists i :: 0 <= i < |Slots(s.ring)| && |Frame(m)| <= Slots(s.ring)[i]
  }

  /** The message that an event of the application offers to the queue; empty ones are refused, but for a
      subscription. */
  predicate Puts(e: Event) {
    match e
    case Publish(m) => m != []
    case Subscribe(m) => true
    case Ping(m) => m != []
    case _ => false
  }

  function Offered(e: Event): Msg
    requires Puts(e)
  {
    e.m
  }

  /** What leaves the queue in a step: the oldest messages when a put needs their room, or the oldest one when the
      task runs with a connection and no send is awaited. Nothing leaves otherwise. */
  function Leaves(c: Config, s: State, e: Event): seq<Out>
    requires |s.ring| <= c.cap
  {
    if Puts(e) then var d := Dropped(c, s, Offered(e)); if d <= |Queue(s)| then Lose(Queue(s)[..d]) else []
    else if e.Task? && s.conn == MqttData && s.sendTimeout == 0 && Queue(s) != [] then [Sent(Queue(s)[0])]
    else []
  }

  /** The queue is first in, first out: what was in it and what is put into it is what leaves it and what stays. */
  ghost predicate Moves(c: Config, s: State, e: Event, r: Effect)
    requires |s.ring| <= c.cap
  {
    && All(Leaves(c, s, e)) + Queue(r.next) == Queue(s) + r.queued
    && r.sent == SentOnly(Leaves(c, s, e))
    && (!e.Receive? ==> r.queued == if Puts(e) && Admitted(c, s, Offered(e)) then [Offered(e)] else [])
  }

  lemma LostOnly(ms: seq<seq<Byte>>)
    ensures All(Lose(ms)) == ms && SentOnly(Lose(ms)) == []
  {
    assert forall i :: 0 <= i < |ms| ==> Lose(ms)[i].m == ms[i];
    NoneSent(Lose(ms));
  }

  lemma {:induction false} NoneSent(outs: seq<Out>)
    requires forall o <- outs :: o.Lost?
    ensures SentOnly(outs) == []
    decreases |outs|
  {
    if outs != [] {
      assert outs[0] in outs;
      NoneSent(outs[1..]);
    }
  }

  lemma {:induction false} AllSent(outs: seq<Out>)
    requires forall o <- outs :: o.Sent?
    ensures SentOnly(outs) == All(outs)
    decreases |outs|
  {
    if outs != [] {
      assert outs[0] in outs;
      AllSent(outs[1..]);
      assert All(outs) == [outs[0].m] + All(outs[1..]);
    }
  }

  lemma {:induction false} OutsConcat(a: seq<Out>, b: seq<Out>)
    ensures All(a + b) == All(a) + All(b) && SentOnly(a + b) == SentOnly(a) + SentOnly(b)
    decreases |a|
  {
    if a == [] {
      assert a + b == b;
    } else {
      assert (a + b)[1..] == a[1..] + b;
      OutsConcat(a[1..], b);
    }
  }

  lemma ReplyMoves(c: Config, s: State, m: Msg)
    requires Inv(c, s)
    ensures var r := Reply(c, s, m);
            Inv(c, r.next) && r.sent == [] && Queue(r.next) == Queue(s) + r.queued
  {
    hide Frame, Framed, Messages;
    var k := Min(|Frame(m)|, c.cap - |s.ring|);
    PutKeepsFramed(s.ring, m, k);
    MessagesAfterPut(s.ring, m, k, MQTT_BUF_SIZE);
    assert Truncate(m, MQTT_BUF_SIZE) == m;
    assert Queue(s) + [] == Queue(s);
  }

  lemma {:induction false} RetryKeepsFramed(q: seq<Byte>, cap: nat, m: seq<Byte>)
    requires |q| <= cap && Framed(q)
    ensures Framed(Retry(q, cap, m).ring) && |Retry(q, cap, m).ring| <= cap
    decreases Ends(q)
  {
    PutKeepsFramed(q, m, Min(|Frame(m)|, cap - |q|));
    if |q| + |Frame(m)| > cap && Take(Offer(q, cap, m), MQTT_BUF_SIZE).Got? {
      TakeKeepsFramed(Offer(q, cap, m), MQTT_BUF_SIZE);
      RetryProgress(q, cap, m);
      RetryKeepsFramed(Take(Offer(q, cap, m), MQTT_BUF_SIZE).rest, cap, m);
    }
  }

  lemma EnqueueMoves(c: Config, s: State, m: Msg)
    requires Inv(c, s)
    ensures var r := Enqueue(c, s, m);
            && Inv(c, r.next) && r.sent == [] && Dropped(c, s, m) <= |Queue(s)|
            && Queue(s)[..Dropped(c, s, m)] + Queue(r.next) == Queue(s) + r.queued
            && r.queued == if Admitted(c, s, m) then [m] else []
  {
    hide Frame, Framed, Slots, Retry, FirstFit, Messages;
    RetryKeepsFramed(s.ring, c.cap, m);
    RetryExact(s.ring, c.cap, m);
    FitsSome(Slots(s.ring), |Frame(m)|);
    OneSlotPerMessage(s.ring, MQTT_BUF_SIZE);
    var all, r, d := Queue(s), Enqueue(c, s, m), Dropped(c, s, m);
    assert Truncate(m, MQTT_BUF_SIZE) == m;
    if r.queued == [m] {
      assert d == Discarded(s.ring, c.cap, m);
      assert all[..d] + (all[d..] + [m]) == all + [m];
    } else {
      NothingQueued(r.next);
      NoFit(Slots(s.ring), |Frame(m)|);
      assert all[..d] + [] == all == all + [];
    }
  }

  lemma NoFit(slots: seq<nat>, need: nat)
    requires FirstFit(slots, need) >= |slots|
    ensures FirstFit(slots, need) == |slots|
  {
  }

  lemma ReceiveOneMoves(c: Config, s: State, len: nat, p: Packet)
    requires Inv(c, s)
    ensures var r := ReceiveOne(c, s, len, p);
            Inv(c, r.next) && r.sent == [] && Queue(r.next) == Queue(s) + r.queued
            && r.next.sendTimeout == s.sendTimeout
  {
    ReplyMoves(c, s, p.reply);
    assert Queue(s) + [] == Queue(s);
  }


  lemma Chain<T>(a: seq<T>, b: seq<T>, c: seq<T>)
    ensures (a + b) + c == a + (b + c)
  {
  }

  lemma {:induction false} ReceiveMoves(c: Config, s: State, len: nat, at: nat, parse: nat -> Packet)
    requires Inv(c, s)
    ensures var r := ReceiveAll(c, s, len, at, parse);
            Inv(c, r.next) && r.sent == [] && Queue(r.next) == Queue(s) + r.queued
            && r.next.sendTimeout == s.sendTimeout
    decreases len
  {
    var p := parse(at);
    var one := ReceiveOne(c, s, len, p);
    ReceiveOneMoves(c, s, len, p);
    if Again(s.conn, len, p) && p.totalLen > 0 {
      ReceiveMoves(c, one.next, len - p.totalLen, at + p.totalLen, parse);
      var more := ReceiveAll(c, one.next, len - p.totalLen, at + p.totalLen, parse);
      Chain(Queue(s), one.queued, more.queued);
    }
  }

  /** With a connection and no send awaited, the task sends exactly the oldest message, whatever it is, and starts
      the wait; in every other state it sends nothing and leaves the queue as it is. */
  lemma TaskSends(c: Config, s: State, stale: Byte)
    requires Inv(c, s)
    ensures var r := Step(c, s, Task(stale));
            && Inv(c, r.next) && r.queued == []
            && if s.conn == MqttData && s.sendTimeout == 0 && Queue(s) != [] then
                 && r.sent == [Queue(s)[0]] && Queue(r.next) == Queue(s)[1..]
                 && r.next.sendTimeout == 5 && r.next.conn == MqttData
               else
                 r.sent == [] && Queue(r.next) == Queue(s) && r.next.sendTimeout == s.sendTimeout
  {
    if Take(s.ring, MQTT_BUF_SIZE).Got? {
      TakeKeepsFramed(s.ring, MQTT_BUF_SIZE);
    }
    ScanIs(FRESH, s.ring, MQTT_BUF_SIZE);
  }

  /** Every event keeps the ring well formed and the queue first in, first out. */
  lemma StepMoves(c: Config, s: State, e: Event)
    requires Inv(c, s)
    ensures var r := Step(c, s, e); Inv(c, r.next) && Moves(c, s, e, r)
  {
    hide Framed, Frame, Messages, Retry, Dropped, Admitted, Tick;
    var r, q := Step(c, s, e), Queue(s);
    if Puts(e) {
      EnqueueMoves(c, s, Offered(e));
      LostOnly(q[..Dropped(c, s, Offered(e))]);
    } else if e.Task? {
      TaskSends(c, s, e.stale);
      if Leaves(c, s, e) != [] {
        OneSent(q[0]);
        assert [q[0]] + q[1..] == q == q + [];
      }
    } else if e.Receive? {
      ReceiveMoves(c, s, e.len, 0, e.parse);
    } else {
      TickKeepsRing(c, s);
    }
    NoOuts();
    assert [] + Queue(r.next) == Queue(r.next) && q + [] == q;
  }

  lemma TickKeepsRing(c: Config, s: State)
    ensures forall ok :: Tick(c, s, ok).ring == s.ring
  {
  }

  lemma NoOuts()
    ensures All([]) == [] && SentOnly([]) == []
  {
  }

  lemma OneSent(m: seq<Byte>)
    ensures All([Sent(m)]) == [m] && SentOnly([Sent(m)]) == [m]
  {
  }

  // ---------------------------------------------------------------- whole runs

  /** An event that never comes to an end. */
  predicate Stuck(s: State, e: Event) {
    e.Receive? && Hangs(s.conn, e.len, 0, e.parse)
  }

  /** A run; nothing comes after an event that is stuck. */
  function Run(c: Config, s: State, es: seq<Event>): Effect
    requires Inv(c, s)
    decreases |es|
  {
    if es == [] then Effect(s, [], [])
    else
      var one := Step(c, s, es[0]);
      StepMoves(c, s, es[0]);
      if Stuck(s, es[0]) then one else Then(one, Run(c, one.next, es[1..]))
  }

  /** What leaves the queue in a run. */
  function RunLeaves(c: Config, s: State, es: seq<Event>): seq<Out>
    requires Inv(c, s)
    decreases |es|
  {
    if es == [] then []
    else
      StepMoves(c, s, es[0]);
      Leaves(c, s, es[0]) + if Stuck(s, es[0]) then [] else RunLeaves(c, Step(c, s, es[0]).next, es[1..])
  }

  /** a leaves and b stays of q and x; c leaves and d stays of b and y. */
  lemma Pass<T>(q: seq<T>, x: seq<T>, a: seq<T>, b: seq<T>, y: seq<T>, c: seq<T>, d: seq<T>)
    requires a + b == q + x && c + d == b + y
    ensures (a + c) + d == q + (x + y)
  {
    assert (a + c) + d == a + (c + d) == (a + b) + y == q + (x + y);
  }

  lemma {:induction false} RunInOrder(c: Config, s: State, es: seq<Event>)
    requires Inv(c, s)
    ensures var r, out := Run(c, s, es), RunLeaves(c, s, es);
            && Inv(c, r.next) && All(out) + Queue(r.next) == Queue(s) + r.queued && r.sent == SentOnly(out)
    decreases |es|
  {
    hide Step, Leaves, Messages, Hangs, All, SentOnly, Framed;
    NoOuts();
    if es == [] {
      assert Queue(s) + [] == Queue(s) == [] + Queue(s);
    } else {
      var one, out := Step(c, s, es[0]), Leaves(c, s, es[0]);
      StepMoves(c, s, es[0]);
      if Stuck(s, es[0]) {
        assert out + [] == out;
      } else {
        RunInOrder(c, one.next, es[1..]);
        var more, rest := Run(c, one.next, es[1..]), RunLeaves(c, one.next, es[1..]);
        OutsConcat(out, rest);
        Pass(Queue(s), one.queued, All(out), Queue(one.next), more.queued, All(rest), Queue(more.next));
      }
    }
  }

  lemma NothingQueued(s: State)
    requires s.ring == []
    ensures Queue(s) == []
  {
  }

  /** Over every interleaving of events from an empty queue: everything that was queued was sent, was discarded by a
      put that needed the room, or is still queued, each message once and all in the order of the puts; and what was
      sent is exactly what left and was not discarded. */
  lemma SentInOrder(c: Config, s: State, es: seq<Event>)
    requires s.ring == []
    ensures Inv(c, s)
    ensures var r, out := Run(c, s, es), RunLeaves(c, s, es);
            && All(out) + Queue(r.next) == r.queued && r.sent == SentOnly(out)
            && ((forall o <- out :: o.Sent?) ==> r.sent + Queue(r.next) == r.queued)
  {
    hide Step, Messages, Hangs, Leaves, All, SentOnly;
    NothingQueued(s);
    RunInOrder(c, s, es);
    var r, out := Run(c, s, es), RunLeaves(c, s, es);
    assert [] + r.queued == r.queued;
    if forall o <- out :: o.Sent? {
      AllSent(out);
    }
  }

  /** So many times the task and then the callback that the send is done. */
  function Rounds(n: nat, stale: Byte): (es: seq<Event>)
    ensures |es| == 2 * n
  {
    if n == 0 then [] else [Task(stale), SentCallback] + Rounds(n - 1, stale)
  }

  lemma RunTwo(c: Config, s: State, a: Event, b: Event, es: seq<Event>)
    requires Inv(c, s) && !a.Receive? && !b.Receive?
    ensures var t := Step(c, s, a);
            Inv(c, t.next) && var u := Step(c, t.next, b);
            && Inv(c, u.next) && Run(c, s, [a, b] + es) == Then(t, Then(u, Run(c, u.next, es)))
  {
    hide Step, Framed;
    var t := Step(c, s, a);
    StepMoves(c, s, a);
    StepMoves(c, t.next, b);
    assert ([a, b] + es)[1..] == [b] + es && ([b] + es)[1..] == es;
  }

  lemma CallbackKeeps(c: Config, s: State)
    requires Inv(c, s)
    ensures Step(c, s, SentCallback) == Effect(s.(sendTimeout := 0), [], [])
  {
  }

  /** A connected client sends one queued message with every round, in order, and so all of them. */
  lemma {:induction false} QueueIsSent(c: Config, s: State, n: nat, stale: Byte)
    requires Inv(c, s) && s.conn == MqttData && s.sendTimeout == 0 && n <= |Queue(s)|
    ensures var r := Run(c, s, Rounds(n, stale));
            r.sent == Queue(s)[..n] && Queue(r.next) == Queue(s)[n..] && r.queued == []
    decreases n
  {
    hide Framed, Messages, Step;
    var q := Queue(s);
    if n > 0 {
      var rest := Rounds(n - 1, stale);
      TaskSends(c, s, stale);
      var t := Step(c, s, Task(stale));
      CallbackKeeps(c, t.next);
      RunTwo(c, s, Task(stale), SentCallback, rest);
      hide Run, Rounds;
      var u := Step(c, t.next, SentCallback).next;
      QueueIsSent(c, u, n - 1, stale);
      assert q[..n] == [q[0]] + q[1..][..n - 1] && q[n..] == q[1..][n - 1..];
      RoundsStep(n, stale);
    }
  }

  lemma RoundsStep(n: nat, stale: Byte)
    requires n > 0
    ensures Rounds(n, stale) == [Task(stale), SentCallback] + Rounds(n - 1, stale)
  {
  }

  function Ticks(es: seq<Event>): nat {
    if es == [] then 0 else (if es[0].Timer? then 1 else 0) + Ticks(es[1..])
  }

  lemma StepTimeout(c: Config, s: State, e: Event)
    requires Inv(c, s) && !e.SentCallback? && 0 < s.sendTimeout <= MQTT_SEND_TIMOUT
    ensures var r := Step(c, s, e);
            r.sent == [] && r.next.sendTimeout >= s.sendTimeout - (if e.Timer? then 1 else 0)
  {
    if e.Receive? {
      ReceiveMoves(c, s, e.len, 0, e.parse);
    }
  }

  lemma {:induction false} QuietWhileWaiting(c: Config, s: State, es: seq<Event>)
    requires Inv(c, s) && s.sendTimeout <= MQTT_SEND_TIMOUT
    requires Ticks(es) < s.sendTimeout && forall e <- es :: !e.SentCallback?
    ensures Run(c, s, es).sent == []
    decreases |es|
  {
    hide Step, Framed, Hangs;
    if es != [] {
      StepMoves(c, s, es[0]);
      StepTimeout(c, s, es[0]);
      var next := Step(c, s, es[0]).next;
      TimeoutBound(c, s, es[0]);
      QuietWhileWaiting(c, next, es[1..]);
    }
  }

  lemma TimeoutBound(c: Config, s: State, e: Event)
    requires Inv(c, s) && s.sendTimeout <= MQTT_SEND_TIMOUT
    ensures Step(c, s, e).next.sendTimeout <= MQTT_SEND_TIMOUT
  {
    if e.Receive? {
      ReceiveMoves(c, s, e.len, 0, e.parse);
    }
  }

  /** When the task has sent a message, it sends no other before a sent callback has come or the
      timer has ticked MQTT_SEND_TIMOUT times. */
  lemma SendsAreSpaced(c: Config, s: State, e: Event, es: seq<Event>)
    requires Inv(c, s) && Step(c, s, e).sent != []
    ensures Inv(c, Step(c, s, e).next)
    ensures Run(c, Step(c, s, e).next, es).sent != [] ==>
              (exists f <- es :: f.SentCallback?) || Ticks(es) >= MQTT_SEND_TIMOUT
  {
    StepMoves(c, s, e);
    var t := Step(c, s, e).next;
    if e.Receive? {
      ReceiveMoves(c, s, e.len, 0, e.parse);
    }
    assert t.sendTimeout == MQTT_SEND_TIMOUT;
    if (forall f <- es :: !f.SentCallback?) && Ticks(es) < MQTT_SEND_TIMOUT {
      QuietWhileWaiting(c, t, es);
    }
  }

  // ---------------------------------------------------------------- what the packets and the ticks mean

  /** A packet is answered exactly when there is a session, its type is 3 with quality of service 1 or 2, 5, 6 or 12
      (sections 3.3 to 3.12 of MQTT 3.1.1), and the frame of the answer fits. */
  lemma AnsweredExactly(c: Config, s: State, len: nat, p: Packet)
    requires Inv(c, s)
    ensures var r := ReceiveOne(c, s, len, p);
            && (r.queued == [] || r.queued == [p.reply])
            && (r.queued == [p.reply] <==>
                  && 0 < len < 1024 && s.conn == MqttData && |s.ring| + |Frame(p.reply)| <= c.cap
                  && ((p.msgType == 3 && 1 <= p.qos <= 2) || p.msgType == 5 || p.msgType == 6 || p.msgType == 12))
            && Queue(r.next) == Queue(s) + r.queued
  {
    ReceiveOneMoves(c, s, len, p);
  }

  /** A session opens with the first packet after the connection that is of type 2, and by no other. */
  lemma {:induction false} SessionOpens(c: Config, s: State, es: seq<Event>)
    requires Inv(c, s) && s.conn == MqttConnectSending && s.pendingType == 1
    requires forall e <- es :: e.Receive? && 0 < e.len < 1024
    ensures var conn := Run(c, s, es).next.conn;
            if exists e <- es :: e.parse(0).msgType == 2 then conn == MqttData else conn == MqttConnectSending
    decreases |es|
  {
    if es != [] {
      var e := es[0];
      assert e in es && forall f <- es[1..] :: f in es;
      StepMoves(c, s, e);
      var next := Step(c, s, e).next;
      if e.parse(0).msgType == 2 {
        StaysOpen(c, next, es[1..]);
      } else {
        assert next == s;
        SessionOpens(c, s, es[1..]);
        assert forall f <- es :: f == e || f in es[1..];
      }
    }
  }

  /** Received data does not close a session. */
  lemma {:induction false} StaysOpen(c: Config, s: State, es: seq<Event>)
    requires Inv(c, s) && s.conn == MqttData && forall e <- es :: e.Receive?
    ensures Run(c, s, es).next.conn == MqttData
    decreases |es|
  {
    if es != [] {
      assert es[0] in es && forall f <- es[1..] :: f in es;
      StepMoves(c, s, es[0]);
      ReceiveKeepsConn(c, s, es[0].len, 0, es[0].parse);
      StaysOpen(c, Step(c, s, es[0]).next, es[1..]);
    }
  }

  lemma {:induction false} ReceiveKeepsConn(c: Config, s: State, len: nat, at: nat, parse: nat -> Packet)
    requires Inv(c, s) && s.conn == MqttData
    ensures ReceiveAll(c, s, len, at, parse).next.conn == MqttData
    decreases len
  {
    var p := parse(at);
    ReceiveOneMoves(c, s, len, p);
    if Again(s.conn, len, p) && p.totalLen > 0 {
      ReceiveKeepsConn(c, ReceiveOne(c, s, len, p).next, len - p.totalLen, at + p.totalLen, parse);
    }
  }

  function Timers(n: nat, ok: bool): (es: seq<Event>)
    ensures |es| == n
  {
    seq(n, i => Timer(ok))
  }

  /** In a session that nothing else happens in, no ping goes out in the first keepAlive ticks, and one does, or its
      failure closes the session, in the next. */
  lemma {:induction false} PingIsDue(c: Config, s: State, n: nat, ok: bool)
    requires Inv(c, s) && s.conn == MqttData && s.keepAliveTick + n == c.keepAlive < 0xFFFF_FFFF
    ensures forall k: nat :: k <= n ==>
              var t := Run(c, s, Timers(k, ok)).next;
              t.conn == MqttData && t.pendingType == s.pendingType && t.keepAliveTick == s.keepAliveTick + k
    ensures var t := Run(c, s, Timers(n + 1, ok)).next;
            t.pendingType == 12 && if ok then t.conn == MqttData && t.keepAliveTick == 0 else t.conn == TcpReconnectReq
    decreases n
  {
    StepMoves(c, s, Timer(ok));
    var u := Step(c, s, Timer(ok)).next;
    forall k: nat | 0 < k <= n + 1 ensures Run(c, s, Timers(k, ok)).next == Run(c, u, Timers(k - 1, ok)).next {
      assert Timers(k, ok)[1..] == Timers(k - 1, ok);
    }
    assert Timers(0, ok) == [];
    if n > 0 {
      PingIsDue(c, u, n - 1, ok);
      forall k: nat | k <= n
        ensures var t := Run(c, s, Timers(k, ok)).next;
                t.conn == MqttData && t.pendingType == s.pendingType && t.keepAliveTick == s.keepAliveTick + k
      {
        if k > 0 {
          assert Run(c, s, Timers(k, ok)).next == Run(c, u, Timers(k - 1, ok)).next;
        }
      }
    }
  }

  /** A connection that is to be made again is asked for in the sixth tick, and not before. */
  lemma {:induction false} ReconnectIsDue(c: Config, s: State, n: nat, ok: bool)
    requires Inv(c, s) && s.conn == TcpReconnectReq && s.reconnectTick + n == 5
    ensures forall k: nat :: k <= n ==> Run(c, s, Timers(k, ok)).next.conn == TcpReconnectReq
    ensures Run(c, s, Timers(n + 1, ok)).next.conn == TcpReconnect
    decreases n
  {
    StepMoves(c, s, Timer(ok));
    var u := Step(c, s, Timer(ok)).next;
    forall k: nat | 0 < k <= n + 1 ensures Run(c, s, Timers(k, ok)).next == Run(c, u, Timers(k - 1, ok)).next {
      assert Timers(k, ok)[1..] == Timers(k - 1, ok);
    }
    assert Timers(0, ok) == [];
    if n > 0 {
      ReconnectIsDue(c, u, n - 1, ok);
      forall k: nat | k <= n ensures Run(c, s, Timers(k, ok)).next.conn == TcpReconnectReq {
        if k > 0 {
          assert Run(c, s, Timers(k, ok)).next == Run(c, u, Timers(k - 1, ok)).next;
        }
      }
    }
  }

  lemma {:induction false} RunConcat(c: Config, s: State, a: seq<Event>, b: seq<Event>)
    requires Inv(c, s) && forall e <- a :: !e.Receive?
    ensures var r := Run(c, s, a); Inv(c, r.next) && Run(c, s, a + b) == Then(r, Run(c, r.next, b))
    decreases |a|
  {
    hide Step, Framed;
    if a == [] {
      assert a + b == b;
      var r := Run(c, s, b);
      assert [] + r.queued == r.queued && [] + r.sent == r.sent;
    } else {
      assert (a + b)[1..] == a[1..] + b && a[0] in a && forall e <- a[1..] :: e in a;
      StepMoves(c, s, a[0]);
      var t := Step(c, s, a[0]);
      RunConcat(c, t.next, a[1..], b);
      var r, q := Run(c, t.next, a[1..]), Run(c, Run(c, t.next, a[1..]).next, b);
      Chain(t.queued, r.queued, q.queued);
      Chain(t.sent, r.sent, q.sent);
    }
  }

  /** Ticks leave the queue alone. */
  lemma {:induction false} TicksKeep(c: Config, s: State, n: nat, ok: bool)
    requires Inv(c, s)
    ensures var r := Run(c, s, Timers(n, ok));
            Inv(c, r.next) && r.next.ring == s.ring && r.queued == [] && r.sent == []
    decreases n
  {
    hide Framed, Tick;
    if n > 0 {
      StepMoves(c, s, Timer(ok));
      TickKeepsRing(c, s);
      assert Timers(n, ok)[1..] == Timers(n - 1, ok);
      TicksKeep(c, Step(c, s, Timer(ok)).next, n - 1, ok);
    }
  }

  /** A session whose connection is lost is made again: six ticks, a task, the connection, and the packet of type 2
      that answers it. What was queued is still queued. */
  lemma SessionIsRemade(c: Config, s: State, ok: bool, stale: Byte, len: nat, parse: nat -> Packet)
    requires Inv(c, s) && s.conn == MqttData && s.reconnectTick == 0
    requires 0 < len < 1024 && parse(0).msgType == 2
    ensures var lost, last := [DisconnectCallback], [Task(stale), ConnectCallback, Receive(len, parse)];
            var r := Run(c, s, lost + Timers(6, ok) + last);
            r.next.conn == MqttData && Queue(r.next) == Queue(s) && r.queued == [] && r.sent == []
  {
    hide Framed, Messages, Tick, Inv;
    var lost, last := [DisconnectCallback], [Task(stale), ConnectCallback, Receive(len, parse)];
    StepMoves(c, s, DisconnectCallback);
    RunOne(c, s, DisconnectCallback);
    var t := Run(c, s, lost).next;
    assert t == s.(conn := TcpReconnectReq);
    TicksKeep(c, t, 6, ok);
    ReconnectIsDue(c, t, 5, ok);
    var u := Run(c, t, Timers(6, ok)).next;
    RunConcat(c, t, Timers(6, ok), last);
    RunConcat(c, s, lost, Timers(6, ok) + last);
    assert lost + Timers(6, ok) + last == lost + (Timers(6, ok) + last);
    SessionOpened(c, u, stale, len, parse);
  }

  lemma RunOne(c: Config, s: State, e: Event)
    requires Inv(c, s)
    ensures Run(c, s, [e]) == Step(c, s, e)
  {
    hide Step;
    StepMoves(c, s, e);
    var r := Step(c, s, e);
    assert [e][1..] == [] && r.queued + [] == r.queued && r.sent + [] == r.sent;
  }

  lemma SessionOpened(c: Config, s: State, stale: Byte, len: nat, parse: nat -> Packet)
    requires Inv(c, s) && s.conn == TcpReconnect && 0 < len < 1024 && parse(0).msgType == 2
    ensures var r := Run(c, s, [Task(stale), ConnectCallback, Receive(len, parse)]);
            r.next.conn == MqttData && r.next.ring == s.ring && r.queued == [] && r.sent == []
  {
    hide Framed;
    var e := Receive(len, parse);
    RunTwo(c, s, Task(stale), ConnectCallback, [e]);
    assert [Task(stale), ConnectCallback] + [e] == [Task(stale), ConnectCallback, e];
    var u := Step(c, Step(c, s, Task(stale)).next, ConnectCallback).next;
    RunOne(c, u, e);
  }

  /** A client that asked for it is disconnected or deleted by the callback, and in any other state, but in these two,
      the callback asks for a new connection. */
  lemma Endings(c: Config, s: State)
    requires Inv(c, s)
    ensures Run(c, s, [Disconnect, DisconnectCallback]).next == s.(conn := TcpDisconnected)
    ensures Run(c, s, [Delete, DisconnectCallback]).next == s.(conn := MqttDeleted)
    ensures s.conn != TcpDisconnecting && s.conn != MqttDeleting ==>
              Run(c, s, [DisconnectCallback]).next == s.(conn := TcpReconnectReq)
  {
    hide Framed, Run, Inv;
    EndsIn(c, s, Disconnect);
    EndsIn(c, s, Delete);
    RunOne(c, s, DisconnectCallback);
  }

  lemma EndsIn(c: Config, s: State, e: Event)
    requires Inv(c, s) && (e == Disconnect || e == Delete)
    ensures Run(c, s, [e, DisconnectCallback]).next
            == s.(conn := if e == Disconnect then TcpDisconnected else MqttDeleted)
  {
    hide Framed, Inv;
    RunTwo(c, s, e, DisconnectCallback, []);
    assert [e, DisconnectCallback] + [] == [e, DisconnectCallback];
  }

  // ---------------------------------------------------------------- the client itself

  class Client {
    var connState: Conn
    var sendTimeout: nat
    var keepAliveTick: nat
    var reconnectTick: nat
    var pendingMsgType: Byte
    var msgQueue: Queue
    const keepAlive: nat
    ghost var queued: seq<Msg>         // messages whose put succeeded
    ghost var sent: seq<seq<Byte>>     // payloads handed to the connection by the task

    ghost predicate Valid()
      reads this, msgQueue, msgQueue.rb, msgQueue.rb.buf
    {
      msgQueue.Valid()
    }

    ghost function Setup(): Config
      requires Valid()
      reads this, msgQueue, msgQueue.rb, msgQueue.rb.buf
    {
      Config(msgQueue.rb.Capacity(), keepAlive)
    }

    ghost function View(): State
      reads this, msgQueue, msgQueue.rb
    {
      State(connState, sendTimeout, keepAliveTick, reconnectTick, pendingMsgType, msgQueue.rb.contents)
    }

    /** The objects of the client, and the configuration, as before; everything else as e says. */
    twostate predicate Did(e: Effect)
      reads this, msgQueue, msgQueue.rb, msgQueue.rb.buf
    {
      && Valid() && msgQueue == old(msgQueue) && msgQueue.rb == old(msgQueue.rb)
      && msgQueue.rb.buf == old(msgQueue.rb.buf)
      && View() == e.next && queued == old(queued) + e.queued && sent == old(sent) + e.sent
    }

    constructor (keepAlive: nat)
      ensures Valid() && View() == State(Idle, 0, 0, 0, 0, []) && queued == [] && sent == []
      ensures Setup() == Config(2048, keepAlive)
    {
      connState := Idle;
      sendTimeout, keepAliveTick, reconnectTick := 0, 0, 0;
      pendingMsgType := 0;
      msgQueue := new Queue(2048);
      this.keepAlive := keepAlive;
      queued, sent := [], [];
    }

    method MqttPublish(m: Msg) returns (ok: bool)
      requires Valid()
      modifies this, msgQueue.rb, msgQueue.rb.buf
      ensures Did(Step(old(Setup()), old(View()), Publish(m)))
      ensures ok <==> Step(old(Setup()), old(View()), Publish(m)).queued == [m]
    {
      if |m| == 0 {
        return false;
      }
      ok := PutRetry(msgQueue, m);
      if ok { queued := queued + [m]; }
    }

    method MqttSubscribe(m: Msg) returns (ok: bool)
      requires Valid()
      modifies this, msgQueue.rb, msgQueue.rb.buf
      ensures Did(Step(old(Setup()), old(View()), Subscribe(m)))
      ensures ok <==> Step(old(Setup()), old(View()), Subscribe(m)).queued == [m]
    {
      ok := PutRetry(msgQueue, m);
      if ok { queued := queued + [m]; }
    }

    method MqttPing(m: Msg) returns (ok: bool)
      requires Valid()
      modifies this, msgQueue.rb, msgQueue.rb.buf
      ensures Did(Step(old(Setup()), old(View()), Ping(m)))
      ensures ok <==> Step(old(Setup()), old(View()), Ping(m)).queued == [m]
    {
      if |m| == 0 {
        return false;
      }
      ok := PutRetry(msgQueue, m);
      if ok { queued := queued + [m]; }
    }

    /** One pass of mqtt_tcpclient_recv over the packet at the front of the data; again says whether
        it jumps back for the next one. */
    method ReadPacket(len: nat, p: Packet) returns (again: bool)
      requires Valid()
      modifies this, msgQueue.rb, msgQueue.rb.buf
      ensures Did(ReceiveOne(old(Setup()), old(View()), len, p))
      ensures again <==> Again(old(connState), len, p)
    {
      again := false;
      if 0 < len < MQTT_BUF_SIZE {
        match connState
        case MqttConnectSending =>
          if p.msgType == TYPE_CONNACK && pendingMsgType == TYPE_CONNECT {
            connState := MqttData;
          }
        case MqttData =>
          if Answered(p) {
            ghost var fits := |msgQueue.rb.contents| + |Frame(p.reply)| <= msgQueue.rb.Capacity();
            var rc := msgQueue.Puts(p.reply);
            if fits { queued := queued + [p.reply]; }
          }
          again := p.msgType == TYPE_PUBLISH && p.totalLen < len;
        case _ =>
      }
    }

    /** The passes from offset at on; the jump back to READPACKET is the tail call. It stops, and hangs is true,
        at a packet the C code would read over and over. */
    method ReadPackets(len: nat, at: nat, parse: nat -> Packet) returns (hangs: bool)
      requires Valid()
      modifies this, msgQueue.rb, msgQueue.rb.buf
      ensures Did(ReceiveAll(old(Setup()), old(View()), len, at, parse))
      ensures hangs <==> Hangs(old(connState), len, at, parse)
      decreases len
    {
      ghost var conn := connState;
      ghost var one, n := ReceiveOne(Setup(), View(), len, parse(at)), parse(at).totalLen;
      ghost var goal, jump := ReceiveAll(Setup(), View(), len, at, parse), Again(connState, len, parse(at)) && n > 0;
      ghost var more := if jump then ReceiveAll(Setup(), one.next, len - n, at + n, parse) else one;
      assert goal == if jump then Then(one, more) else one;
      Chain(queued, one.queued, more.queued);
      Chain(sent, one.sent, more.sent);
      var again := ReadPacket(len, parse(at));
      hangs := again && parse(at).totalLen == 0;
      if again && !hangs {
        assert connState == conn;
        hangs := ReadPackets(len - parse(at).totalLen, at + parse(at).totalLen, parse);
        assert View() == more.next == goal.next;
        assert queued == old(queued) + goal.queued;
        assert sent == old(sent) + goal.sent;
      }
    }

    /** mqtt_tcpclient_recv; hangs says that it does not return. */
    method Recv(len: nat, parse: nat -> Packet) returns (hangs: bool)
      requires Valid()
      modifies this, msgQueue.rb, msgQueue.rb.buf
      ensures Did(Step(old(Setup()), old(View()), Receive(len, parse)))
      ensures hangs <==> Stuck(old(View()), Receive(len, parse))
    {
      hangs := ReadPackets(len, 0, parse);
    }

    method SentCb()
      requires Valid()
      modifies this
      ensures Did(Step(old(Setup()), old(View()), SentCallback))
    {
      sendTimeout := 0;
    }

    method MqttTimer(sendOk: bool)
      requires Valid()
      modifies this
      ensures Did(Step(old(Setup()), old(View()), Timer(sendOk)))
    {
      hide Retry, Offer, Take, Frame, Framed, ReceiveAll, RunTask, RingBuf.Valid, Tick;
      CountTick(sendOk);
    }

    /** The body of mqtt_timer. */
    method CountTick(sendOk: bool)
      requires Valid()
      modifies `connState, `sendTimeout, `keepAliveTick, `reconnectTick, `pendingMsgType
      ensures Valid() && View() == Tick(old(Setup()), old(View()), sendOk)
    {
      hide Retry, Offer, Take, Frame, Framed, RingBuf.Valid;
      if connState == MqttData {
        keepAliveTick := (keepAliveTick + 1) % 0x1_0000_0000;
        if keepAliveTick > keepAlive {
          pendingMsgType := TYPE_PINGREQ;
          sendTimeout := MQTT_SEND_TIMOUT;
          if sendOk {
            keepAliveTick := 0;
          } else {
            connState := TcpReconnectReq;
          }
        }
      } else if connState == TcpReconnectReq {
        reconnectTick := reconnectTick + 1;
        if reconnectTick > MQTT_RECONNECT_TIMEOUT {
          reconnectTick := 0;
          connState := TcpReconnect;
        }
      }
      if sendTimeout > 0 {
        sendTimeout := sendTimeout - 1;
      }
    }

    method DisconnectCb()
      requires Valid()
      modifies this
      ensures Did(Step(old(Setup()), old(View()), DisconnectCallback))
    {
      match connState
      case TcpDisconnecting => connState := TcpDisconnected;
      case MqttDeleting => connState := MqttDeleted;
      case _ => connState := TcpReconnectReq;
    }

    method ReconnectCb()
      requires Valid()
      modifies this
      ensures Did(Step(old(Setup()), old(View()), ReconnectCallback))
    {
      connState := TcpReconnectReq;
    }

    /** mqtt_dns_found: was there an address, and is it the first one? */
    method DnsFoundCb(resolved: bool, first: bool)
      requires Valid()
      modifies this
      ensures Did(Step(old(Setup()), old(View()), DnsFound(resolved, first)))
    {
      if !resolved {
        connState := TcpReconnectReq;
        return;
      }
      if first {
        connState := TcpConnecting;
      }
    }

    method MqttDisconnect()
      requires Valid()
      modifies this
      ensures Did(Step(old(Setup()), old(View()), Disconnect))
    {
      connState := TcpDisconnecting;
    }

    method DeleteClient()
      requires Valid()
      modifies this
      ensures Did(Step(old(Setup()), old(View()), Delete))
    {
      connState := MqttDeleting;
    }

    method ConnectCb()
      requires Valid()
      modifies this
      ensures Did(Step(old(Setup()), old(View()), ConnectCallback))
    {
      pendingMsgType := TYPE_CONNECT;
      sendTimeout := MQTT_SEND_TIMOUT;
      connState := MqttConnectSending;
    }

    method MqttConnect()
      requires Valid()
      modifies this
      ensures Did(Step(old(Setup()), old(View()), Connect))
    {
      connState := TcpDisconnecting;
      keepAliveTick, reconnectTick := 0, 0;
      connState := TcpConnecting;
    }

    /** MQTT_Task when connected and allowed to send: dequeue one message and hand it over. */
    method SendNext() returns (ghost stale: Byte)
      requires Valid() && connState == MqttData && msgQueue.rb.contents != [] && sendTimeout == 0
      modifies this, msgQueue.rb, msgQueue.rb.buf
      ensures Did(RunTask(old(View()), stale))
    {
      var dataBuffer := new Byte[MQTT_BUF_SIZE];
      var rc, dataLen := msgQueue.Gets(dataBuffer, MQTT_BUF_SIZE);
      stale := dataBuffer[0];
      if rc == 0 {
        pendingMsgType := TypeOf(dataBuffer[0]);
        sendTimeout := MQTT_SEND_TIMOUT;
        sent := sent + [dataBuffer[..dataLen]];
      }
    }

    method MqttTask() returns (ghost stale: Byte)
      requires Valid()
      modifies this, msgQueue.rb, msgQueue.rb.buf
      ensures Did(Step(old(Setup()), old(View()), Task(stale)))
    {
      stale := 0;
      match connState
      case TcpReconnect =>
        MqttConnect();
        connState := TcpConnecting;
      case MqttData =>
        var empty := msgQueue.IsEmpty();
        if !empty && sendTimeout == 0 {
          stale := SendNext();
        }
      case _ =>
    }
  }
}

/** The outgoing queue and the retry loop that makes room by discarding the oldest message. */
module MqttQueue {
  import opened MqttRingBuf
  import opened MqttProto

  const MQTT_BUF_SIZE: nat := 1024

  class Queue {
    var rb: RingBuf

    ghost predicate Valid()
      reads this, rb, rb.buf
    {
      rb.Valid() && Framed(rb.contents)
    }

    constructor (bufferSize: nat)
      requires bufferSize >= 2
      ensures Valid() && fresh(rb) && fresh(rb.buf)
      ensures rb.contents == [] && rb.Capacity() == bufferSize
    {
      rb := new RingBuf.Uninitialised();
      new;
      var memory := new Byte[bufferSize];
      var _ := rb.Init(memory);
    }

    method Puts(packet: seq<Byte>) returns (rc: int)
      requires Valid() && |packet| <= MQTT_BUF_SIZE
      modifies rb, rb.buf
      ensures Valid() && rb.buf == old(rb.buf)
      ensures rb.contents == Offer(old(rb.contents), rb.Capacity(), packet)
      ensures rc != -1 <==> |old(rb.contents)| + |Frame(packet)| <= rb.Capacity()
    {
      StuffLength(packet);
      ghost var room := rb.Capacity() - |rb.contents|;
      PutKeepsFramed(rb.contents, packet, Min(|Frame(packet)|, room));
      rc := AddRb(rb, packet);
    }

    method Gets(out: array<Byte>, max: nat) returns (rc: int, len: nat)
      requires Valid() && max <= out.Length && out != rb.buf
      modifies rb, out
      ensures Valid() && rb.buf == old(rb.buf)
      ensures match Take(old(rb.contents), max)
              case Got(m, rest) => rc == 0 && len == |m| && len <= out.Length && out[..len] == m
                                   && rb.contents == rest
              case Nothing => rc == -1 && rb.contents == []
    {
      if Take(rb.contents, max).Got? {
        TakeKeepsFramed(rb.contents, max);
      }
      rc, len := ParseRb(rb, out, max);
    }

    method IsEmpty() returns (b: bool)
      requires Valid()
      ensures b <==> rb.contents == []
    {
      b := rb.fill <= 0;
    }
  }

  /** Ring contents after one put of m, successful or not. */
  function Offer(q: seq<Byte>, cap: nat, m: seq<Byte>): seq<Byte>
    requires |q| <= cap
  {
    q + Fit(Frame(m), cap - |q|)
  }

  function Ends(q: seq<Byte>): nat {
    if q == [] then 0 else (if q[0] == END then 1 else 0) + Ends(q[1..])
  }

  datatype Retried = Retried(ok: bool, ring: seq<Byte>)

  /** The loop shared by MQTT_Publish, MQTT_Subscribe and MQTT_Ping. */
  function Retry(q: seq<Byte>, cap: nat, m: seq<Byte>): Retried
    requires |q| <= cap
    decreases Ends(q)
  {
    var offered := Offer(q, cap, m);
    if |q| + |Frame(m)| <= cap then Retried(true, offered)
    else
      match Take(offered, MQTT_BUF_SIZE)
      case Nothing => Retried(false, [])
      case Got(_, rest) =>
        RetryProgress(q, cap, m);
        Retry(rest, cap, m)
  }

  /** PutRetry is the loop itself; it ends because every round uses up one END. */
  method PutRetry(queue: Queue, m: seq<Byte>) returns (ok: bool)
    requires queue.Valid() && |m| <= MQTT_BUF_SIZE
    modifies queue.rb, queue.rb.buf
    ensures queue.Valid() && queue.rb.buf == old(queue.rb.buf)
    ensures Retried(ok, queue.rb.contents) == Retry(old(queue.rb.contents), queue.rb.Capacity(), m)
  {
    var dataBuffer := new Byte[MQTT_BUF_SIZE];
    ghost var goal := Retry(queue.rb.contents, queue.rb.Capacity(), m);
    ghost var q := queue.rb.contents;
    var rc := queue.Puts(m);
    while rc == -1
      invariant queue.Valid() && queue.rb.buf == old(queue.rb.buf)
      invariant |q| <= queue.rb.Capacity() && queue.rb.contents == Offer(q, queue.rb.Capacity(), m)
      invariant rc != -1 <==> |q| + |Frame(m)| <= queue.rb.Capacity()
      invariant goal == Retry(q, queue.rb.Capacity(), m)
      decreases Ends(q)
    {
      RetryProgress(q, queue.rb.Capacity(), m);
      var got, _ := queue.Gets(dataBuffer, MQTT_BUF_SIZE);
      if got == -1 {
        return false;
      }
      q := queue.rb.contents;
      rc := queue.Puts(m);
    }
    return true;
  }

  // ---------------------------------------------------------------- lemmas

  lemma {:induction false} StuffLength(m: seq<Byte>)
    ensures |m| <= |Stuff(m)| <= 2 * |m|
  {
    if m != [] {
      StuffLength(m[1..]);
    }
  }

  lemma {:induction false} EndsConcat(a: seq<Byte>, b: seq<Byte>)
    ensures Ends(a + b) == Ends(a) + Ends(b)
  {
    if a == [] {
      assert a + b == b;
    } else {
      assert (a + b)[1..] == a[1..] + b;
      EndsConcat(a[1..], b);
    }
  }

  lemma {:induction false} EndsSplit(q: seq<Byte>)
    ensures FirstEnd(q) == |q| ==> Ends(q) == 0
    ensures FirstEnd(q) < |q| ==> Ends(q) == 1 + Ends(q[FirstEnd(q) + 1..])
  {
    if q != [] && q[0] != END {
      EndsSplit(q[1..]);
    }
  }

  /** A put that does not fit leaves a torn frame that fills the ring to the last byte. */
  lemma TornFrame(q: seq<Byte>, cap: nat, m: seq<Byte>)
    requires |q| <= cap < |q| + |Frame(m)|
    ensures Offer(q, cap, m) == q + Frame(m)[..cap - |q|]
    ensures FirstEnd(Frame(m)[..cap - |q|]) == cap - |q|
  {
    TornHasNoEnd(m, cap - |q|);
  }

  lemma RetryProgress(q: seq<Byte>, cap: nat, m: seq<Byte>)
    requires |q| <= cap < |q| + |Frame(m)|
    ensures var got := Take(Offer(q, cap, m), MQTT_BUF_SIZE);
            got.Got? ==> Ends(got.rest) < Ends(q) && |got.rest| <= cap
  {
    var o, t := Offer(q, cap, m), Frame(m)[..cap - |q|];
    TornFrame(q, cap, m);
    EndsConcat(q, t);
    EndsSplit(t);
    EndsSplit(o);
    ScanIs(FRESH, o, MQTT_BUF_SIZE);
  }

  /** How much of the ring each queued message holds, torn frames in front of it included. */
  function Slots(q: seq<Byte>): seq<nat>
    decreases |q|
  {
    var n := FirstEnd(q);
    if n < |q| then [n + 1] + Slots(q[n + 1..]) else []
  }

  /** The first of the slots that holds need bytes; their number if there is none. */
  function FirstFit(slots: seq<nat>, need: nat): (i: nat)
    ensures i <= |slots| && (forall k :: 0 <= k < i ==> slots[k] < need)
    ensures i < |slots| ==> need <= slots[i]
  {
    if slots == [] || need <= slots[0] then 0 else 1 + FirstFit(slots[1..], need)
  }

  lemma {:induction false} SlotsIgnoreTail(q: seq<Byte>, t: seq<Byte>)
    requires FirstEnd(t) == |t|
    ensures Slots(q + t) == Slots(q)
    decreases |q|
  {
    FirstEndConcat(q, t);
    var n := FirstEnd(q);
    if n < |q| {
      assert (q + t)[n + 1..] == q[n + 1..] + t;
      SlotsIgnoreTail(q[n + 1..], t);
    }
  }

  lemma {:induction false} OneSlotPerMessage(q: seq<Byte>, max: nat)
    ensures |Slots(q)| == |Messages(q, max)|
    decreases |q|
  {
    ScanIs(FRESH, q, max);
    if FirstEnd(q) < |q| {
      OneSlotPerMessage(q[FirstEnd(q) + 1..], max);
    }
  }

  /** How many of the oldest messages a retried put discards. */
  function Discarded(q: seq<Byte>, cap: nat, m: seq<Byte>): nat
    requires |q| <= cap
  {
    if |q| + |Frame(m)| <= cap then 0 else 1 + FirstFit(Slots(q), |Frame(m)|)
  }

  /** One round of the loop: the oldest message goes, and the torn frame takes all the room it had. */
  lemma RetryRound(q: seq<Byte>, cap: nat, m: seq<Byte>) returns (q': seq<Byte>)
    requires |q| <= cap < |q| + |Frame(m)| && FirstEnd(q) < |q|
    ensures |q'| <= cap && Ends(q') < Ends(q) && Retry(q, cap, m) == Retry(q', cap, m)
    ensures Slots(q) == [cap - |q'|] + Slots(q')
    ensures |Slots(q)| == |Messages(q, MQTT_BUF_SIZE)|
    ensures Messages(q, MQTT_BUF_SIZE)[1..] == Messages(q', MQTT_BUF_SIZE)
  {
    var max, t := MQTT_BUF_SIZE, Frame(m)[..cap - |q|];
    var rest := q[FirstEnd(q) + 1..];
    q' := rest + t;
    TornFrame(q, cap, m);
    RetryProgress(q, cap, m);
    ScanIs(FRESH, q, max);
    ScanStops(FRESH, q, t, max);
    SlotsIgnoreTail(rest, t);
    MessagesAfterPut(rest, m, |t|, max);
    OneSlotPerMessage(q, max);
  }

  /** Nothing whole is queued: the loop uses up the torn frames and gives up. */
  lemma RetryHopeless(q: seq<Byte>, cap: nat, m: seq<Byte>)
    requires |q| <= cap < |q| + |Frame(m)| && FirstEnd(q) == |q|
    ensures Retry(q, cap, m) == Retried(false, []) && Slots(q) == []
  {
    TornFrame(q, cap, m);
    FirstEndConcat(q, Frame(m)[..cap - |q|]);
    ScanIs(FRESH, Offer(q, cap, m), MQTT_BUF_SIZE);
  }

  lemma FirstFitNext(slots: seq<nat>, need: nat)
    requires slots != []
    ensures FirstFit(slots, need) == if need <= slots[0] then 0 else 1 + FirstFit(slots[1..], need)
  {
  }

  lemma FitsSome(slots: seq<nat>, need: nat)
    ensures FirstFit(slots, need) < |slots| <==> exists i :: 0 <= i < |slots| && need <= slots[i]
  {
  }

  /** The outcome in terms of the first slot that the frame fits into. */
  lemma {:induction false} RetryOutcome(q: seq<Byte>, cap: nat, m: seq<Byte>)
    requires |q| <= cap
    ensures Retry(q, cap, m).ok <==>
            |q| + |Frame(m)| <= cap || FirstFit(Slots(q), |Frame(m)|) < |Slots(q)|
    ensures Retry(q, cap, m).ok ==>
              && Discarded(q, cap, m) <= |Messages(q, MQTT_BUF_SIZE)|
              && Messages(Retry(q, cap, m).ring, MQTT_BUF_SIZE)
                 == Messages(q, MQTT_BUF_SIZE)[Discarded(q, cap, m)..] + [Truncate(m, MQTT_BUF_SIZE)]
    ensures !Retry(q, cap, m).ok ==> Retry(q, cap, m).ring == []
    decreases Ends(q)
  {
    hide Frame, Messages, Slots, Scan, FeedAll, FirstEnd, FirstFit, Truncate;
    var max, need := MQTT_BUF_SIZE, |Frame(m)|;
    if |q| + need <= cap {
      MessagesAfterPut(q, m, need, max);
    } else if FirstEnd(q) < |q| {
      var q' := RetryRound(q, cap, m);
      RetryOutcome(q', cap, m);
      FirstFitNext(Slots(q), need);
      assert Slots(q)[1..] == Slots(q');
      if Retry(q', cap, m).ok {
        Discard(Messages(q, max), Discarded(q', cap, m));
      }
    } else {
      RetryHopeless(q, cap, m);
    }
  }

  /** The exact outcome of the retry loop. The room freed by one discarded message is filled by the
      next torn frame, so it never adds up: the put succeeds just when the frame fits into the free
      part of the ring or into the slot of one queued message. */
  lemma RetryExact(q: seq<Byte>, cap: nat, m: seq<Byte>)
    requires |q| <= cap
    ensures Retry(q, cap, m).ok <==>
            || |q| + |Frame(m)| <= cap
            || exists i :: 0 <= i < |Slots(q)| && |Frame(m)| <= Slots(q)[i]
    ensures Retry(q, cap, m).ok ==>
              && Discarded(q, cap, m) <= |Messages(q, MQTT_BUF_SIZE)|
              && Messages(Retry(q, cap, m).ring, MQTT_BUF_SIZE)
                 == Messages(q, MQTT_BUF_SIZE)[Discarded(q, cap, m)..] + [Truncate(m, MQTT_BUF_SIZE)]
    ensures !Retry(q, cap, m).ok ==> Retry(q, cap, m).ring == []
  {
    hide Frame, Messages, Slots, Truncate, Retry, Discarded, FirstFit;
    RetryOutcome(q, cap, m);
    FitsSome(Slots(q), |Frame(m)|);
  }

  lemma Discard(s: seq<seq<Byte>>, d: nat)
    requires d + 1 <= |s|
    ensures s[1..][d..] == s[d + 1..]
  {
  }

  /** No byte needs stuffing. */
  predicate Plain(m: seq<Byte>) {
    forall i :: 0 <= i < |m| ==> m[i] != ESC && m[i] != BEG && m[i] != END
  }

  lemma {:induction false} StuffPlain(m: seq<Byte>)
    requires Plain(m)
    ensures Stuff(m) == m
  {
    if m != [] {
      StuffPlain(m[1..]);
      assert m == [m[0]] + m[1..];
    }
  }

  /** Making room by discarding is not enough: whatever the two messages of 1022 bytes and the new one of 1023 are,
      as long as no byte needs stuffing, a frame that would fit the empty ring is refused, and everything that was
      queued is gone. */
  lemma RetryLosesEverything(first: seq<Byte>, second: seq<Byte>, big: seq<Byte>)
    requires |first| == |second| == 1022 && |big| == 1023 && Plain(first) && Plain(second) && Plain(big)
    ensures var q := Frame(first) + Frame(second);
            && |q| == 2048 && |Frame(big)| <= 2048 && Framed(q)
            && Messages(q, MQTT_BUF_SIZE) == [first, second]
            && Retry(q, 2048, big) == Retried(false, [])
  {
    StuffPlain(first);
    StuffPlain(second);
    StuffPlain(big);
    var q := Frame(first) + Frame(second);
    OneQueued(first);
    OneQueued(second);
    SlotOfFrame(first, Frame(second));
    FramePut(Frame(first), second);
    assert |Frame(first)| == |Frame(second)| == 1024 && |Frame(big)| == 1025;
    assert Slots(q) == [1024, 1024];
    RetryExact(q, 2048, big);
    assert Truncate(first, MQTT_BUF_SIZE) == first && Truncate(second, MQTT_BUF_SIZE) == second;
  }

  lemma SlotOfFrame(m: seq<Byte>, rest: seq<Byte>)
    ensures Slots(Frame(m) + rest) == [|Frame(m)|] + Slots(rest)
  {
    FrameEnd(m);
    FirstEndConcat(Frame(m), rest);
    assert (Frame(m) + rest)[|Frame(m)|..] == rest;
  }

  lemma FramePut(q: seq<Byte>, m: seq<Byte>)
    requires Framed(q)
    ensures Framed(q + Frame(m))
    ensures Messages(q + Frame(m), MQTT_BUF_SIZE) == Messages(q, MQTT_BUF_SIZE) + [Truncate(m, MQTT_BUF_SIZE)]
  {
    var n := |Frame(m)|;
    assert Frame(m)[..n] == Frame(m);
    PutKeepsFramed(q, m, n);
    MessagesAfterPut(q, m, n, MQTT_BUF_SIZE);
  }

  lemma OneQueued(m: seq<Byte>)
    ensures Framed(Frame(m)) && Slots(Frame(m)) == [|Frame(m)|]
    ensures Messages(Frame(m), MQTT_BUF_SIZE) == [Truncate(m, MQTT_BUF_SIZE)]
  {
    assert Frame(m) + [] == Frame(m) == [] + Frame(m);
    SlotOfFrame(m, []);
    FramePut([], m);
  }
}

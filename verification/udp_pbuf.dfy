/** Chains of packet buffers, as the UDP writer uses them: all of one size, each knowing how much there is
    from itself on, in a number of 16 bits. */
module UdpPbuf {

  const UNIT: nat := 128
  const U16: nat := 0x1_0000

  class Pbuf {
    const payload: array<char>
    const len: nat
    var tot_len: nat
    var next: Pbuf?

    /** pbuf_alloc. */
    constructor (size: nat)
      requires size < U16
      ensures fresh(payload) && payload.Length == len == size && tot_len == size && next == null
    {
      payload, len, tot_len, next := new char[size], size, size, null;
    }
  }

  /** How much a chain of n buffers says there is. */
  function TotLen(n: nat): nat {
    n * UNIT % U16
  }

  ghost function BufferAt(c: seq<Pbuf>, i: int): Pbuf? {
    if 0 <= i < |c| then c[i] else null
  }

  ghost predicate NextOk(c: seq<Pbuf>, i: nat)
    requires i < |c|
    reads c[i]
  {
    c[i].next == BufferAt(c, i + 1)
  }

  /** The length a buffer gives, when its chain has n. */
  ghost predicate Says(c: seq<Pbuf>, i: nat, n: nat)
    requires i < |c| && i <= n
    reads c[i]
  {
    c[i].tot_len == TotLen(n - i)
  }

  /** The buffers of a chain, in order. */
  ghost predicate Chain(c: seq<Pbuf>)
    reads c
  {
    && (forall i :: 0 <= i < |c| ==> NextOk(c, i))
    && (forall i :: 0 <= i < |c| ==> Says(c, i, |c|))
    && Apart(c)
  }

  /** Different buffers with different payloads, each of one unit. */
  ghost predicate Apart(c: seq<Pbuf>) {
    && (forall i :: 0 <= i < |c| ==> c[i].payload.Length == c[i].len == UNIT)
    && (forall i, j :: 0 <= i < |c| && 0 <= j < |c| && i != j ==> c[i] != c[j] && c[i].payload != c[j].payload)
  }

  ghost function Payloads(c: seq<Pbuf>): set<array<char>> {
    set i | 0 <= i < |c| :: c[i].payload
  }

  /** The character at this place of a chain. */
  ghost function CharAt(c: seq<Pbuf>, k: nat): char
    requires Apart(c) && k < |c| * UNIT
    reads Payloads(c)
  {
    c[k / UNIT].payload[k % UNIT]
  }

  /** The front of a chain, as one text. */
  ghost function Front(c: seq<Pbuf>, n: nat): (s: string)
    requires Apart(c) && n <= |c| * UNIT
    reads Payloads(c)
    ensures |s| == n && forall k :: 0 <= k < n ==> s[k] == CharAt(c, k)
  {
    seq(n, k requires 0 <= k < n reads Payloads(c) => CharAt(c, k))
  }

  lemma TotGrows(n: nat)
    ensures (TotLen(n) + UNIT) % U16 == TotLen(n + 1)
  {
    var q := n * UNIT / U16;
    assert n * UNIT == q * U16 + TotLen(n);
  }

  /** The loop of pbuf_cat, to the last buffer. */
  method CatLoop(head: Pbuf, ghost c: seq<Pbuf>, ghost n: nat) returns (p: Pbuf)
    requires n == |c| + 1 && c != [] && head == c[0] && Chain(c)
    modifies c
    ensures p == c[|c| - 1] && forall j :: 0 <= j < |c| ==> NextOk(c, j)
    ensures forall j :: 0 <= j < |c| - 1 ==> Says(c, j, n)
    ensures Says(c, |c| - 1, |c|)
  {
    hide TotLen;
    p := head;
    ghost var i := 0;
    assert NextOk(c, 0);
    while p.next != null
      invariant 0 <= i < |c| && p == c[i] && p.next == BufferAt(c, i + 1)
      invariant forall j :: 0 <= j < |c| ==> NextOk(c, j)
      invariant forall j :: 0 <= j < i ==> Says(c, j, n)
      invariant forall j :: i <= j < |c| ==> Says(c, j, |c|)
      decreases |c| - i
    {
      assert Says(c, i, |c|) && NextOk(c, i + 1);
      TotGrows(|c| - i);
      p.tot_len := (p.tot_len + UNIT) % U16;
      p, i := p.next, i + 1;
    }
  }

  /** pbuf_cat with one more buffer at the end. */
  method Cat(head: Pbuf, pb: Pbuf, ghost c: seq<Pbuf>)
    requires c != [] && head == c[0] && Chain(c) && Apart(c + [pb])
    requires pb.next == null && pb.tot_len == TotLen(1)
    modifies c
    ensures Chain(c + [pb])
  {
    hide TotLen, Apart;
    ghost var d, k := c + [pb], |c| - 1;
    ApartFacts(d);
    var p := CatLoop(head, c, |d|);
    assert Says(c, k, |c|) && p == d[k] && pb == d[k + 1];
    TotGrows(1);
    OneUnit();
    forall i | 0 <= i < k ensures c[i] != p && c[i] != pb && NextOk(c, i) && Says(c, i, |d|) {
      assert d[i] == c[i] && d[i] != d[k] && d[i] != d[k + 1];
    }
    p.tot_len := (p.tot_len + pb.tot_len) % U16;
    p.next := pb;
    forall i | 0 <= i < |d| ensures NextOk(d, i) && Says(d, i, |d|) {
      if i < k {
        assert NextOk(c, i) && Says(c, i, |d|);
      }
    }
  }

  lemma OneUnit()
    ensures TotLen(1) == UNIT
  {
  }

  lemma ApartFacts(c: seq<Pbuf>)
    requires Apart(c)
    ensures forall i, j :: 0 <= i < |c| && 0 <= j < |c| && i != j ==> c[i] != c[j]
  {
  }
}

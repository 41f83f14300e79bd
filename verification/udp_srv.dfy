/** The UDP writer: what is appended, over any number of buffers, is what the next send transmits, as long as the
    chain can say its length in 16 bits; beyond that, appending leaves the buffers. */
module UdpSrv {
  import opened UdpPbuf

  /** The most that a chain can hold and still say so in 16 bits: 511 buffers. */
  const MOST: nat := 511 * UNIT
  const SIZES: nat := 0x1_0000_0000

  /** More than the memory of the chip, all of it in the lower half of the addresses. */
  const MEMORY: nat := 0x8000_0000

  lemma Exact(n: nat)
    requires n <= 511
    ensures TotLen(n) == n * UNIT
  {
  }

  /** How many buffers hold so many characters. */
  function Needed(size: nat): nat {
    (size + UNIT - 1) / UNIT
  }

  lemma NeededBounds(size: nat)
    ensures size <= Needed(size) * UNIT && (size > 0 ==> (Needed(size) - 1) * UNIT < size)
    ensures Needed(size) <= 511 <==> size <= MOST
  {
  }

  /** One buffer more for a unit, or for what is left of one. */
  lemma NeededStep(base: nat, grow: nat)
    requires grow > 0
    ensures Needed(base * UNIT + grow) == if grow < UNIT then base + 1 else Needed((base + 1) * UNIT + (grow - UNIT))
  {
  }

  /** Where the C code takes the i-th of n buffers to begin: the difference of two 16-bit lengths. */
  function Begins(n: nat, i: nat): int
    requires i < n
  {
    TotLen(n) - TotLen(n - i)
  }

  /** It is right, or too small by a multiple of 2^16; up to 511 buffers it is right, and from 512 on it is wrong
      for the last. */
  lemma BeginsAt(n: nat, i: nat)
    requires i < n
    ensures Begins(n, i) == i * UNIT || Begins(n, i) <= i * UNIT - U16
    ensures n <= 511 ==> Begins(n, i) == i * UNIT
    ensures n >= 512 ==> Begins(n, n - 1) != (n - 1) * UNIT
  {
    var a, b := n * UNIT / U16, (n - i) * UNIT / U16;
    assert n * UNIT == a * U16 + TotLen(n) && (n - i) * UNIT == b * U16 + TotLen(n - i);
    if a != b {
      assert a >= b + 1;
    }
  }

  /** The text at the front of a chain does not depend on what is behind. */
  lemma FrontOf(c: seq<Pbuf>, d: seq<Pbuf>, n: nat)
    requires Apart(c) && Apart(d) && c <= d && n <= |c| * UNIT
    ensures n <= |d| * UNIT && Front(c, n) == Front(d, n)
  {
    forall k | 0 <= k < n ensures CharAt(c, k) == CharAt(d, k) {
    }
  }

  class Srv {
    var head: Pbuf?
    var cur: Pbuf?
    var offset: nat
    ghost var chain: seq<Pbuf>
    ghost var at: nat                 // the place of cur in the chain

    /** The cursor's buffer covers the write offset. */
    ghost predicate Linked()
      reads this, chain
    {
      && Chain(chain) && head == BufferAt(chain, 0)
      && (chain == [] ==> cur == null && offset == 0)
      && (chain != [] ==> at < |chain| && cur == chain[at] && at * UNIT <= offset <= (at + 1) * UNIT)
    }

    /** The chain can also say how much there is. */
    ghost predicate Valid()
      reads this, chain
    {
      Linked() && |chain| <= 511
    }

    constructor ()
      ensures Valid() && chain == [] && Pending() == ""
    {
      head, cur, offset, chain, at := null, null, 0, [], 0;
    }

    /** What was appended since the last send. */
    ghost function Pending(): (s: string)
      requires Linked()
      reads this, chain, Payloads(chain)
    {
      Front(chain, offset)
    }

    /** The head's length is that of the chain, in 16 bits. */
    lemma HeadSays()
      requires Linked() && head != null
      ensures head.tot_len == TotLen(|chain|) && cur.tot_len == TotLen(|chain| - at)
      ensures |chain| <= 511 ==> head.tot_len == |chain| * UNIT
    {
      assert Says(chain, 0, |chain|) && Says(chain, at, |chain|);
      if |chain| <= 511 {
        Exact(|chain|);
      }
    }

    /** A buffer more. */
    method Grow()
      requires Linked()
      modifies this`head, this`cur, this`offset, this`chain, this`at, chain
      ensures Linked() && |chain| == |old(chain)| + 1 && old(chain) <= chain
      ensures fresh(chain[|chain| - 1]) && fresh(chain[|chain| - 1].payload)
      ensures offset == old(offset) && (old(chain) != [] ==> at == old(at) && cur == old(cur))
    {
      var pb := new Pbuf(UNIT);
      ghost var d := chain + [pb];
      OneUnit();
      if head == null {
        head, cur, offset, at := pb, pb, 0, 0;
        assert NextOk([pb], 0) && Says([pb], 0, 1);
        assert d == [pb];
      } else {
        Cat(head, pb, chain);
      }
      chain := d;
    }

    /** udp_srv_reserve: as many buffers as so many characters need. */
    method Reserve(size: nat)
      requires Valid()
      modifies this`head, this`cur, this`offset, this`chain, this`at, chain
      ensures Linked() && chain != [] && old(chain) <= chain
      ensures |chain| == if size <= |old(chain)| * UNIT then (if old(chain) == [] then 1 else |old(chain)|)
                         else Needed(size)
      ensures forall i :: |old(chain)| <= i < |chain| ==> fresh(chain[i]) && fresh(chain[i].payload)
      ensures offset == old(offset) && (old(chain) != [] ==> at == old(at))
    {
      ghost var was := chain;
      if head == null {
        Grow();
      }
      HeadSays();
      var cur_size := head.tot_len;
      if size < cur_size {
        return;
      }
      var grow_size: nat := size - cur_size;
      while grow_size > 0
        invariant Linked() && was <= chain && chain != [] && |chain| * UNIT + grow_size == size
        invariant forall i :: |was| <= i < |chain| ==> fresh(chain[i]) && fresh(chain[i].payload)
        invariant offset == old(offset) && (was != [] ==> at == old(at))
      {
        NeededStep(|chain|, grow_size);
        Grow();
        if grow_size < UNIT {
          return;
        }
        grow_size := grow_size - UNIT;
      }
    }

    /** A block written at the cursor. */
    method Fill(data: string, from: nat, used: nat, n: nat)
      requires Linked() && chain != [] && used == offset - at * UNIT && used + n <= UNIT && from + n <= |data|
      modifies this`offset, cur.payload
      ensures Linked() && offset == old(offset) + n && Pending() == old(Pending()) + data[from..from + n]
    {
      forall i | 0 <= i < n {
        cur.payload[used + i] := data[from + i];
      }
      offset := offset + n;
      ghost var o := old(offset);
      forall k | 0 <= k < o ensures CharAt(chain, k) == old(CharAt(chain, k)) {
        Place(k, at, o);
      }
      forall k | o <= k < o + n ensures CharAt(chain, k) == data[from + (k - o)] {
        InPlace(k, at, used + (k - o));
      }
    }

    /** The first part of udp_srv_append: with 512 buffers or more the chain no longer says what it holds. */
    method MakeRoom(size: nat)
      requires Valid()
      modifies this`head, this`cur, this`offset, this`chain, this`at, chain
      ensures Linked() && chain != [] && offset + size <= |chain| * UNIT && Pending() == old(Pending())
      ensures offset == old(offset)
      ensures if offset + size <= MOST then |chain| <= 511 else |chain| == Needed(offset + size)
      ensures old(chain) <= chain
      ensures forall i :: |old(chain)| <= i < |chain| ==> fresh(chain[i]) && fresh(chain[i].payload)
    {
      ghost var was, o := chain, offset;
      NeededBounds(offset + size);
      if head != null {
        HeadSays();
      }
      if head == null || head.tot_len < offset + size {
        Reserve(offset + size);
        FrontOf(was, chain, o);
        assert Front(was, o) == old(Front(was, o));
      }
    }

    /** One round of the loop: a block copied, or the cursor moved on; ok is false, and nothing has happened, where
        the C code would write behind the buffer. The subtraction is one of 32 bits. */
    method CopySome(data: string, done: nat) returns (n: nat, ok: bool)
      requires Linked() && chain != [] && done < |data| && offset + (|data| - done) <= |chain| * UNIT
      requires offset + (|data| - done) < MEMORY
      modifies this`cur, this`offset, this`at, Payloads(chain)
      ensures ok <==> Begins(|chain|, old(at)) == old(at) * UNIT
      ensures Linked() && done + n <= |data| && offset == old(offset) + n
      ensures Pending() == old(Pending()) + data[done..done + n]
      ensures !ok ==> n == 0 && at == old(at)
      ensures ok ==> if n == 0 then at == old(at) + 1 && offset == at * UNIT else at == old(at)
    {
      HeadSays();
      BeginsAt(|chain|, at);
      var used_cur := offset - (head.tot_len - cur.tot_len);
      var free_cur := (cur.len - used_cur) % SIZES;
      n, ok := 0, true;
      assert data[done..done + 0] == "" && Pending() + "" == Pending();
      if free_cur == 0 {
        assert NextOk(chain, at);
        cur, at := cur.next, at + 1;
        return;
      }
      var will_copy := if |data| - done < free_cur then |data| - done else free_cur;
      if used_cur + will_copy > cur.len {
        ok := false;
        return;
      }
      n := will_copy;
      Fill(data, done, used_cur, n);
    }

    /** The loop over the data. */
    method CopyAll(data: string) returns (ok: bool)
      requires Linked() && chain != [] && offset + |data| <= |chain| * UNIT && offset + |data| < MEMORY
      requires |chain| >= 512 ==> |chain| == Needed(offset + |data|) && data != ""
      modifies this`cur, this`offset, this`at, Payloads(chain)
      ensures ok <==> |chain| <= 511
      ensures ok ==> Linked() && Pending() == old(Pending()) + data && offset == old(offset) + |data|
    {
      hide Begins, Needed, TotLen, Chain;
      ghost var pending, most := Pending(), offset + |data|;
      var left_to_copy: nat := |data|;
      var done: nat := 0;
      NeededBounds(most);
      while left_to_copy > 0
        invariant Linked() && done + left_to_copy == |data| && offset + left_to_copy == most
        invariant Pending() == pending + data[..done]
        invariant done > 0 && offset > at * UNIT ==> Begins(|chain|, at) == at * UNIT
        decreases left_to_copy + (|chain| - at)
      {
        BeginsAt(|chain|, at);
        var n;
        n, ok := CopySome(data, done);
        if !ok {
          return;
        }
        assert data[..done] + data[done..done + n] == data[..done + n];
        left_to_copy, done := left_to_copy - n, done + n;
      }
      assert data[..done] == data;
      BeginsAt(|chain|, at);
      LastBuffer(|chain|, at, most);
      ok := true;
    }

    /** udp_srv_append. It stays within the buffers if and only if all that is pending afterwards is at most MOST,
        and then the data is behind what was pending before. */
    method Append(data: string) returns (ok: bool)
      requires Valid() && offset + |data| < MEMORY
      modifies this`head, this`cur, this`offset, this`chain, this`at, chain, Payloads(chain)
      ensures ok <==> old(offset) + |data| <= MOST
      ensures ok ==> Valid() && chain != [] && Pending() == old(Pending()) + data && old(chain) <= chain
      ensures ok ==> forall i :: |old(chain)| <= i < |chain| ==> fresh(chain[i]) && fresh(chain[i].payload)
    {
      NeededBounds(offset + |data|);
      MakeRoom(|data|);
      ok := CopyAll(data);
    }

    /** One buffer's share of the datagram. */
    method CopyOut(datagram: array<char>, p: Pbuf, ghost i: nat, dst: nat, n: nat)
      requires Valid() && i < |chain| && p == chain[i] && dst == i * UNIT && n <= UNIT && dst + n <= datagram.Length
      requires datagram !in Payloads(chain) && datagram[..dst] == Front(chain, dst)
      modifies datagram
      ensures datagram[..dst + n] == Front(chain, dst + n)
    {
      forall k | 0 <= k < n {
        datagram[dst + k] := p.payload[k];
      }
      forall k | 0 <= k < dst ensures datagram[k] == CharAt(chain, k) {
        assert old(datagram[..dst])[k] == old(Front(chain, dst))[k];
      }
      forall k | dst <= k < dst + n ensures datagram[k] == CharAt(chain, k) {
        InPlace(k, i, k - dst);
        assert datagram[dst + (k - dst)] == p.payload[k - dst];
      }
    }

    /** The loop of udp_srv_send over the buffers. */
    method Gather(datagram: array<char>)
      requires Valid() && datagram.Length == offset && datagram !in Payloads(chain)
      modifies datagram
      ensures datagram[..] == Pending()
    {
      var data_size: nat := offset;
      var p := head;
      var dst: nat := 0;
      ghost var i: nat := 0;
      while p != null
        invariant i <= |chain| && p == BufferAt(chain, i) && dst + data_size == offset
        invariant if i * UNIT < offset then dst == i * UNIT else data_size == 0
        invariant datagram[..dst] == Front(chain, dst)
        decreases |chain| - i
      {
        var will_copy := if data_size < p.len then data_size else p.len;
        if will_copy > 0 {
          CopyOut(datagram, p, i, dst, will_copy);
        }
        assert NextOk(chain, i);
        dst, data_size := dst + will_copy, data_size - will_copy;
        p, i := p.next, i + 1;
      }
      assert datagram[..dst] == datagram[..];
    }

    /** udp_srv_send, up to the datagram it hands over: everything appended since the last send, and
        nothing is left. */
    method Send() returns (datagram: array<char>)
      requires Valid()
      modifies this`head, this`cur, this`offset, this`chain, this`at
      ensures datagram[..] == old(Pending()) && Valid() && chain == [] && Pending() == ""
    {
      datagram := new char[offset];
      Gather(datagram);
      head, cur, offset, chain, at := null, null, 0, [], 0;
    }
  }

  function Concat(pieces: seq<string>): string
    decreases |pieces|
  {
    if pieces == [] then "" else Concat(pieces[..|pieces| - 1]) + pieces[|pieces| - 1]
  }

  method AppendEach(srv: Srv, pieces: seq<string>) returns (ok: bool)
    requires srv.Valid() && srv.chain == [] && |Concat(pieces)| < MEMORY
    modifies srv`head, srv`cur, srv`offset, srv`chain, srv`at
    ensures ok <==> |Concat(pieces)| <= MOST
    ensures ok ==> srv.Valid() && srv.Pending() == Concat(pieces)
    ensures ok ==> forall j :: 0 <= j < |srv.chain| ==> fresh(srv.chain[j]) && fresh(srv.chain[j].payload)
    decreases |pieces|
  {
    ok := true;
    if pieces != [] {
      var last := |pieces| - 1;
      ConcatGrows(pieces, last);
      ok := AppendEach(srv, pieces[..last]);
      if ok {
        ok := srv.Append(pieces[last]);
      }
    }
  }

  /** Any appends, and then a send: every append stays within the buffers if and only if the pieces together are
      at most MOST, and then the datagram is the pieces in a row. */
  method AppendsThenSend(srv: Srv, pieces: seq<string>) returns (ok: bool, datagram: array?<char>)
    requires srv.Valid() && srv.chain == [] && |Concat(pieces)| < MEMORY
    modifies srv`head, srv`cur, srv`offset, srv`chain, srv`at
    ensures ok <==> |Concat(pieces)| <= MOST
    ensures ok ==> datagram != null && datagram[..] == Concat(pieces) && srv.Valid() && srv.chain == []
  {
    datagram := null;
    ok := AppendEach(srv, pieces);
    if ok {
      datagram := srv.Send();
    }
  }

  lemma ConcatGrows(pieces: seq<string>, k: nat)
    requires k <= |pieces|
    ensures |Concat(pieces[..k])| <= |Concat(pieces)|
    decreases |pieces|
  {
    if k < |pieces| {
      var r := pieces[..|pieces| - 1];
      assert r[..k] == pieces[..k];
      ConcatGrows(r, k);
    } else {
      assert pieces[..k] == pieces;
    }
  }

  /** When as many characters are written as need this many buffers, the cursor is at the last. */
  lemma LastBuffer(n: nat, at: nat, offset: nat)
    requires at < n && offset <= (at + 1) * UNIT
    ensures n == Needed(offset) && offset > 0 ==> at == n - 1 && offset > at * UNIT
  {
  }

  lemma Place(k: nat, at: nat, o: nat)
    requires k < o && at * UNIT <= o <= (at + 1) * UNIT
    ensures k / UNIT < at || (k / UNIT == at && k % UNIT < o - at * UNIT)
  {
  }

  lemma InPlace(k: nat, at: nat, j: nat)
    requires k == at * UNIT + j && j < UNIT
    ensures k / UNIT == at && k % UNIT == j
  {
  }
}

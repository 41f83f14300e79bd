/** The UART's ring buffers: block copies that wrap round, and a count of free places. */
module UartRing {
  const U16: nat := 0x1_0000

  /** Subtraction in 16 bits. */
  function Sub16(a: nat, n: nat): (r: nat)
    requires a < U16 && n <= U16
    ensures r == if n <= a then a - n else a + U16 - n
  {
    (a - n) % U16
  }

  /** A position that may have run past the end of a ring, once. */
  function Wrap(i: nat, size: nat): nat
    requires size > 0 && i < 2 * size
  {
    if i < size then i else i - size
  }

  /** The remainder the C code takes of such a position. */
  function Rem(i: nat, size: nat): (r: nat)
    requires size > 0
  {
    i % size
  }

  lemma RemIsWrap(i: nat, size: nat)
    requires size > 0 && i < 2 * size
    ensures Rem(i, size) == Wrap(i, size)
  {
    if i >= size {
      OnceRound(i - size, size);
    }
  }

  lemma OnceRound(r: nat, size: nat)
    requires r < size
    ensures (size + r) % size == r
  {
    var q := (size + r) / size;
    assert size + r == q * size + (size + r) % size;
    Times(q, size);
  }

  lemma Times(q: int, size: nat)
    ensures q >= 2 ==> q * size >= 2 * size
    ensures q <= 0 ==> q * size <= 0
  {
    if q >= 2 {
      assert q * size == 2 * size + (q - 2) * size;
    }
  }

  /** So many characters of a ring, from a position on. */
  function Text(b: string, out: nat, count: nat): (s: string)
    requires out < |b| && count <= |b|
    ensures |s| == count && forall k :: 0 <= k < count ==> s[k] == b[Wrap(out + k, |b|)]
  {
    seq(count, k requires 0 <= k < count => b[Wrap(out + k, |b|)])
  }

  /** A block put behind the last character. */
  lemma TextPut(b: string, c: string, out: nat, count: nat, at: nat, block: string)
    requires out < |b| == |c| && count + |block| <= |b| && at + |block| <= |b| && at < |b|
    requires at == Wrap(out + count, |b|)
    requires c[..at] == b[..at] && c[at..at + |block|] == block && c[at + |block|..] == b[at + |block|..]
    ensures Text(c, out, count + |block|) == Text(b, out, count) + block
  {
    forall k | 0 <= k < count + |block|
      ensures Text(c, out, count + |block|)[k] == (Text(b, out, count) + block)[k]
    {
      var i := Wrap(out + k, |b|);
      if k >= count {
        assert i == at + (k - count);
        assert c[i] == c[at..at + |block|][k - count];
      } else if i < at {
        assert c[i] == c[..at][i] == b[..at][i];
      } else {
        assert i >= at + |block|;
        assert c[i] == c[at + |block|..][i - (at + |block|)] == b[at + |block|..][i - (at + |block|)];
      }
    }
  }

  /** The oldest characters taken. */
  lemma TextTake(b: string, out: nat, count: nat, n: nat)
    requires out < |b| && n <= count <= |b| && out + n <= |b|
    ensures Text(b, Wrap(out + n, |b|), count - n) == Text(b, out, count)[n..]
    ensures b[out..out + n] == Text(b, out, count)[..n]
  {
    forall k | 0 <= k < count - n
      ensures Text(b, Wrap(out + n, |b|), count - n)[k] == Text(b, out, count)[n..][k]
    {
      assert Wrap(Wrap(out + n, |b|) + k, |b|) == Wrap(out + (n + k), |b|);
    }
  }

  lemma Joined(all: string, was: string, mid: string, now: string, tail: nat, n: nat)
    requires tail <= n <= |all| && n <= |was| == |mid| == |now|
    requires mid[0..0 + tail] == all[..tail] && mid[0 + tail..] == was[0 + tail..]
    requires now[..tail] == mid[..tail] && now[tail..tail + (n - tail)] == all[tail..][..n - tail]
    requires now[tail + (n - tail)..] == mid[tail + (n - tail)..]
    ensures all[tail..][n - tail..] == all[n..] && now[..n] == all[..n] && now[n..] == was[n..]
  {
    assert now[..n] == now[..tail] + now[tail..n];
    assert all[..n] == all[..tail] + all[tail..][..n - tail];
    assert mid[n..] == mid[tail..][n - tail..];
    assert was[n..] == was[tail..][n - tail..];
  }

  class Ring {
    const buffer: array<char>
    var inPos: nat
    var outPos: nat
    var space: nat

    ghost predicate Valid()
      reads this
    {
      && 0 < buffer.Length && inPos < buffer.Length && outPos < buffer.Length && space <= buffer.Length
      && Wrap(outPos + (buffer.Length - space), buffer.Length) == inPos
    }

    /** The waiting ones, the oldest first. */
    ghost function Contents(): (s: string)
      requires Valid()
      reads this, buffer
      ensures |s| == buffer.Length - space
    {
      Text(buffer[..], outPos, buffer.Length - space)
    }

    /** Uart_Buf_Init. */
    constructor (size: nat)
      requires size > 0
      ensures Valid() && fresh(buffer) && buffer.Length == size && space == size && inPos == outPos == 0
      ensures Contents() == ""
    {
      buffer, inPos, outPos, space := new char[size], 0, 0, size;
    }

    method CopyIn(data: string, from: nat, n: nat)
      requires inPos + n <= buffer.Length && from + n <= |data|
      modifies buffer
      ensures buffer[..inPos] == old(buffer[..inPos]) && buffer[inPos..inPos + n] == data[from..from + n]
      ensures buffer[inPos + n..] == old(buffer[inPos + n..])
    {
      forall i | 0 <= i < n {
        buffer[inPos + i] := data[from + i];
      }
    }

    /** A block copied to the input position, not past the end of the buffer, whether there is room or not. The
        free places are counted in 16 bits. */
    method Block(data: string, from: nat, n: nat)
      requires 0 < buffer.Length && inPos + n <= buffer.Length && inPos < buffer.Length && outPos < buffer.Length
      requires from + n <= |data| && space < U16 && n <= U16
      modifies this`inPos, this`space, buffer
      ensures inPos == Wrap(old(inPos) + n, buffer.Length) && inPos < buffer.Length && space == Sub16(old(space), n)
      ensures buffer[..old(inPos)] == old(buffer[..inPos]) && buffer[old(inPos)..old(inPos) + n] == data[from..from + n]
      ensures buffer[old(inPos) + n..] == old(buffer[inPos + n..])
      ensures old(Valid()) && n <= old(space) ==> Valid() && Contents() == old(Contents()) + data[from..from + n]
    {
      hide Rem, Text, Sub16;
      ghost var was, count, at := buffer[..], buffer.Length - space, inPos;
      CopyIn(data, from, n);
      if Valid() && n <= space {
        TextPut(was, buffer[..], outPos, count, at, data[from..from + n]);
      }
      RemIsWrap(inPos + n, buffer.Length);
      inPos := Rem(inPos + n, buffer.Length);
      space := Sub16(space, n);
    }

    /** Uart_Buf_Cpy, which does not look for room. With room the data is behind the last character. Without, the
        count of free places runs below zero and the ring is not one any more, or, inside being false, the C code
        writes behind the buffer. */
    method BufCpy(data: string) returns (inside: bool)
      requires Valid() && 3 * buffer.Length <= U16
      modifies this`inPos, this`space, buffer
      ensures inside <==> |data| <= buffer.Length - old(inPos) + buffer.Length
      ensures |data| <= old(space) ==> Valid() && space == old(space) - |data| && Contents() == old(Contents()) + data
      ensures inside && |data| > old(space) ==> space > buffer.Length && !Valid()
      ensures inside && |data| > buffer.Length - old(inPos) ==> buffer[0] == data[buffer.Length - old(inPos)]
    {
      inside := true;
      if |data| == 0 {
        return;
      }
      var tail := buffer.Length - inPos;
      if tail >= |data| {
        Block(data, 0, |data|);
        assert data[0..0 + |data|] == data;
      } else {
        inside := BlockTwice(data, tail);
      }
    }

    /** The two blocks of a text that goes round the end. */
    method BlockTwice(data: string, tail: nat) returns (inside: bool)
      requires Valid() && 3 * buffer.Length <= U16 && tail == buffer.Length - inPos < |data|
      modifies this`inPos, this`space, buffer
      ensures inside <==> |data| <= tail + buffer.Length
      ensures |data| <= old(space) ==> Valid() && space == old(space) - |data| && Contents() == old(Contents()) + data
      ensures inside && |data| > old(space) ==> space > buffer.Length
      ensures inside ==> buffer[0] == data[tail]
    {
      hide Text, Wrap, Sub16;
      Block(data, 0, tail);
      if |data| - tail > buffer.Length {
        return false;
      }
      inside := true;
      ghost var rest := data[tail..tail + (|data| - tail)];
      Wrapped(buffer.Length);
      Block(data, tail, |data| - tail);
      assert buffer[0] == buffer[0..0 + (|data| - tail)][0] == rest[0];
      assert data[0..0 + tail] + rest == data;
    }

    method CopyOut(dst: array<char>, at: nat, n: nat)
      requires outPos + n <= buffer.Length && at + n <= dst.Length && dst != buffer
      modifies dst
      ensures dst[..at] == old(dst[..at]) && dst[at..at + n] == buffer[outPos..outPos + n]
      ensures dst[at + n..] == old(dst[at + n..])
    {
      forall i | 0 <= i < n {
        dst[at + i] := buffer[outPos + i];
      }
    }

    /** The oldest ones copied out, not past the end of the buffer. */
    method Take(dst: array<char>, at: nat, n: nat)
      requires Valid() && n <= buffer.Length - space && outPos + n <= buffer.Length && at + n <= dst.Length
      requires dst != buffer
      modifies this`outPos, this`space, dst
      ensures Valid() && space == old(space) + n && outPos == Wrap(old(outPos) + n, buffer.Length)
      ensures Contents() == old(Contents())[n..]
      ensures dst[..at] == old(dst[..at]) && dst[at..at + n] == old(Contents())[..n]
      ensures dst[at + n..] == old(dst[at + n..])
    {
      hide Rem, Text;
      CopyOut(dst, at, n);
      TextTake(buffer[..], outPos, buffer.Length - space, n);
      RemIsWrap(outPos + n, buffer.Length);
      outPos := Rem(outPos + n, buffer.Length);
      space := space + n;
    }

    /** The oldest ones in two blocks, where they go round the end. */
    method TakeTwice(dst: array<char>, tail: nat, n: nat)
      requires Valid() && tail <= n <= buffer.Length - space && n <= dst.Length && dst != buffer
      requires tail == buffer.Length - outPos
      modifies this`outPos, this`space, dst
      ensures Valid() && space == old(space) + n
      ensures Contents() == old(Contents())[n..] && dst[..n] == old(Contents())[..n] && dst[n..] == old(dst[n..])
    {
      hide Text;
      ghost var all, was := Contents(), dst[..];
      Take(dst, 0, tail);
      ghost var mid := dst[..];
      Take(dst, tail, n - tail);
      Joined(all, was, mid, dst[..], tail, n);
    }

    /** rx_buff_deq: at most so many of the oldest. The case of equal positions is the empty ring, because
        this ring never gets full. */
    method Dequeue(pdata: array<char>, data_len: nat) returns (len: nat)
      requires Valid() && space > 0 && data_len <= pdata.Length && pdata != buffer
      modifies this`outPos, this`space, pdata
      ensures Valid() && space >= old(space)
                && len == (if data_len > |old(Contents())| then |old(Contents())| else data_len)
      ensures Contents() == old(Contents())[len..] && pdata[..len] == old(Contents())[..len]
      ensures pdata[len..] == old(pdata[len..])
    {
      var buf_len := buffer.Length - space;
      var tail_len := buffer.Length - outPos;
      len := if data_len > buf_len then buf_len else data_len;
      if outPos <= inPos {
        Take(pdata, 0, len);
      } else if len > tail_len {
        TakeTwice(pdata, tail_len, len);
      } else {
        Take(pdata, 0, len);
      }
    }

    /** tx_fifo_insert: so many of the oldest go to the FIFO, one by one. */
    method FifoInsert(data_len: nat) returns (fifo: string)
      requires Valid() && data_len <= buffer.Length - space
      modifies this`outPos, this`space
      ensures Valid() && space == old(space) + data_len
      ensures fifo == old(Contents())[..data_len] && Contents() == old(Contents())[data_len..]
    {
      hide Rem, Text;
      ghost var all, count, o := Contents(), buffer.Length - space, outPos;
      fifo := "";
      var i := 0;
      while i < data_len
        invariant 0 <= i <= data_len && outPos == Wrap(o + i, buffer.Length) && outPos < buffer.Length
        invariant fifo == all[..i] && space == old(space)
      {
        TextAt(buffer[..], o, count, i);
        fifo := fifo + [buffer[outPos]];
        outPos := outPos + 1;
        if outPos == buffer.Length {
          outPos := 0;
        }
        i := i + 1;
      }
      RemIsWrap(outPos, buffer.Length);
      TextRest(buffer[..], o, count, data_len);
      outPos := Rem(outPos, buffer.Length);
      space := space + data_len;
    }

    /** One character behind count others; space is brought up to date later. */
    method PutByte(c: char, ghost count: nat)
      requires outPos < buffer.Length && inPos < buffer.Length && count < buffer.Length
      requires inPos == Wrap(outPos + count, buffer.Length)
      modifies this`inPos, buffer
      ensures inPos < buffer.Length && inPos == Wrap(outPos + (count + 1), buffer.Length)
      ensures Text(buffer[..], outPos, count + 1) == old(Text(buffer[..], outPos, count)) + [c]
    {
      hide Text;
      ghost var was, at := buffer[..], inPos;
      buffer[inPos] := c;
      assert buffer[at..at + 1] == [c];
      TextPut(was, buffer[..], outPos, count, at, [c]);
      inPos := inPos + 1;
      if inPos == buffer.Length {
        inPos := 0;
      }
    }

    /** The loop of Uart_rx_buff_enq. */
    method PutBytes(fifo: string)
      requires Valid() && |fifo| <= space
      modifies this`inPos, buffer
      ensures inPos < buffer.Length && inPos == Wrap(outPos + (buffer.Length - space + |fifo|), buffer.Length)
      ensures Text(buffer[..], outPos, buffer.Length - space + |fifo|) == old(Contents()) + fifo
    {
      hide Text;
      ghost var count := buffer.Length - space;
      var buf_idx := 0;
      assert fifo[..0] == "";
      while buf_idx < |fifo|
        invariant 0 <= buf_idx <= |fifo| && inPos < buffer.Length
        invariant inPos == Wrap(outPos + (count + buf_idx), buffer.Length)
        invariant Text(buffer[..], outPos, count + buf_idx) == old(Contents()) + fifo[..buf_idx]
      {
        PutByte(fifo[buf_idx], count + buf_idx);
        assert fifo[..buf_idx] + [fifo[buf_idx]] == fifo[..buf_idx + 1];
        buf_idx := buf_idx + 1;
      }
      assert fifo[..|fifo|] == fifo;
    }

    /** Uart_rx_buff_enq: all that the FIFO holds, when that leaves a place free; nothing otherwise. */
    method RxEnqueue(fifo: string) returns (taken: bool)
      requires Valid() && space > 0
      modifies this`inPos, this`space, buffer
      ensures Valid() && space > 0 && taken == (|fifo| < old(space))
      ensures Contents() == if taken then old(Contents()) + fifo else old(Contents())
    {
      hide Text;
      if |fifo| >= space {
        return false;
      }
      PutBytes(fifo);
      space := space - |fifo|;
      taken := true;
    }
  }

  lemma Wrapped(size: nat)
    requires size > 0
    ensures Wrap(size, size) == 0
  {
  }

  lemma TextAt(b: string, out: nat, count: nat, i: nat)
    requires out < |b| && count <= |b| && i < count
    ensures Text(b, out, count)[i] == b[Wrap(out + i, |b|)]
  {
  }

  /** What is left when the first n are taken, wherever that wraps. */
  lemma TextRest(b: string, out: nat, count: nat, n: nat)
    requires out < |b| && n <= count <= |b|
    ensures Wrap(out + n, |b|) < |b|
    ensures Text(b, Wrap(out + n, |b|), count - n) == Text(b, out, count)[n..]
  {
    forall k | 0 <= k < count - n
      ensures Text(b, Wrap(out + n, |b|), count - n)[k] == Text(b, out, count)[n..][k]
    {
      assert Wrap(Wrap(out + n, |b|) + k, |b|) == Wrap(out + (n + k), |b|);
    }
  }
}

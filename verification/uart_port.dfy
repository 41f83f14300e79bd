/** A UART with both rings: nothing that was taken over is lost, changed or reordered, in any mix of calls
    and interrupts. */
module UartPort {
  import opened UartRing

  const TX_SIZE: nat := 256
  const RX_SIZE: nat := 256
  const FIFO_LEN: nat := 128

  /** Taking from the front of what waits and adding it to what is through keeps the two together. */
  lemma MovedOn(through: string, waiting: string)
    ensures forall n :: 0 <= n <= |waiting| ==> through + waiting == through + waiting[..n] + waiting[n..]
  {
    forall n | 0 <= n <= |waiting| ensures through + waiting == through + waiting[..n] + waiting[n..] {
      assert waiting == waiting[..n] + waiting[n..];
    }
  }

  class Port {
    var tx: Ring?
    const rx: Ring
    ghost var accepted: string   // what went into the transmit ring
    ghost var sent: string       // what came out of it
    ghost var received: string   // what went into the receive ring
    ghost var delivered: string  // what came out of it

    ghost predicate Valid()
      reads this, rx, rx.buffer, if tx == null then {} else {tx, tx.buffer}
    {
      && rx.Valid() && rx.space > 0 && received == delivered + rx.Contents()
      && (tx == null ==> accepted == sent)
      && (tx != null ==>
            tx.Valid() && accepted == sent + tx.Contents()
            && tx != rx && tx.buffer != rx.buffer && tx.buffer.Length == TX_SIZE)
    }

    constructor ()
      ensures Valid() && tx == null && accepted == "" && received == ""
      ensures fresh(rx) && fresh(rx.buffer)
    {
      var r := new Ring(RX_SIZE);
      tx, rx := null, r;
      accepted, sent, received, delivered := "", "", "", "";
    }

    /** tx_buff_enq. The first call makes the ring and does not look whether the block fits it: the port stays what
        it is if and only if there was a ring, or the block is no longer than one; then the block is taken over
        whole or not at all. A longer first block is put over its own beginning, or behind the buffer. */
    method TxEnqueue(data: string) returns (taken: bool, inside: bool)
      requires Valid()
      modifies this`tx, this`accepted, if tx == null then {} else {tx, tx.buffer}
      ensures tx != null && (old(tx) != null ==> tx == old(tx))
      ensures inside && Valid() <==> old(tx) != null || |data| <= TX_SIZE
      ensures Valid() && inside ==> taken == (old(tx) == null || |data| <= old(tx.space))
                                    && accepted == if taken then old(accepted) + data else old(accepted)
      ensures old(tx) == null && |data| > TX_SIZE && inside ==> tx.buffer[..] != [] && tx.buffer[0] == data[TX_SIZE]
    {
      if tx == null {
        tx := new Ring(TX_SIZE);
        taken := true;
      } else {
        taken := |data| <= tx.space;
      }
      inside := true;
      if taken {
        ghost var waiting := tx.Contents();
        inside := tx.BufCpy(data);
        accepted := accepted + data;
        assert sent + (waiting + data) == sent + waiting + data;
      }
    }

    /** tx_start_uart_buffer: as much as the FIFO has room for. */
    method TxStart(tx_fifo_len: nat) returns (fifo: string)
      requires Valid() && tx_fifo_len <= FIFO_LEN
      modifies this`sent, if tx == null then {} else {tx}
      ensures Valid() && sent == old(sent) + fifo && |fifo| <= FIFO_LEN - tx_fifo_len
      ensures accepted == old(accepted)
      ensures |fifo| < FIFO_LEN - tx_fifo_len ==> sent == accepted
    {
      var fifo_remain := FIFO_LEN - tx_fifo_len;
      fifo := "";
      if tx != null {
        MovedOn(sent, tx.Contents());
        var data_len := tx.buffer.Length - tx.space;
        var len := if data_len > fifo_remain then fifo_remain else data_len;
        fifo := tx.FifoInsert(len);
        sent := sent + fifo;
        if len == data_len {
          assert sent + "" == sent;
        }
      }
    }

    /** Uart_rx_buff_enq. */
    method RxInterrupt(fifo: string) returns (taken: bool)
      requires Valid()
      modifies this`received, rx`inPos, rx`space, rx.buffer
      ensures taken == (|fifo| < old(rx.space))
      ensures Valid() && received == (if taken then old(received) + fifo else old(received))
                && delivered == old(delivered)
    {
      ghost var waiting := rx.Contents();
      taken := rx.RxEnqueue(fifo);
      if taken {
        received := received + fifo;
        assert delivered + (waiting + fifo) == delivered + waiting + fifo;
      }
    }

    /** rx_buff_deq. */
    method RxRead(pdata: array<char>, data_len: nat) returns (len: nat)
      requires Valid() && data_len <= pdata.Length && pdata != rx.buffer && (tx != null ==> pdata != tx.buffer)
      modifies this`delivered, rx`outPos, rx`space, pdata
      ensures Valid() && received == old(received) && len <= data_len <= pdata.Length
      ensures delivered == old(delivered) + pdata[..len] && (len < data_len ==> delivered == received)
    {
      MovedOn(delivered, rx.Contents());
      len := rx.Dequeue(pdata, data_len);
      delivered := delivered + pdata[..len];
      if len < data_len {
        assert delivered + "" == delivered;
      }
    }
  }

  /** Were the receive ring ever full, with the oldest character not at the front of the buffer, then the
      positions would be equal, and taking all of it in one block would run past the end. */
  lemma FullWouldOverrun(r: Ring)
    requires r.Valid() && r.space == 0 && r.outPos > 0
    ensures r.outPos <= r.inPos && r.outPos + |r.Contents()| > r.buffer.Length
  {
  }
}

/** The byte ring of the MQTT client: a fixed buffer with a read and a write cursor and a fill count. */
module MqttRingBuf {
  type Byte = bv8

  class RingBuf {
    var buf: array?<Byte>  // p_o
    var rd: nat            // p_r - p_o
    var wr: nat            // p_w - p_o
    var fill: int          // fill_cnt

    ghost var contents: seq<Byte>  // the queued bytes, oldest first

    ghost predicate Valid()
      reads this, buf
    {
      && buf != null && buf.Length >= 2
      && rd < buf.Length && wr < buf.Length && 0 <= fill <= buf.Length
      && wr == Slot(fill)
      && |contents| == fill
      && forall i :: 0 <= i < fill ==> contents[i] == buf[Slot(i)]
    }

    /** The index of the i-th byte after the read cursor. */
    ghost function Slot(i: int): int
      requires buf != null
      reads this
    {
      if rd + i < buf.Length then rd + i else rd + i - buf.Length
    }

    ghost function Capacity(): nat
      requires buf != null
      reads this
    {
      buf.Length
    }

    constructor Uninitialised()
      ensures buf == null
    {
      buf := null;
    }

    /** Refuses a missing buffer and a buffer of fewer than two bytes, leaving the ring as it was. */
    method Init(b: array?<Byte>) returns (rc: int)
      modifies this
      ensures b == null || b.Length < 2 ==>
                rc == -1 && buf == old(buf) && rd == old(rd) && wr == old(wr) && fill == old(fill)
                    && contents == old(contents)
      ensures b != null && b.Length >= 2 ==> rc == 0 && Valid() && buf == b && contents == []
    {
      if b == null || b.Length < 2 {
        return -1;
      }
      buf := b;
      rd, wr := 0, 0;
      fill := 0;
      contents := [];
      return 0;
    }

    method Put(c: Byte) returns (rc: int)
      requires Valid()
      modifies this, buf
      ensures Valid() && buf == old(buf)
      ensures rc == if |old(contents)| < Capacity() then 0 else -1
      ensures contents == if rc == 0 then old(contents) + [c] else old(contents)
    {
      if fill >= buf.Length {
        return -1;
      }
      fill := fill + 1;
      buf[wr] := c;
      contents := contents + [c];
      wr := wr + 1;
      if wr >= buf.Length {
        wr := 0;
      }
      return 0;
    }

    method Get() returns (rc: int, c: Byte)
      requires Valid()
      modifies this
      ensures Valid() && buf == old(buf)
      ensures old(contents) == [] ==> rc == -1 && contents == []
      ensures old(contents) != [] ==> rc == 0 && old(contents) == [c] + contents
    {
      if fill <= 0 {
        return -1, 0;
      }
      fill := fill - 1;
      c := buf[rd];
      contents := contents[1..];
      rd := rd + 1;
      if rd >= buf.Length {
        rd := 0;
      }
      return 0, c;
    }
  }
}

/** The buffer a response is collected in, and a chunked body decoded in it. */
module HttpResponse {
  import opened HttpStrtol
  import opened HttpChunked

  const BUFFER_SIZE_MAX: nat := 0x2000

  /** What a packet makes of the buffer's contents, terminator included. */
  function Received(b: string, data: string): (r: string)
    requires b != ""
    ensures r != "" && (b[|b| - 1] == '\0' ==> r[|r| - 1] == '\0')
  {
    if |b| + |data| > BUFFER_SIZE_MAX then b[0 := '\0'] else b[..|b| - 1] + data + "\0"
  }

  function ReceivedAll(b: string, packets: seq<string>): (r: string)
    requires b != ""
    ensures r != ""
    decreases |packets|
  {
    if packets == [] then b else ReceivedAll(Received(b, packets[0]), packets[1..])
  }

  function Total(packets: seq<string>): string
    decreases |packets|
  {
    if packets == [] then "" else packets[0] + Total(packets[1..])
  }

  /** Packets that fit together are collected as one text. */
  lemma {:induction false} PacketsCollected(text: string, packets: seq<string>)
    requires |text| + |Total(packets)| + 1 <= BUFFER_SIZE_MAX
    ensures ReceivedAll(text + "\0", packets) == text + Total(packets) + "\0"
    decreases |packets|
  {
    if packets == [] {
      assert text + "" == text;
    } else {
      var b := text + "\0";
      assert b[..|b| - 1] == text;
      PacketsCollected(text + packets[0], packets[1..]);
      assert text + packets[0] + Total(packets[1..]) == text + (packets[0] + Total(packets[1..]));
    }
  }

  /** Once something was received, a packet that does not fit discards the response for good. */
  lemma {:induction false} DiscardedStays(b: string, packets: seq<string>)
    requires |b| >= 2 && b[0] == '\0'
    ensures ReceivedAll(b, packets)[0] == '\0'
    decreases |packets|
  {
    if packets != [] {
      DiscardedStays(Received(b, packets[0]), packets[1..]);
    }
  }

  /** As the very first packet it is only forgotten: what follows is taken for the response. So a packet
      too large for the buffer is marked in the result, whatever follows, just when it was not the first. */
  lemma DiscardIsFinal(b: string, big: string)
    requires b != "" && b[|b| - 1] == '\0' && |b| + |big| > BUFFER_SIZE_MAX
    ensures (forall packets :: ReceivedAll(b, [big] + packets)[0] == '\0') <==> |b| >= 2
  {
    var c := b[0 := '\0'];
    forall packets: seq<string> ensures ReceivedAll(b, [big] + packets) == ReceivedAll(c, packets) {
      assert ([big] + packets)[0] == big && ([big] + packets)[1..] == packets;
    }
    if |b| >= 2 {
      forall packets: seq<string> ensures ReceivedAll(b, [big] + packets)[0] == '\0' {
        DiscardedStays(c, packets);
      }
    } else {
      var packets := ["H"];
      assert packets[1..] == [];
      assert ReceivedAll(c, packets) == Received(c, "H");
      assert Received(c, "H")[0] == 'H';
      assert ReceivedAll(b, [big] + packets)[0] == 'H';
    }
  }

  function Zeros(n: nat): (z: string)
    ensures |z| == n
  {
    seq(n, i => '\0')
  }

  lemma ZerosAre(z: string)
    requires forall i :: 0 <= i < |z| ==> z[i] == '\0'
    ensures z == Zeros(|z|)
  {
  }

  lemma ZerosTail(n: nat, k: nat)
    requires k <= n
    ensures Zeros(n)[k..] == Zeros(n - k)
  {
  }

  /** The chunked body in a buffer, up to the terminator. */
  function BodyOf(b: string, body: nat): (d: Decoded)
    requires body < |b|
    ensures d.Decoded? ==> |d.data| < |b| - body
  {
    Decode(b[body..|b| - 1])
  }

  /** The decoded data in its place, and zeros up to the end. */
  function Replaced(b: string, body: nat): (r: string)
    requires body < |b| && BodyOf(b, body).Decoded?
    ensures |r| == |b|
  {
    b[..body] + BodyOf(b, body).data + Zeros(|b| - body - |BodyOf(b, body).data|)
  }

  class Response {
    var buffer: array<char>
    var buffer_size: nat

    ghost predicate Valid()
      reads this, buffer
    {
      buffer_size == buffer.Length >= 1 && buffer[buffer_size - 1] == '\0'
    }

    constructor ()
      ensures Valid() && fresh(buffer) && buffer[..] == "\0"
    {
      buffer, buffer_size := new char[1](i => '\0'), 1;
    }

    /** http_receive_callback. */
    method Receive(buf: string)
      requires Valid()
      modifies this, buffer
      ensures Valid() && buffer[..] == Received(old(buffer[..]), buf)
      ensures buffer == old(buffer) || fresh(buffer)
    {
      var new_size := buffer_size + |buf|;
      if new_size > BUFFER_SIZE_MAX {
        buffer[0] := '\0';
        return;
      }
      ghost var was := buffer[..];
      var new_buffer := new char[new_size];
      forall i | 0 <= i < buffer_size {
        new_buffer[i] := buffer[i];
      }
      assert new_buffer[..buffer_size - 1] == was[..buffer_size - 1];
      forall i | 0 <= i < |buf| {
        new_buffer[buffer_size - 1 + i] := buf[i];
      }
      new_buffer[new_size - 1] := '\0';
      assert new_buffer[..] == was[..buffer_size - 1] + buf + "\0";
      buffer, buffer_size := new_buffer, new_size;
    }

    /** The part of the disconnect callback that decodes a chunked body where it is: the decoded data,
        and zeros up to the end of the buffer. False where the decoder would leave the text. */
    method DecodeBody(body: nat) returns (ok: bool)
      requires Valid() && body < buffer_size
      modifies buffer
      ensures ok == BodyOf(old(buffer[..]), body).Decoded?
      ensures ok ==> buffer[..] == Replaced(old(buffer[..]), body)
    {
      hide Decode, Zeros, BodyOf, Replaced;
      ghost var was := buffer[..];
      var body_size := buffer_size - body;
      var decoded := new char[body_size](i => '\0');
      ZerosAre(decoded[..]);
      var text := buffer[body..buffer_size - 1];
      BodyText(was, body, text);
      var j;
      j, ok := ChunkedDecode(text, decoded);
      if ok {
        ghost var out := decoded[..];
        CopyBack(body, decoded);
        Reassembled(was, body, out, buffer[..]);
      }
    }

    method CopyBack(body: nat, decoded: array<char>)
      requires Valid() && body + decoded.Length == buffer_size && decoded != buffer
      modifies buffer
      ensures buffer[..] == old(buffer[..body]) + decoded[..]
    {
      forall i | 0 <= i < decoded.Length {
        buffer[body + i] := decoded[i];
      }
      assert buffer[body..] == decoded[..];
    }
  }

  lemma BodyText(b: string, body: nat, text: string)
    requires body < |b| && text == b[body..|b| - 1]
    ensures BodyOf(b, body) == Decode(text)
  {
    hide Decode;
  }

  lemma Reassembled(was: string, body: nat, out: string, now: string)
    requires body < |was| && BodyOf(was, body).Decoded? && now == was[..body] + out
    requires var d := BodyOf(was, body).data; out == d + Zeros(|was| - body)[|d|..]
    ensures now == Replaced(was, body)
  {
    hide BodyOf, Zeros;
    ZerosTail(|was| - body, |BodyOf(was, body).data|);
  }

  /** A response whose body is well-formed chunks: after decoding the body is the data of the chunks. */
  method DecodeResponse(r: Response, body: nat, ghost cs: seq<Chunk>, ghost last: string, ghost zeros: string,
                        ghost ext: string, ghost rest: string)
    requires r.Valid() && body < r.buffer_size && (forall i :: 0 <= i < |cs| ==> ChunkOk(cs[i]))
    requires LastOk(last, zeros, ext, rest) && r.buffer[body..r.buffer_size - 1] == Encode(cs) + last
    modifies r.buffer
    ensures |Joined(cs)| < r.buffer_size - body
    ensures r.buffer[..body] == old(r.buffer[..body]) && r.buffer[body..body + |Joined(cs)|] == Joined(cs)
    ensures forall i :: body + |Joined(cs)| <= i < r.buffer_size ==> r.buffer[i] == '\0'
  {
    hide Decode, Encode, Joined, ChunkOk, LastOk;
    ghost var was := r.buffer[..];
    assert was[body..|was| - 1] == Encode(cs) + last;
    DecodeEncoded(cs, last, zeros, ext, rest);
    var ok := r.DecodeBody(body);
    ghost var now := r.buffer[..];
    assert now[..body] == was[..body];
    assert now[body..body + |Joined(cs)|] == Joined(cs);
  }
}

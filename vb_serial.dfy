/**
 * Length-prefixed packet framing over a byte channel whose reads may come back
 * short or fail (xfertest/src/vb_serial.rs).
 */
module VbSerial {
  import opened Bytes
  import opened Results

  /** The largest payload one frame can carry: the length byte holds `len - 1`. */
  const MaxPacketLen: nat := 256

  /** The wire form of a packet: a length byte `len - 1`, then the payload. */
  function Frame(packet: seq<byte>): (f: seq<byte>)
    requires 1 <= |packet| <= MaxPacketLen
    ensures |f| == |packet| + 1
    ensures f[0] as int + 1 == |packet|
    ensures f[1..] == packet
  {
    LenByteValue(|packet|);
    [(|packet| - 1) as byte] + packet
  }

  /** `(len - 1) as u8` keeps its value for every frameable length. */
  lemma LenByteValue(len: int)
    requires 1 <= len <= MaxPacketLen
    ensures ((len - 1) as byte) as int == len - 1
  {
  }

  /** Whether `stream` starts with a whole frame: a length byte and that many
    * plus one payload bytes. */
  predicate HasFrame(stream: seq<byte>)
  {
    |stream| >= 1 && |stream| >= stream[0] as int + 2
  }

  /** The payload of the frame `stream` starts with, and what follows it. */
  function Unframe(stream: seq<byte>): (r: Option<(seq<byte>, seq<byte>)>)
    ensures r.Some? <==> HasFrame(stream)
    ensures r.Some? ==> 1 <= |r.value.0| <= MaxPacketLen && Frame(r.value.0) + r.value.1 == stream
  {
    if HasFrame(stream) then
      var n := stream[0] as int + 1;
      assert stream == [stream[0]] + stream[1..n + 1] + stream[n + 1..];
      Some((stream[1..n + 1], stream[n + 1..]))
    else
      None
  }

  /** Framing round trip: the length byte read back plus one recovers the
    * packet's length, and the payload and what follows are recovered intact. */
  lemma UnframeFrame(packet: seq<byte>, rest: seq<byte>)
    requires 1 <= |packet| <= MaxPacketLen
    ensures Unframe(Frame(packet) + rest) == Some((packet, rest))
  {
    var s := Frame(packet) + rest;
    assert s[1..|packet| + 1] == packet;
    assert s[|packet| + 1..] == rest;
  }

  /** What one `read` call on the channel does: fail, or deliver some bytes
    * (at most as many as asked for; the surplus stays for the next read). */
  datatype ReadChunk = ReadFailed | Delivered(bytes: seq<byte>)

  /** The bytes a sequence of reads delivers, in order. */
  function Stream(script: seq<ReadChunk>): seq<byte>
  {
    if script == [] then []
    else (if script[0].Delivered? then script[0].bytes else []) + Stream(script[1..])
  }

  /** What `exchange_packet` ends in: a received packet, the panic it raises on
    * a packet it cannot frame, or a channel that stops delivering before the
    * reply is complete (on which the source would block for ever). */
  datatype Exchange = Received(packet: seq<byte>) | Panicked | Stalled

  /** A `Read + Write` channel: what has been written to it, and the results
    * its remaining reads will have. */
  class Port {
    var written: seq<byte>
    var script: seq<ReadChunk>

    constructor(script: seq<ReadChunk>)
      ensures written == [] && this.script == script
    {
      written := [];
      this.script := script;
    }

    /** `write_all`. */
    method Write(buf: seq<byte>)
      modifies this
      ensures written == old(written) + buf && script == old(script)
    {
      written := written + buf;
    }

    /** `read(&mut buf[from..])`. */
    method Read(buf: array<byte>, from: nat) returns (r: Result<nat, ()>)
      requires from <= buf.Length
      requires script != []
      modifies this, buf
      ensures written == old(written)
      ensures r.Ok? <==> old(script)[0].Delivered?
      ensures r.Err? ==> script == old(script)[1..] && buf[..] == old(buf[..])
      ensures r.Ok? ==>
        var bs := old(script)[0].bytes;
        && r.value == (if |bs| < buf.Length - from then |bs| else buf.Length - from)
        && buf[..] == old(buf[..from]) + bs[..r.value] + old(buf[from + r.value..])
        && script == (if r.value < |bs| then [Delivered(bs[r.value..])] else []) + old(script)[1..]
    {
      match script[0]
      case ReadFailed =>
        r := Err(());
        script := script[1..];
      case Delivered(bs) =>
        var n := if |bs| < buf.Length - from then |bs| else buf.Length - from;
        forall k | from <= k < from + n {
          buf[k] := bs[k - from];
        }
        assert buf[..] == old(buf[..from]) + bs[..n] + old(buf[from + n..]);
        script := (if n < |bs| then [Delivered(bs[n..])] else []) + script[1..];
        r := Ok(n);
    }
  }

  lemma StreamCons(c: ReadChunk, rest: seq<ReadChunk>)
    ensures Stream([c] + rest) == (if c.Delivered? then c.bytes else []) + Stream(rest)
  {
    assert ([c] + rest)[1..] == rest;
  }

  /** One read that delivered `n` leading bytes of `bs` keeps "what is in the
    * buffer, then what the remaining reads deliver" the same. */
  lemma DeliveredStep(before: seq<byte>, bs: seq<byte>, n: nat, tail: seq<ReadChunk>)
    requires n <= |bs|
    ensures var rest := (if n < |bs| then [Delivered(bs[n..])] else []) + tail;
      (before + bs[..n]) + Stream(rest) == before + Stream([Delivered(bs)] + tail)
  {
    StreamCons(Delivered(bs), tail);
    if n < |bs| {
      StreamCons(Delivered(bs[n..]), tail);
      assert bs == bs[..n] + bs[n..];
    } else {
      assert bs[..n] == bs;
      assert [] + tail == tail;
    }
  }

  /** `blocking_read`: fills `buf` from the channel, retrying failed and short
    * reads until it is full. Returns false only when the channel has no more
    * reads to give (the source would spin for ever there). */
  method BlockingRead(port: Port, buf: array<byte>) returns (full: bool)
    modifies port, buf
    ensures port.written == old(port.written)
    ensures buf.Length > 0 ==> (full <==> |Stream(old(port.script))| >= buf.Length)
    // the buffer holds the leading bytes of what the successful reads
    // delivered, in order, and the rest stays for later reads
    ensures full ==> buf[..] + Stream(port.script) == Stream(old(port.script))
  {
    ghost var stream := Stream(port.script);
    var readOffset := 0;
    while true
      invariant readOffset <= buf.Length
      invariant buf.Length > 0 ==> readOffset < buf.Length
      invariant port.written == old(port.written)
      invariant buf[..readOffset] + Stream(port.script) == stream
      decreases |port.script|
    {
      if port.script == [] {
        assert buf[..readOffset] + [] == stream;
        return false;
      }
      ghost var before := buf[..readOffset];
      ghost var head := port.script[0];
      ghost var tail := port.script[1..];
      assert port.script == [head] + tail;
      var r := port.Read(buf, readOffset);
      if r.Err? {
        StreamCons(head, tail);
        assert buf[..readOffset] == before;
      } else {
        var n := r.value;
        assert buf[..readOffset + n] == before + head.bytes[..n];
        DeliveredStep(before, head.bytes, n, tail);
        readOffset := readOffset + n;
        if readOffset == buf.Length {
          assert buf[..] == buf[..readOffset];
          return true;
        }
      }
    }
  }

  /** `blocking_read_byte`: the next byte of the channel, or None when the
    * channel runs out first. */
  method BlockingReadByte(port: Port) returns (b: Option<byte>)
    modifies port
    ensures port.written == old(port.written)
    ensures b.Some? <==> Stream(old(port.script)) != []
    ensures b.Some? ==> Stream(old(port.script)) == [b.value] + Stream(port.script)
  {
    var buf := new byte[1];
    var ok := BlockingRead(port, buf);
    if !ok {
      return None;
    }
    assert buf[..] == [buf[0]];
    b := Some(buf[0]);
  }

  /** `exchange_packet`: sends `packet` framed, then reads back one framed reply. */
  method ExchangePacket(port: Port, packet: seq<byte>) returns (r: Exchange)
    modifies port
    ensures r.Panicked? <==> |packet| == 0 || |packet| > MaxPacketLen
    ensures r.Panicked? ==> port.written == old(port.written) && port.script == old(port.script)
    // the bytes written are exactly the length byte and the packet
    ensures !r.Panicked? ==> port.written == old(port.written) + Frame(packet)
    // the reply is the frame the incoming stream starts with, and the reads
    // after it are left for later
    ensures r.Received? ==>
      && 1 <= |r.packet| <= MaxPacketLen
      && Stream(old(port.script)) == Frame(r.packet) + Stream(port.script)
      && Unframe(Stream(old(port.script))) == Some((r.packet, Stream(port.script)))
    // it stalls only when the incoming stream holds no whole frame
    ensures r.Stalled? ==> Unframe(Stream(old(port.script))) == None
  {
    if |packet| == 0 {
      return Panicked;
    } else if |packet| > MaxPacketLen {
      return Panicked;
    }

    // Send packet
    var packetLen := (|packet| - 1) as byte;
    port.Write([packetLen] + packet);

    // Receive length
    ghost var stream := Stream(port.script);
    var lenByte := BlockingReadByte(port);
    if lenByte.None? {
      return Stalled;
    }
    var receivedLen := lenByte.value as int + 1;
    ghost var afterLen := Stream(port.script);

    // Receive data bytes
    var receivedPacket := new byte[receivedLen];
    var ok := BlockingRead(port, receivedPacket);
    if !ok {
      assert |afterLen| < receivedLen;
      assert !HasFrame(stream);
      return Stalled;
    }
    assert afterLen == receivedPacket[..] + Stream(port.script);
    assert stream == Frame(receivedPacket[..]) + Stream(port.script);
    UnframeFrame(receivedPacket[..], Stream(port.script));
    r := Received(receivedPacket[..]);
  }
}

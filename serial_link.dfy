/**
 * The console side of the link protocol in the serial test ROM
 * (serialtest/testrom.c): the packet receive and send routines that a
 * `linkTransferByte` primitive drives one byte exchange at a time.
 */
module SerialLink {
  import opened Bytes
  import opened Results
  import Crapsum

  /** The routines' results `LINK_OK` and `LINK_ERR`. */
  const LinkOk: int := 0
  const LinkErr: int := -1

  const MaxHandshakeTries: nat := 20
  const ReceiveHandshake: byte := 0xaa
  const SendHandshake: byte := 0x55
  const MaxPacketLen: nat := 256

  /** What one `linkTransferByte` returns: `LINK_ERR` when the link port does
    * not finish the exchange in time, otherwise the byte received (an `int`
    * in 0..255 in the source). */
  datatype Transfer = TransferFailed | Transferred(value: byte)

  /** What transfer `j` of the link script returns: transfers past its end
    * time out. */
  function At(link: seq<Transfer>, j: nat): (t: Transfer)
    ensures j >= |link| ==> t == TransferFailed
  {
    if j < |link| then link[j] else TransferFailed
  }

  /** `linkUpdateCrapsum`. C gives `^` priority over `|`, so the step is
    * `(s << 3) | ((s >> 29) ^ byte)`, with the byte zero-extended to 32 bits:
    * the same step as the host side's checksum. */
  function LinkUpdateCrapsum(state: word, b: byte): (r: word)
    ensures r == Crapsum.Step(state, b)
  {
    (state << 3) | ((state >> 29) ^ (b as word))
  }

  /** How a handshake loop ends: whether the handshake byte arrived, and the
    * transfer after its last one. */
  datatype Handshook = Handshook(matched: bool, next: nat)

  /** A handshake loop from transfer `pos` on, after `tries` misses: each try
    * transfers 0x00; a failed transfer ends it, receiving `hs` ends it
    * successfully, and `MAX_HANDSHAKE_TRIES` misses in all end it. */
  function HandshakeRun(link: seq<Transfer>, pos: nat, hs: byte, tries: nat): (r: Handshook)
    requires tries < MaxHandshakeTries
    ensures pos < r.next <= pos + (MaxHandshakeTries - tries)
    decreases MaxHandshakeTries - tries
  {
    if At(link, pos).TransferFailed? then Handshook(false, pos + 1)
    else if At(link, pos).value == hs then Handshook(true, pos + 1)
    else if tries + 1 >= MaxHandshakeTries then Handshook(false, pos + 1)
    else HandshakeRun(link, pos + 1, hs, tries + 1)
  }

  /** Whether transfer `j` delivered a byte other than `hs`. */
  predicate Missed(link: seq<Transfer>, hs: byte, j: nat)
  {
    At(link, j).Transferred? && At(link, j).value != hs
  }

  /** Every try before the last delivered a byte other than `hs`; the loop
    * succeeds exactly when the last try delivered `hs`, and it fails on a
    * failed transfer or after all tries left have missed. */
  lemma {:induction false} HandshakeOutcome(link: seq<Transfer>, pos: nat, hs: byte, tries: nat)
    requires tries < MaxHandshakeTries
    ensures var h := HandshakeRun(link, pos, hs, tries);
      && (forall j :: pos <= j < h.next - 1 ==> Missed(link, hs, j))
      && (h.matched <==> At(link, h.next - 1) == Transferred(hs))
      && (!h.matched ==> At(link, h.next - 1).TransferFailed? || h.next == pos + (MaxHandshakeTries - tries))
    decreases MaxHandshakeTries - tries
  {
    if !At(link, pos).TransferFailed? && At(link, pos).value != hs && tries + 1 < MaxHandshakeTries {
      HandshakeOutcome(link, pos + 1, hs, tries + 1);
    }
  }

  /** The loop after `k` misses is the loop from `k` transfers later. */
  lemma {:induction false} HandshakeAfterMisses(link: seq<Transfer>, pos: nat, hs: byte, tries: nat, k: nat)
    requires tries + k < MaxHandshakeTries
    requires forall j :: pos <= j < pos + k ==> Missed(link, hs, j)
    ensures HandshakeRun(link, pos, hs, tries) == HandshakeRun(link, pos + k, hs, tries + k)
    decreases k
  {
    if k > 0 {
      assert Missed(link, hs, pos);
      HandshakeAfterMisses(link, pos + 1, hs, tries + 1, k - 1);
    }
  }

  /** How many of the `n` transfers from `pos` on deliver a byte before the
    * first one that fails. */
  function Delivered(link: seq<Transfer>, pos: nat, n: nat): (k: nat)
    ensures k <= n
    decreases n
  {
    if n == 0 || At(link, pos).TransferFailed? then 0 else 1 + Delivered(link, pos + 1, n - 1)
  }

  /** `Delivered` is the position of the first failed transfer, or `n`. */
  lemma {:induction false} DeliveredIsFirstFailure(link: seq<Transfer>, pos: nat, n: nat, k: nat)
    requires k <= n
    ensures Delivered(link, pos, n) == k <==>
      (forall j :: pos <= j < pos + k ==> At(link, j).Transferred?) && (k < n ==> At(link, pos + k).TransferFailed?)
    decreases n
  {
    if n > 0 && At(link, pos).Transferred? {
      if k > 0 {
        DeliveredIsFirstFailure(link, pos + 1, n - 1, k - 1);
      } else {
        assert Delivered(link, pos, n) != 0;
      }
    }
  }

  /** The byte a transfer delivered (0 for a failed one, which is never stored). */
  function ByteOf(t: Transfer): byte
  {
    if t.Transferred? then t.value else 0
  }

  /** The bytes the `k` transfers from `pos` on delivered. */
  function Values(link: seq<Transfer>, pos: nat, k: nat): (r: seq<byte>)
    ensures |r| == k
  {
    if k == 0 then [] else Values(link, pos, k - 1) + [ByteOf(At(link, pos + k - 1))]
  }

  /** Value `i` of them is the byte transfer `pos + i` delivered. */
  lemma {:induction false} ValuesAt(link: seq<Transfer>, pos: nat, k: nat)
    ensures forall i :: 0 <= i < k ==> Values(link, pos, k)[i] == ByteOf(At(link, pos + i))
  {
    if k > 0 {
      ValuesAt(link, pos, k - 1);
    }
  }

  /** `k` as the `u8` that `linkTransferByte(k)` receives, counted up in
    * 8-bit arithmetic. */
  function Count8(k: nat): byte
  {
    if k == 0 then 0 else Count8(k - 1) + 1
  }

  /** Counting up in 8 bits is the conversion of `k` to `u8`. */
  lemma {:induction false} Count8Value(k: nat)
    ensures Count8(k) as int == k % 256
  {
    if k > 0 {
      Count8Value(k - 1);
      ModSucc(k - 1);
      var c := Count8(k - 1);
      if c == 0xFF {
        assert Count8(k) == 0;
      } else {
        ByteSucc(c);
      }
    }
  }

  /** Counting on by one modulo 256. */
  lemma ModSucc(k: nat)
    ensures (k + 1) % 256 == if k % 256 == 255 then 0 else k % 256 + 1
  {
  }

  /** Adding one to a byte below 255 adds one to its value. */
  lemma ByteSucc(c: byte)
    requires c != 0xFF
    ensures (c + 1) as int == c as int + 1
  {
  }

  /** The counters `0, 1, …, m - 1` the receive loop sends, as `u8`s. */
  function Counter(m: nat): (r: seq<byte>)
    ensures |r| == m
  {
    if m == 0 then [] else Counter(m - 1) + [Count8(m - 1)]
  }

  /** Counter `i` is `i` as a `u8`. */
  lemma {:induction false} CounterAt(m: nat, i: nat)
    requires i < m
    ensures Counter(m)[i] == Count8(i)
  {
    if i < m - 1 {
      CounterAt(m - 1, i);
    }
  }

  /** One more byte received extends the received bytes and their sum. */
  lemma ReceiveStep(link: seq<Transfer>, pos: nat, i: nat, crapsum: word)
    requires At(link, pos + i).Transferred?
    ensures Values(link, pos, i + 1) == Values(link, pos, i) + [At(link, pos + i).value]
    ensures Crapsum.Fold(crapsum, Values(link, pos, i + 1))
      == Crapsum.Step(Crapsum.Fold(crapsum, Values(link, pos, i)), At(link, pos + i).value)
  {
    Crapsum.FoldAppend(crapsum, Values(link, pos, i), [At(link, pos + i).value]);
  }

  /** Two single bytes and then `rest`, appended one after the other. */
  lemma TwoThenRest(t: seq<byte>, x: byte, y: byte, rest: seq<byte>)
    ensures t + [x] + [y] + rest == t + ([x, y] + rest)
  {
  }

  function Min(a: nat, b: nat): nat
  {
    if a < b then a else b
  }

  /** What `linkReceivePacket` does from transfer `pos` on: its result, the
    * bytes it transfers, what it leaves in `receivePacketLen` (None: not
    * assigned), and the bytes it stores in the buffer and sums. */
  datatype ReceiveRun = ReceiveRun(result: int, sent: seq<byte>, len: Option<int>, data: seq<byte>)

  /** The packet length a length byte announces: the byte plus one. */
  function PacketLen(lengthByte: byte): (n: int)
    ensures 1 <= n <= MaxPacketLen
  {
    lengthByte as int + 1
  }

  /** The receive routine after its echo, from the length transfer at `q`.
    * A failed length transfer stores `LINK_ERR` in `receivePacketLen` and
    * returns `LINK_ERR`. */
  function ReceiveTail(link: seq<Transfer>, q: nat): (r: ReceiveRun)
  {
    if At(link, q).TransferFailed? then ReceiveRun(LinkErr, [0xff], Some(LinkErr), [])
    else
      var n := PacketLen(At(link, q).value);
      var k := Delivered(link, q + 1, n);
      ReceiveRun(if k == n then LinkOk else LinkErr, [0xff] + Counter(Min(k + 1, n)), Some(n), Values(link, q + 1, k))
  }

  /** The receive routine after the handshake, from the echo at transfer `p`. */
  function ReceiveBody(link: seq<Transfer>, p: nat): (r: ReceiveRun)
  {
    if At(link, p).TransferFailed? then ReceiveRun(LinkErr, [ReceiveHandshake], None, [])
    else
      var tail := ReceiveTail(link, p + 1);
      ReceiveRun(tail.result, [ReceiveHandshake] + tail.sent, tail.len, tail.data)
  }

  function ReceiveSpec(link: seq<Transfer>, pos: nat): (r: ReceiveRun)
  {
    var h := HandshakeRun(link, pos, ReceiveHandshake, 0);
    if !h.matched then ReceiveRun(LinkErr, Repeat(0x00, h.next - pos), None, [])
    else
      var body := ReceiveBody(link, h.next);
      ReceiveRun(body.result, Repeat(0x00, h.next - pos) + body.sent, body.len, body.data)
  }

  /** After the handshake, a receive succeeds exactly when the echo, the
    * length and every packet byte transfer; it then holds the length byte
    * plus one, in 1..256, the packet bytes in the order they arrived, and
    * has sent the echo, `0xff` and the counters `0, 1, …`. */
  lemma ReceiveBodyOkIff(link: seq<Transfer>, p: nat)
    ensures var body := ReceiveBody(link, p);
      && (body.result == LinkOk || body.result == LinkErr)
      && (body.result == LinkOk <==>
          && At(link, p).Transferred? && At(link, p + 1).Transferred?
          && forall j :: p + 2 <= j < p + 2 + PacketLen(At(link, p + 1).value) ==> At(link, j).Transferred?)
      && (body.result == LinkOk ==>
          var n := PacketLen(At(link, p + 1).value);
          && body.len == Some(n)
          && 1 <= n <= MaxPacketLen
          && body.data == Values(link, p + 2, n)
          && body.sent == [ReceiveHandshake, 0xff] + Counter(n))
  {
    if At(link, p).Transferred? && At(link, p + 1).Transferred? {
      var n := PacketLen(At(link, p + 1).value);
      var k := Delivered(link, p + 2, n);
      DeliveredIsFirstFailure(link, p + 2, n, k);
      DeliveredIsFirstFailure(link, p + 2, n, n);
      AppendAssoc([ReceiveHandshake], [0xff], Counter(Min(k + 1, n)));
    }
  }

  /** A receive succeeds exactly when the handshake arrives and the echo, the
    * length and every packet byte transfer; it then holds the length byte
    * plus one, in 1..256, the packet bytes in the order they arrived, and
    * has sent the handshake tries, the echo, `0xff` and the counters
    * `0, 1, …` in order. */
  lemma ReceiveOkIff(link: seq<Transfer>, pos: nat)
    ensures var h := HandshakeRun(link, pos, ReceiveHandshake, 0);
      var run := ReceiveSpec(link, pos);
      && (run.result == LinkOk || run.result == LinkErr)
      && (run.result == LinkOk <==>
          && h.matched && At(link, h.next).Transferred? && At(link, h.next + 1).Transferred?
          && forall j :: h.next + 2 <= j < h.next + 2 + PacketLen(At(link, h.next + 1).value) ==> At(link, j).Transferred?)
      && (run.result == LinkOk ==>
          var n := PacketLen(At(link, h.next + 1).value);
          && run.len == Some(n)
          && 1 <= n <= MaxPacketLen
          && run.data == Values(link, h.next + 2, n)
          && run.sent == Repeat(0x00, h.next - pos) + [ReceiveHandshake, 0xff] + Counter(n))
  {
    var h := HandshakeRun(link, pos, ReceiveHandshake, 0);
    ReceiveOfStages(link, pos, h);
    if h.matched {
      var body := ReceiveBody(link, h.next);
      ReceiveBodyOkIff(link, h.next);
      if body.result == LinkOk {
        var n := PacketLen(At(link, h.next + 1).value);
        AppendAssoc(Repeat(0x00, h.next - pos), [ReceiveHandshake, 0xff], Counter(n));
      }
    }
  }

  /** The receive routine exactly as written: the bare `return;` after a
    * failed length transfer leaves the result register holding whatever it
    * held, `garbage` here. */
  function ReceiveResultAsWritten(link: seq<Transfer>, pos: nat, garbage: int): int
  {
    var h := HandshakeRun(link, pos, ReceiveHandshake, 0);
    if h.matched && At(link, h.next).Transferred? && At(link, h.next + 1).TransferFailed? then garbage
    else ReceiveSpec(link, pos).result
  }

  /** A link that echoes the handshake and then fails the length transfer. */
  const LengthLost: seq<Transfer> := [Transferred(ReceiveHandshake), Transferred(ReceiveHandshake)]

  /** As written, the receive can report `LINK_OK` with no packet at all:
    * `receivePacketLen` is `LINK_ERR` and nothing was received. */
  lemma BareReturnCanReportSuccess()
    ensures ReceiveResultAsWritten(LengthLost, 0, LinkOk) == LinkOk
    ensures ReceiveSpec(LengthLost, 0).len == Some(LinkErr)
    ensures ReceiveSpec(LengthLost, 0).data == []
    ensures ReceiveSpec(LengthLost, 0).result == LinkErr
  {
    assert HandshakeRun(LengthLost, 0, ReceiveHandshake, 0) == Handshook(true, 1);
  }

  /** What `linkSendPacket` does from transfer `pos` on: its result, the
    * bytes it transfers, and the bytes summed into `sendPacketCrapsum`
    * (None: the checksum is not reset). */
  datatype SendRun = SendRun(result: int, sent: seq<byte>, summed: Option<seq<byte>>)

  /** The send routine after the handshake, from the echo at transfer `p`. */
  function SendBody(link: seq<Transfer>, p: nat, packet: seq<byte>): (r: SendRun)
    requires 1 <= |packet| <= MaxPacketLen
    ensures r.summed.Some?
  {
    var lenByte := (|packet| - 1) as byte;
    if At(link, p).TransferFailed? then SendRun(LinkErr, [SendHandshake], Some([]))
    else if At(link, p + 1).TransferFailed? then SendRun(LinkErr, [SendHandshake, lenByte], Some([]))
    else
      var k := Delivered(link, p + 2, |packet|);
      SendRun(if k == |packet| then LinkOk else LinkErr,
        [SendHandshake, lenByte] + packet[..Min(k + 1, |packet|)], Some(packet[..k]))
  }

  function SendSpec(link: seq<Transfer>, pos: nat, packetBuffer: seq<byte>, packetLen: int): (r: SendRun)
    requires packetLen < 1 || packetLen > MaxPacketLen || packetLen <= |packetBuffer|
  {
    if packetLen < 1 || packetLen > MaxPacketLen then SendRun(LinkErr, [], None)
    else
      var h := HandshakeRun(link, pos, SendHandshake, 0);
      if !h.matched then SendRun(LinkErr, Repeat(0x00, h.next - pos), Some([]))
      else
        var body := SendBody(link, h.next, packetBuffer[..packetLen]);
        SendRun(body.result, Repeat(0x00, h.next - pos) + body.sent, body.summed)
  }

  /** After the handshake, a send succeeds exactly when the echo, the
    * length byte and every packet byte transfer; it then has transferred
    * the echo, `|packet| - 1` and the packet, and summed the whole packet. */
  lemma SendBodyOkIff(link: seq<Transfer>, p: nat, packet: seq<byte>)
    requires 1 <= |packet| <= MaxPacketLen
    ensures var body := SendBody(link, p, packet);
      && (body.result == LinkOk || body.result == LinkErr)
      && (body.result == LinkOk <==>
          && At(link, p).Transferred? && At(link, p + 1).Transferred?
          && forall j :: p + 2 <= j < p + 2 + |packet| ==> At(link, j).Transferred?)
      && (body.result == LinkOk ==>
          && body.sent == [SendHandshake, (|packet| - 1) as byte] + packet
          && body.summed == Some(packet))
  {
    if At(link, p).Transferred? && At(link, p + 1).Transferred? {
      var k := Delivered(link, p + 2, |packet|);
      DeliveredIsFirstFailure(link, p + 2, |packet|, k);
      DeliveredIsFirstFailure(link, p + 2, |packet|, |packet|);
      assert packet[..|packet|] == packet;
    }
  }

  /** A length outside 1..256 is refused before any transfer, and a send
    * succeeds exactly when the handshake arrives and the echo, the length
    * byte and every packet byte transfer; it then has transferred the
    * handshake tries, the echo, `packetLen - 1` and the packet in order, and
    * summed the whole packet. */
  lemma SendOkIff(link: seq<Transfer>, pos: nat, packetBuffer: seq<byte>, packetLen: int)
    requires packetLen < 1 || packetLen > MaxPacketLen || packetLen <= |packetBuffer|
    ensures var run := SendSpec(link, pos, packetBuffer, packetLen);
      && (packetLen < 1 || packetLen > MaxPacketLen ==> run.result == LinkErr && run.sent == [] && run.summed == None)
      && (run.result == LinkOk || run.result == LinkErr)
      && (1 <= packetLen <= MaxPacketLen ==>
        var h := HandshakeRun(link, pos, SendHandshake, 0);
        && (run.result == LinkOk <==>
            && h.matched && At(link, h.next).Transferred? && At(link, h.next + 1).Transferred?
            && forall j :: h.next + 2 <= j < h.next + 2 + packetLen ==> At(link, j).Transferred?)
        && (run.result == LinkOk ==>
            && run.sent == Repeat(0x00, h.next - pos) + [SendHandshake, (packetLen - 1) as byte] + packetBuffer[..packetLen]
            && run.summed == Some(packetBuffer[..packetLen])))
  {
    if 1 <= packetLen <= MaxPacketLen {
      var h := HandshakeRun(link, pos, SendHandshake, 0);
      var packet := packetBuffer[..packetLen];
      if h.matched {
        SendBodyOkIff(link, h.next, packet);
        AppendAssoc(Repeat(0x00, h.next - pos), [SendHandshake, (packetLen - 1) as byte], packet);
      }
    }
  }

  /** The receive routine is its handshake loop followed by its body. */
  lemma ReceiveOfStages(link: seq<Transfer>, pos: nat, h: Handshook)
    requires h == HandshakeRun(link, pos, ReceiveHandshake, 0)
    ensures ReceiveSpec(link, pos) == if !h.matched then ReceiveRun(LinkErr, Repeat(0x00, h.next - pos), None, [])
      else var body := ReceiveBody(link, h.next);
        ReceiveRun(body.result, Repeat(0x00, h.next - pos) + body.sent, body.len, body.data)
  {
  }

  /** The send routine, for a length it accepts, is its handshake loop
    * followed by its body. */
  lemma SendOfStages(link: seq<Transfer>, pos: nat, packetBuffer: seq<byte>, packetLen: int, h: Handshook)
    requires 1 <= packetLen <= MaxPacketLen && packetLen <= |packetBuffer|
    requires h == HandshakeRun(link, pos, SendHandshake, 0)
    ensures SendSpec(link, pos, packetBuffer, packetLen) == if !h.matched then SendRun(LinkErr, Repeat(0x00, h.next - pos), Some([]))
      else var body := SendBody(link, h.next, packetBuffer[..packetLen]);
        SendRun(body.result, Repeat(0x00, h.next - pos) + body.sent, body.summed)
  {
  }

  /** The link routines' static state, and the link port they drive:
    * `transferred` logs every byte handed to `linkTransferByte`, and
    * `At(link, k)` is what transfer `k` returns. */
  class Link {
    const link: seq<Transfer>
    var transferred: seq<byte>
    const receivePacketBuffer: array<byte>
    var receivePacketLen: int
    var receivePacketCrapsum: word
    var sendPacketCrapsum: word

    /** The statics as the C runtime zeroes them. */
    constructor(link: seq<Transfer>)
      ensures this.link == link && transferred == []
      ensures fresh(receivePacketBuffer) && receivePacketBuffer.Length == MaxPacketLen
      ensures receivePacketBuffer[..] == seq(MaxPacketLen, _ => 0)
      ensures receivePacketLen == 0 && receivePacketCrapsum == 0 && sendPacketCrapsum == 0
    {
      this.link := link;
      transferred := [];
      receivePacketBuffer := new byte[MaxPacketLen](_ => 0);
      receivePacketLen := 0;
      receivePacketCrapsum := 0;
      sendPacketCrapsum := 0;
    }

    /** `linkTransferByte`: hands `sendByte` to the link port and returns
      * what the exchange brought back. */
    method TransferByte(sendByte: byte) returns (r: Transfer)
      modifies this`transferred
      ensures transferred == old(transferred) + [sendByte]
      ensures r == At(link, |old(transferred)|)
    {
      r := At(link, |transferred|);
      transferred := transferred + [sendByte];
    }

    /** The handshake loop both routines open with, waiting for `hs`. */
    method Handshake(hs: byte) returns (matched: bool)
      modifies this`transferred
      ensures var h := HandshakeRun(link, |old(transferred)|, hs, 0);
        && matched == h.matched
        && transferred == old(transferred) + Repeat(0x00, h.next - |old(transferred)|)
    {
      ghost var pos := |transferred|;
      var handshakeTries := 0;
      while true
        invariant handshakeTries < MaxHandshakeTries
        invariant transferred == old(transferred) + Repeat(0x00, handshakeTries)
        invariant forall j :: pos <= j < pos + handshakeTries ==> Missed(link, hs, j)
        decreases MaxHandshakeTries - handshakeTries
      {
        ghost var at := pos + handshakeTries;
        assert |transferred| == at;
        var receivedByte := TransferByte(0x00);
        assert receivedByte == At(link, at);
        assert transferred == old(transferred) + Repeat(0x00, handshakeTries + 1);
        HandshakeAfterMisses(link, pos, hs, 0, handshakeTries);
        ghost var h := HandshakeRun(link, at, hs, handshakeTries);
        assert HandshakeRun(link, pos, hs, 0) == h;
        if receivedByte.TransferFailed? {
          assert h == Handshook(false, at + 1);
          return false;
        }
        if receivedByte.value == hs {
          assert h == Handshook(true, at + 1);
          return true;
        }
        handshakeTries := handshakeTries + 1;
        if handshakeTries >= MaxHandshakeTries {
          assert h == Handshook(false, at + 1);
          return false;
        }
      }
    }

    /** The receive loop: transfers the counters `0, 1, …` for `n` bytes,
      * storing and summing each one received, until one fails. */
    method ReceiveBytes(n: nat) returns (ok: bool)
      requires 1 <= n <= MaxPacketLen && receivePacketBuffer.Length == MaxPacketLen
      modifies this`transferred, this`receivePacketCrapsum, receivePacketBuffer
      ensures var pos := |old(transferred)|;
        var k := Delivered(link, pos, n);
        && ok == (k == n)
        && transferred == old(transferred) + Counter(Min(k + 1, n))
        && (forall j :: 0 <= j < k ==> receivePacketBuffer[j] == Values(link, pos, k)[j])
        && (forall j :: k <= j < receivePacketBuffer.Length ==> receivePacketBuffer[j] == old(receivePacketBuffer[j]))
        && receivePacketCrapsum == Crapsum.Fold(old(receivePacketCrapsum), Values(link, pos, k))
    {
      ghost var pos := |transferred|;
      var i := 0;
      var counter: byte := 0;
      while i < n
        invariant i <= n && counter == Count8(i)
        invariant forall j :: pos <= j < pos + i ==> At(link, j).Transferred?
        invariant transferred == old(transferred) + Counter(i)
        invariant forall j :: 0 <= j < i ==> receivePacketBuffer[j] == ByteOf(At(link, pos + j))
        invariant forall j :: i <= j < receivePacketBuffer.Length ==> receivePacketBuffer[j] == old(receivePacketBuffer[j])
        invariant receivePacketCrapsum == Crapsum.Fold(old(receivePacketCrapsum), Values(link, pos, i))
      {
        var receivedByte := ReceiveByte(i, counter);
        assert receivedByte == At(link, pos + i);
        AppendAssoc(old(transferred), Counter(i), [counter]);
        if receivedByte.TransferFailed? {
          DeliveredIsFirstFailure(link, pos, n, i);
          ValuesAt(link, pos, i);
          return false;
        }
        ReceiveStep(link, pos, i, old(receivePacketCrapsum));
        i := i + 1;
        counter := counter + 1;
      }
      DeliveredIsFirstFailure(link, pos, n, n);
      ValuesAt(link, pos, n);
      return true;
    }

    /** One pass of the receive loop: transfers the counter byte and, when
      * that delivers a byte, stores it at `i` and folds it into the checksum. */
    method ReceiveByte(i: nat, counter: byte) returns (r: Transfer)
      requires i < receivePacketBuffer.Length
      modifies this`transferred, this`receivePacketCrapsum, receivePacketBuffer
      ensures transferred == old(transferred) + [counter]
      ensures r == At(link, |old(transferred)|)
      ensures forall j :: 0 <= j < receivePacketBuffer.Length && j != i ==> receivePacketBuffer[j] == old(receivePacketBuffer[j])
      ensures r.Transferred? ==> receivePacketBuffer[i] == r.value
      ensures r.TransferFailed? ==> receivePacketBuffer[i] == old(receivePacketBuffer[i])
      ensures receivePacketCrapsum == if r.Transferred? then LinkUpdateCrapsum(old(receivePacketCrapsum), r.value) else old(receivePacketCrapsum)
    {
      r := TransferByte(counter);
      if r.TransferFailed? {
        return;
      }
      receivePacketBuffer[i] := r.value;
      receivePacketCrapsum := LinkUpdateCrapsum(receivePacketCrapsum, r.value);
    }

    /** `linkReceivePacket` after its echo: the length byte and the packet
      * bytes. */
    method ReceiveAfterEcho() returns (r: int)
      requires receivePacketBuffer.Length == MaxPacketLen
      modifies this`transferred, this`receivePacketLen, this`receivePacketCrapsum, receivePacketBuffer
      ensures var tail := ReceiveTail(link, |old(transferred)|);
        && r == tail.result
        && transferred == old(transferred) + tail.sent
        && receivePacketLen == tail.len.value
        && (forall j :: 0 <= j < |tail.data| ==> receivePacketBuffer[j] == tail.data[j])
        && (forall j :: |tail.data| <= j < receivePacketBuffer.Length ==> receivePacketBuffer[j] == old(receivePacketBuffer[j]))
        && receivePacketCrapsum == Crapsum.Fold(old(receivePacketCrapsum), tail.data)
    {
      ghost var q := |transferred|;
      var lenByte := TransferByte(0xff);
      receivePacketLen := if lenByte.TransferFailed? then LinkErr else lenByte.value as int;
      if lenByte.TransferFailed? {
        return LinkErr;
      }
      receivePacketLen := receivePacketLen + 1;
      ghost var n := PacketLen(lenByte.value);
      ghost var k := Delivered(link, q + 1, n);
      assert |transferred| == q + 1 && receivePacketLen == n;
      var ok := ReceiveBytes(receivePacketLen);
      AppendAssoc(old(transferred), [0xff], Counter(Min(k + 1, n)));
      r := if ok then LinkOk else LinkErr;
    }

    /** `linkReceivePacket` after its handshake: the echo, then the rest. */
    method ReceiveAfterHandshake() returns (r: int)
      requires receivePacketBuffer.Length == MaxPacketLen
      modifies this`transferred, this`receivePacketLen, this`receivePacketCrapsum, receivePacketBuffer
      ensures var body := ReceiveBody(link, |old(transferred)|);
        && r == body.result
        && transferred == old(transferred) + body.sent
        && receivePacketLen == (if body.len.Some? then body.len.value else old(receivePacketLen))
        && (forall j :: 0 <= j < |body.data| ==> receivePacketBuffer[j] == body.data[j])
        && (forall j :: |body.data| <= j < receivePacketBuffer.Length ==> receivePacketBuffer[j] == old(receivePacketBuffer[j]))
        && receivePacketCrapsum == Crapsum.Fold(old(receivePacketCrapsum), body.data)
    {
      ghost var p := |transferred|;
      var echo := TransferByte(ReceiveHandshake);
      if echo.TransferFailed? {
        return LinkErr;
      }
      assert |transferred| == p + 1;
      r := ReceiveAfterEcho();
      AppendAssoc(old(transferred), [ReceiveHandshake], ReceiveTail(link, p + 1).sent);
    }

    /** `linkReceivePacket`, with the bare `return;` after a failed length
      * transfer returning `LINK_ERR`. */
    method ReceivePacket() returns (r: int)
      requires receivePacketBuffer.Length == MaxPacketLen
      modifies this`transferred, this`receivePacketLen, this`receivePacketCrapsum, receivePacketBuffer
      ensures var run := ReceiveSpec(link, |old(transferred)|);
        && r == run.result
        && transferred == old(transferred) + run.sent
        && receivePacketLen == (if run.len.Some? then run.len.value else old(receivePacketLen))
        && (forall j :: 0 <= j < |run.data| ==> receivePacketBuffer[j] == run.data[j])
        && (forall j :: |run.data| <= j < receivePacketBuffer.Length ==> receivePacketBuffer[j] == old(receivePacketBuffer[j]))
        && receivePacketCrapsum == Crapsum.ChecksumOf(run.data).state
    {
      ghost var pos := |transferred|;
      ghost var h := HandshakeRun(link, pos, ReceiveHandshake, 0);
      ghost var run := ReceiveSpec(link, pos);
      ReceiveOfStages(link, pos, h);
      receivePacketCrapsum := Crapsum.InitialState;
      var matched := Handshake(ReceiveHandshake);
      if !matched {
        assert run == ReceiveRun(LinkErr, Repeat(0x00, h.next - pos), None, []);
        return LinkErr;
      }
      ghost var body := ReceiveBody(link, h.next);
      assert run == ReceiveRun(body.result, Repeat(0x00, h.next - pos) + body.sent, body.len, body.data);
      assert |transferred| == h.next;
      r := ReceiveAfterHandshake();
      AppendAssoc(old(transferred), Repeat(0x00, h.next - pos), body.sent);
    }

    /** The send loop: transfers each byte of `bytes`, summing each one that
      * goes through, until one fails. */
    method SendBytes(bytes: seq<byte>) returns (ok: bool)
      modifies this`transferred, this`sendPacketCrapsum
      ensures var k := Delivered(link, |old(transferred)|, |bytes|);
        && ok == (k == |bytes|)
        && transferred == old(transferred) + bytes[..Min(k + 1, |bytes|)]
        && sendPacketCrapsum == Crapsum.Fold(old(sendPacketCrapsum), bytes[..k])
    {
      ghost var pos := |transferred|;
      var i := 0;
      while i < |bytes|
        invariant i <= |bytes|
        invariant forall j :: pos <= j < pos + i ==> At(link, j).Transferred?
        invariant transferred == old(transferred) + bytes[..i]
        invariant sendPacketCrapsum == Crapsum.Fold(old(sendPacketCrapsum), bytes[..i])
      {
        var b := bytes[i];
        var sent := TransferByte(b);
        assert bytes[..i + 1] == bytes[..i] + [b];
        if sent.TransferFailed? {
          DeliveredIsFirstFailure(link, pos, |bytes|, i);
          return false;
        }
        sendPacketCrapsum := LinkUpdateCrapsum(sendPacketCrapsum, b);
        Crapsum.FoldAppend(old(sendPacketCrapsum), bytes[..i], [b]);
        i := i + 1;
      }
      DeliveredIsFirstFailure(link, pos, |bytes|, |bytes|);
      assert bytes[..|bytes|] == bytes;
      return true;
    }

    /** `linkSendPacket` after its handshake: the echo, the length byte and
      * the packet bytes. */
    method SendAfterHandshake(packet: seq<byte>) returns (r: int)
      requires 1 <= |packet| <= MaxPacketLen
      modifies this`transferred, this`sendPacketCrapsum
      ensures var body := SendBody(link, |old(transferred)|, packet);
        && r == body.result
        && transferred == old(transferred) + body.sent
        && sendPacketCrapsum == Crapsum.Fold(old(sendPacketCrapsum), body.summed.value)
    {
      ghost var p := |transferred|;
      ghost var body := SendBody(link, p, packet);
      var lenByte := (|packet| - 1) as byte;
      var echo := TransferByte(SendHandshake);
      if echo.TransferFailed? {
        assert body == SendRun(LinkErr, [SendHandshake], Some([]));
        return LinkErr;
      }
      var lenSent := TransferByte(lenByte);
      if lenSent.TransferFailed? {
        assert body == SendRun(LinkErr, [SendHandshake, lenByte], Some([]));
        return LinkErr;
      }
      ghost var k := Delivered(link, p + 2, |packet|);
      assert body.sent == [SendHandshake, lenByte] + packet[..Min(k + 1, |packet|)];
      assert |transferred| == p + 2;
      var ok := SendBytes(packet);
      TwoThenRest(old(transferred), SendHandshake, lenByte, packet[..Min(k + 1, |packet|)]);
      r := if ok then LinkOk else LinkErr;
    }

    /** `linkSendPacket`: sends the first `packetLen` bytes of `packetBuffer`. */
    method SendPacket(packetBuffer: seq<byte>, packetLen: int) returns (r: int)
      requires packetLen < 1 || packetLen > MaxPacketLen || packetLen <= |packetBuffer|
      modifies this`transferred, this`sendPacketCrapsum
      ensures var run := SendSpec(link, |old(transferred)|, packetBuffer, packetLen);
        && r == run.result
        && transferred == old(transferred) + run.sent
        && sendPacketCrapsum == (if run.summed.Some? then Crapsum.ChecksumOf(run.summed.value).state else old(sendPacketCrapsum))
    {
      if packetLen < 1 || packetLen > MaxPacketLen {
        return LinkErr;
      }
      ghost var pos := |transferred|;
      ghost var h := HandshakeRun(link, pos, SendHandshake, 0);
      SendOfStages(link, pos, packetBuffer, packetLen, h);
      sendPacketCrapsum := Crapsum.InitialState;
      var matched := Handshake(SendHandshake);
      if !matched {
        return LinkErr;
      }
      assert |transferred| == h.next;
      r := SendAfterHandshake(packetBuffer[..packetLen]);
      AppendAssoc(old(transferred), Repeat(0x00, h.next - pos), SendBody(link, h.next, packetBuffer[..packetLen]).sent);
    }
  }
}

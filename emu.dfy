/**
 * The emulated link port of the harness (fuzzy/src/emu.rs): an emulated
 * Virtual Boy driven in virtual time, whose link port is clocked bit by bit,
 * behind the same read/write interface as the hardware serial port.
 */
module Emu {
  import opened Bytes
  import opened Results

  /** A CPU step takes at least one cycle. */
  type Cycles = n: nat | n >= 1 witness 1

  /** `CPU_CYCLE_TIME_NS`. */
  const CpuCycleTimeNs: nat := 50

  /** Half a link clock period, in virtual nanoseconds. */
  const HalfBitNs: nat := 5_500

  /** `MAX_HANDSHAKE_TRIES`. */
  const MaxHandshakeTries: nat := 20

  /** The handshake byte of the send stage. */
  const SendHandshake: byte := 0xAA

  /** The handshake byte of the receive stage. */
  const ReceiveHandshake: byte := 0x55

  /** The boot time the port gives the emulated console before first use. */
  const BootNs: nat := 1_000_000_000

  /** The delay between sending a packet and reading the response. */
  const ResponseDelayNs: nat := 100_000

  /** The delay after an exchange, before the next command. */
  const SettleNs: nat := 10_000_000

  /** Bit `i` of `b` counted from the most significant, as presented on
    * bit iteration `i`: `(b >> (7 - i)) & 1`. */
  function BitAt(b: byte, i: nat): bv1
    requires i < 8
  {
    ((b >> (7 - i)) & 1) as bv1
  }

  /** The eight bits of `b`, most significant first. */
  function BitsMsbFirst(b: byte): (bits: seq<bv1>)
    ensures |bits| == 8
  {
    seq(8, i requires 0 <= i < 8 => BitAt(b, i))
  }

  /** The byte assembled by shifting `bits` in from the right: the first bit
    * ends up the most significant. */
  function FromBitsMsbFirst(bits: seq<bv1>): byte
    decreases |bits|
  {
    if bits == [] then 0
    else (FromBitsMsbFirst(bits[..|bits| - 1]) << 1) | (bits[|bits| - 1] as byte)
  }

  /** The byte whose bits, most significant first, are `x0` .. `x7`. */
  function Pack(x0: bv1, x1: bv1, x2: bv1, x3: bv1, x4: bv1, x5: bv1, x6: bv1, x7: bv1): byte
  {
    ((x0 as byte) << 7) | ((x1 as byte) << 6) | ((x2 as byte) << 5) | ((x3 as byte) << 4)
      | ((x4 as byte) << 3) | ((x5 as byte) << 2) | ((x6 as byte) << 1) | (x7 as byte)
  }

  /** Shifting eight bits in one at a time packs them, the first one highest. */
  lemma FromBitsOfEight(bits: seq<bv1>)
    requires |bits| == 8
    ensures FromBitsMsbFirst(bits) == Pack(bits[0], bits[1], bits[2], bits[3], bits[4], bits[5], bits[6], bits[7])
  {
    assert bits[..7][..6] == bits[..6] && bits[..6][..5] == bits[..5] && bits[..5][..4] == bits[..4];
    assert bits[..4][..3] == bits[..3] && bits[..3][..2] == bits[..2] && bits[..2][..1] == bits[..1];
    assert bits[..1][..0] == [];
    var b1 := bits[0] as byte;
    assert FromBitsMsbFirst(bits[..1]) == b1;
    var b2 := (b1 << 1) | bits[1] as byte;
    assert FromBitsMsbFirst(bits[..2]) == b2;
    var b3 := (b2 << 1) | bits[2] as byte;
    assert FromBitsMsbFirst(bits[..3]) == b3;
    var b4 := (b3 << 1) | bits[3] as byte;
    assert FromBitsMsbFirst(bits[..4]) == b4;
    var b5 := (b4 << 1) | bits[4] as byte;
    assert FromBitsMsbFirst(bits[..5]) == b5;
    var b6 := (b5 << 1) | bits[5] as byte;
    assert FromBitsMsbFirst(bits[..6]) == b6;
    var b7 := (b6 << 1) | bits[6] as byte;
    assert FromBitsMsbFirst(bits[..7]) == b7;
    assert FromBitsMsbFirst(bits) == (b7 << 1) | bits[7] as byte;
  }

  /** Presenting a byte bit by bit and assembling the same bits gives it back. */
  lemma FromBitsOfBits(b: byte)
    ensures FromBitsMsbFirst(BitsMsbFirst(b)) == b
  {
    var bits := BitsMsbFirst(b);
    FromBitsOfEight(bits);
    assert Pack(BitAt(b, 0), BitAt(b, 1), BitAt(b, 2), BitAt(b, 3), BitAt(b, 4), BitAt(b, 5), BitAt(b, 6), BitAt(b, 7)) == b;
  }

  /** The other direction: bit `i` of the assembled byte, counted from the
    * most significant, is the i-th bit shifted in. */
  lemma BitsOfFromBits(bits: seq<bv1>)
    requires |bits| == 8
    ensures BitsMsbFirst(FromBitsMsbFirst(bits)) == bits
  {
    FromBitsOfEight(bits);
    var b := FromBitsMsbFirst(bits);
    assert BitAt(b, 0) == bits[0] && BitAt(b, 1) == bits[1] && BitAt(b, 2) == bits[2] && BitAt(b, 3) == bits[3];
    assert BitAt(b, 4) == bits[4] && BitAt(b, 5) == bits[5] && BitAt(b, 6) == bits[6] && BitAt(b, 7) == bits[7];
  }

  /** The `n` reply bits from bit `start` on. */
  function ReplyWindow(replyAt: nat -> bv1, start: nat, n: nat): (w: seq<bv1>)
    ensures |w| == n
  {
    seq(n, k requires 0 <= k < n => replyAt(start + k))
  }

  /** One more reply bit shifted in. */
  lemma ReplyWindowStep(replyAt: nat -> bv1, start: nat, i: nat)
    ensures FromBitsMsbFirst(ReplyWindow(replyAt, start, i + 1))
      == (FromBitsMsbFirst(ReplyWindow(replyAt, start, i)) << 1) | (replyAt(start + i) as byte)
  {
    assert ReplyWindow(replyAt, start, i + 1)[..i] == ReplyWindow(replyAt, start, i);
  }

  /** One more bit presented. */
  lemma BitsPrefixStep(b: byte, i: nat)
    requires i < 8
    ensures BitsMsbFirst(b)[..i + 1] == BitsMsbFirst(b)[..i] + [BitAt(b, i)]
  {
  }

  /** The byte the console sends back during transfer `j`: the eight reply
    * bits of that transfer, first bit most significant. */
  function ReplyByte(replyAt: nat -> bv1, j: nat): byte
  {
    var k := 8 * j;
    Pack(replyAt(k), replyAt(k + 1), replyAt(k + 2), replyAt(k + 3), replyAt(k + 4), replyAt(k + 5), replyAt(k + 6), replyAt(k + 7))
  }

  /** Assembling the reply bits of transfer `j` one at a time gives its reply byte. */
  lemma ReplyByteAssembled(replyAt: nat -> bv1, j: nat)
    ensures FromBitsMsbFirst(ReplyWindow(replyAt, 8 * j, 8)) == ReplyByte(replyAt, j)
  {
    FromBitsOfEight(ReplyWindow(replyAt, 8 * j, 8));
  }

  /** The replies to the `n` transfers from transfer `pos` on. */
  function Replies(reply: nat -> byte, pos: nat, n: nat): (r: seq<byte>)
    ensures |r| == n
  {
    if n == 0 then [] else Replies(reply, pos, n - 1) + [reply(pos + n - 1)]
  }

  /** The first of them is the reply to transfer `pos`. */
  lemma {:induction false} RepliesCons(reply: nat -> byte, pos: nat, n: nat)
    ensures Replies(reply, pos, n + 1) == [reply(pos)] + Replies(reply, pos + 1, n)
  {
    if n > 0 {
      RepliesCons(reply, pos, n - 1);
      AppendAssoc([reply(pos)], Replies(reply, pos + 1, n - 1), [reply(pos + n)]);
    }
  }

  /** Reply `k` of them is the reply to transfer `pos + k`. */
  lemma {:induction false} RepliesAt(reply: nat -> byte, pos: nat, n: nat, k: nat)
    requires k < n
    ensures Replies(reply, pos, n)[k] == reply(pos + k)
  {
    if k < n - 1 {
      RepliesAt(reply, pos, n - 1, k);
    }
  }

  /** The two leading parts of `a + b + c` can be sliced back out of it. */
  lemma PrefixAndMiddle<T>(a: seq<T>, b: seq<T>, c: seq<T>)
    ensures (a + b + c)[..|a|] == a && (a + b + c)[|a|..|a| + |b|] == b
  {
  }

  /** How a handshake loop ends: whether `hs` was echoed, and the transfer
    * after its last one. */
  datatype Handshook = Handshook(echoed: bool, next: nat)

  /** A handshake loop starting with transfer `pos` after `tries` misses: it
    * stops after the transfer that echoes `hs`, or gives up once
    * `MAX_HANDSHAKE_TRIES` transfers in all missed. */
  function HandshakeRun(reply: nat -> byte, pos: nat, hs: byte, tries: nat): (r: Handshook)
    requires tries < MaxHandshakeTries
    ensures pos < r.next <= pos + (MaxHandshakeTries - tries)
    ensures !r.echoed ==> r.next == pos + (MaxHandshakeTries - tries)
    decreases MaxHandshakeTries - tries
  {
    if reply(pos) == hs then Handshook(true, pos + 1)
    else if tries + 1 >= MaxHandshakeTries then Handshook(false, pos + 1)
    else HandshakeRun(reply, pos + 1, hs, tries + 1)
  }

  /** A handshake that succeeds stops at the first echo, within the tries left. */
  lemma {:induction false} HandshakeStopsAtFirstEcho(reply: nat -> byte, pos: nat, hs: byte, tries: nat)
    requires tries < MaxHandshakeTries
    requires HandshakeRun(reply, pos, hs, tries).echoed
    ensures var q := HandshakeRun(reply, pos, hs, tries).next;
      && reply(q - 1) == hs
      && forall j :: pos <= j < q - 1 ==> reply(j) != hs
    decreases MaxHandshakeTries - tries
  {
    if reply(pos) != hs {
      HandshakeStopsAtFirstEcho(reply, pos + 1, hs, tries + 1);
    }
  }

  /** A handshake fails exactly when none of the tries left is echoed. */
  lemma {:induction false} HandshakeFailsIffNoEcho(reply: nat -> byte, pos: nat, hs: byte, tries: nat)
    requires tries < MaxHandshakeTries
    ensures !HandshakeRun(reply, pos, hs, tries).echoed <==>
      forall j :: pos <= j < pos + (MaxHandshakeTries - tries) ==> reply(j) != hs
    decreases MaxHandshakeTries - tries
  {
    if reply(pos) != hs && tries + 1 < MaxHandshakeTries {
      HandshakeFailsIffNoEcho(reply, pos + 1, hs, tries + 1);
    }
  }

  /** A handshake whose first `k` tries miss and whose next one is echoed. */
  lemma {:induction false} HandshakeEchoedAfter(reply: nat -> byte, pos: nat, hs: byte, tries: nat, k: nat)
    requires tries + k < MaxHandshakeTries
    requires forall j :: pos <= j < pos + k ==> reply(j) != hs
    requires reply(pos + k) == hs
    ensures HandshakeRun(reply, pos, hs, tries) == Handshook(true, pos + k + 1)
    decreases k
  {
    if k > 0 {
      HandshakeEchoedAfter(reply, pos + 1, hs, tries + 1, k - 1);
    }
  }

  /** A handshake whose tries all miss. */
  lemma {:induction false} HandshakeAllMissed(reply: nat -> byte, pos: nat, hs: byte, tries: nat)
    requires tries < MaxHandshakeTries
    requires forall j :: pos <= j < pos + (MaxHandshakeTries - tries) ==> reply(j) != hs
    ensures HandshakeRun(reply, pos, hs, tries) == Handshook(false, pos + (MaxHandshakeTries - tries))
    decreases MaxHandshakeTries - tries
  {
    if tries + 1 < MaxHandshakeTries {
      HandshakeAllMissed(reply, pos + 1, hs, tries + 1);
    }
  }

  /** `io::Error` of `write`: which handshake got no echo. */
  datatype IoError = SendHandshakeTimeout | ReceiveHandshakeTimeout

  /** One stage of `write`: whether its handshake was echoed, the bytes it
    * transfers to the console, and the bytes it queues for `read`. */
  datatype StageRun = StageRun(echoed: bool, sent: seq<byte>, queued: seq<byte>)

  /** The whole of one `write`: its result, the bytes it transfers to the
    * console, and the bytes it queues for `read`. */
  datatype WriteRun = WriteRun(result: Result<nat, IoError>, sent: seq<byte>, queued: seq<byte>)

  /** The frame `write` forwards: the length byte and the packet it counts. */
  function FrameOf(buf: seq<byte>): (f: seq<byte>)
    requires |buf| >= 1 && |buf| >= buf[0] as int + 2
    ensures |f| == buf[0] as int + 2
  {
    buf[..buf[0] as int + 2]
  }

  /** The send stage from transfer `pos` on: the send handshake, then the
    * frame, which is skipped when the handshake gets no echo. */
  function SendStageSpec(reply: nat -> byte, pos: nat, frame: seq<byte>): StageRun
  {
    var h := HandshakeRun(reply, pos, SendHandshake, 0);
    StageRun(h.echoed, Repeat(SendHandshake, h.next - pos) + (if h.echoed then frame else []), [])
  }

  /** The receive stage from transfer `pos` on: the receive handshake, then
    * one more 0x55 whose reply is the length byte `len - 1`, then `len`
    * transfers of 0x00; the length byte and the replies to the 0x00s are
    * queued. */
  function ReceiveStageSpec(reply: nat -> byte, pos: nat): StageRun
  {
    var h := HandshakeRun(reply, pos, ReceiveHandshake, 0);
    if !h.echoed then StageRun(false, Repeat(ReceiveHandshake, h.next - pos), [])
    else
      var n := reply(h.next) as int + 1;
      StageRun(true, Repeat(ReceiveHandshake, h.next - pos) + ([ReceiveHandshake] + Repeat(0x00, n)),
        [reply(h.next)] + Replies(reply, h.next + 1, n))
  }

  /** The receive stage when its handshake is echoed by transfer `p3 - 1`. */
  lemma ReceiveStageEchoed(reply: nat -> byte, pos: nat, p3: nat)
    requires HandshakeRun(reply, pos, ReceiveHandshake, 0) == Handshook(true, p3)
    ensures pos < p3
    ensures ReceiveStageSpec(reply, pos).echoed
    ensures ReceiveStageSpec(reply, pos).sent
      == Repeat(ReceiveHandshake, p3 - pos) + ([ReceiveHandshake] + Repeat(0x00, reply(p3) as int + 1))
    ensures ReceiveStageSpec(reply, pos).queued == [reply(p3)] + Replies(reply, p3 + 1, reply(p3) as int + 1)
  {
  }

  /** An echoed receive stage, put together from the handshake's transfers
    * and the frame that follows them. */
  lemma ReceiveStageComposed(reply: nat -> byte, pos: nat, p3: nat, t0: seq<byte>, t1: seq<byte>, t2: seq<byte>,
                             q0: seq<byte>, q2: seq<byte>)
    requires HandshakeRun(reply, pos, ReceiveHandshake, 0) == Handshook(true, p3)
    requires t1 == t0 + Repeat(ReceiveHandshake, p3 - pos)
    requires t2 == t1 + ([ReceiveHandshake] + Repeat(0x00, reply(p3) as int + 1))
    requires q2 == q0 + ([reply(p3)] + Replies(reply, p3 + 1, reply(p3) as int + 1))
    ensures var stage := ReceiveStageSpec(reply, pos);
      && stage.echoed
      && t2 == t0 + stage.sent
      && q2 == q0 + stage.queued
  {
    ReceiveStageEchoed(reply, pos, p3);
    AppendAssoc(t0, Repeat(ReceiveHandshake, p3 - pos), [ReceiveHandshake] + Repeat(0x00, reply(p3) as int + 1));
  }

  /** The receive stage queues nothing when its handshake gets no echo and,
    * when it is echoed, one whole frame read off consecutive replies. */
  lemma ReceiveStageQueuesOneFrame(reply: nat -> byte, pos: nat)
    ensures var stage := ReceiveStageSpec(reply, pos);
      !stage.echoed ==> stage.queued == []
    ensures var stage := ReceiveStageSpec(reply, pos);
      stage.echoed ==>
        && |stage.queued| >= 2
        && |stage.queued| == stage.queued[0] as int + 2
        && exists p3 :: pos < p3 && stage.queued == Replies(reply, p3, |stage.queued|)
  {
    var h := HandshakeRun(reply, pos, ReceiveHandshake, 0);
    if h.echoed {
      var n := reply(h.next) as int + 1;
      ReceiveStageEchoed(reply, pos, h.next);
      RepliesCons(reply, h.next, n);
      var queued := ReceiveStageSpec(reply, pos).queued;
      assert queued == Replies(reply, h.next, n + 1);
      assert pos < h.next && queued == Replies(reply, h.next, |queued|);
    }
  }

  /** What `write(buf)` does when transfer `pos` is the next one and `reply`
    * gives the console's byte for each transfer. */
  function WriteSpec(reply: nat -> byte, pos: nat, buf: seq<byte>): WriteRun
    requires |buf| >= 1 && |buf| >= buf[0] as int + 2
  {
    var send := SendStageSpec(reply, pos, FrameOf(buf));
    if !send.echoed then WriteRun(Err(SendHandshakeTimeout), send.sent, [])
    else
      var receive := ReceiveStageSpec(reply, pos + |send.sent|);
      WriteRun(if receive.echoed then Ok(|buf|) else Err(ReceiveHandshakeTimeout),
        send.sent + receive.sent, receive.queued)
  }

  /** `write` when the send handshake gets no echo: only the send stage runs. */
  lemma WriteOfSendStage(reply: nat -> byte, pos: nat, buf: seq<byte>, send: StageRun)
    requires |buf| >= 1 && |buf| >= buf[0] as int + 2
    requires send == SendStageSpec(reply, pos, FrameOf(buf)) && !send.echoed
    ensures WriteSpec(reply, pos, buf) == WriteRun(Err(SendHandshakeTimeout), send.sent, [])
  {
  }

  /** `write` when the send handshake is echoed: the send stage followed by
    * the receive stage. */
  lemma WriteOfStages(reply: nat -> byte, pos: nat, buf: seq<byte>, send: StageRun, receive: StageRun)
    requires |buf| >= 1 && |buf| >= buf[0] as int + 2
    requires send == SendStageSpec(reply, pos, FrameOf(buf)) && send.echoed
    requires receive == ReceiveStageSpec(reply, pos + |send.sent|)
    ensures WriteSpec(reply, pos, buf) == WriteRun(
      if receive.echoed then Ok(|buf|) else Err(ReceiveHandshakeTimeout), send.sent + receive.sent, receive.queued)
  {
    var frame := FrameOf(buf);
    assert SendStageSpec(reply, pos, frame) == send;
  }

  /** A `write` whose send handshake is echoed, put together from the
    * transfers of its send stage and of its receive stage. */
  lemma WriteComposed(reply: nat -> byte, pos: nat, buf: seq<byte>, t0: seq<byte>, t1: seq<byte>, t2: seq<byte>,
                      q0: seq<byte>, q2: seq<byte>, echoed: bool)
    requires |buf| >= 1 && |buf| >= buf[0] as int + 2
    requires |t0| == pos
    requires SendStageSpec(reply, pos, FrameOf(buf)).echoed
    requires t1 == t0 + SendStageSpec(reply, pos, FrameOf(buf)).sent
    requires var stage := ReceiveStageSpec(reply, |t1|);
      && echoed == stage.echoed
      && t2 == t1 + stage.sent
      && q2 == q0 + stage.queued
    ensures var run := WriteSpec(reply, pos, buf);
      && run.result == (if echoed then Ok(|buf|) else Err(ReceiveHandshakeTimeout))
      && t2 == t0 + run.sent
      && q2 == q0 + run.queued
  {
    var send := SendStageSpec(reply, pos, FrameOf(buf));
    var receive := ReceiveStageSpec(reply, pos + |send.sent|);
    assert |t1| == pos + |send.sent|;
    WriteOfStages(reply, pos, buf, send, receive);
    AppendAssoc(t0, send.sent, receive.sent);
  }

  /** `write` fails on the send handshake exactly when none of its
    * `MAX_HANDSHAKE_TRIES` transfers of 0xAA is echoed; it then transfers
    * nothing else and queues nothing. */
  lemma WriteSendTimeoutIffNoEcho(reply: nat -> byte, pos: nat, buf: seq<byte>)
    requires |buf| >= 1 && |buf| >= buf[0] as int + 2
    ensures var run := WriteSpec(reply, pos, buf);
      run.result == Err(SendHandshakeTimeout) <==>
        forall j :: pos <= j < pos + MaxHandshakeTries ==> reply(j) != SendHandshake
    ensures var run := WriteSpec(reply, pos, buf);
      run.result == Err(SendHandshakeTimeout) ==>
        run.sent == Repeat(SendHandshake, MaxHandshakeTries) && run.queued == []
  {
    HandshakeFailsIffNoEcho(reply, pos, SendHandshake, 0);
  }

  /** Once the send handshake is echoed (within `MAX_HANDSHAKE_TRIES`
    * transfers, by the last of them), the frame follows it unchanged. */
  lemma SendStageForwardsFrame(reply: nat -> byte, pos: nat, frame: seq<byte>)
    requires SendStageSpec(reply, pos, frame).echoed
    ensures var k := HandshakeRun(reply, pos, SendHandshake, 0).next - pos;
      && 1 <= k <= MaxHandshakeTries
      && reply(pos + k - 1) == SendHandshake
      && SendStageSpec(reply, pos, frame).sent == Repeat(SendHandshake, k) + frame
  {
    HandshakeStopsAtFirstEcho(reply, pos, SendHandshake, 0);
  }

  /** `write` fails with `SendHandshakeTimeout` exactly when the send
    * handshake gets no echo, and what it sends begins with the send stage. */
  lemma WriteBeginsWithSendStage(reply: nat -> byte, pos: nat, buf: seq<byte>)
    requires |buf| >= 1 && |buf| >= buf[0] as int + 2
    ensures var send := SendStageSpec(reply, pos, FrameOf(buf));
      var run := WriteSpec(reply, pos, buf);
      && (run.result == Err(SendHandshakeTimeout) <==> !send.echoed)
      && |run.sent| >= |send.sent|
      && run.sent[..|send.sent|] == send.sent
  {
  }

  /** `write` queues nothing when it fails and, when it succeeds, exactly one
    * whole frame: the console's replies to the transfer after the receive
    * handshake and to the `len` transfers that follow it. */
  lemma WriteQueuesOneFrame(reply: nat -> byte, pos: nat, buf: seq<byte>)
    requires |buf| >= 1 && |buf| >= buf[0] as int + 2
    ensures var run := WriteSpec(reply, pos, buf);
      run.result.Err? ==> run.queued == []
    ensures var run := WriteSpec(reply, pos, buf);
      run.result.Ok? ==>
        && run.result.value == |buf|
        && |run.queued| >= 2
        && |run.queued| == run.queued[0] as int + 2
        && exists p3 :: pos < p3 && run.queued == Replies(reply, p3, |run.queued|)
  {
    var send := SendStageSpec(reply, pos, FrameOf(buf));
    if send.echoed {
      var receive := ReceiveStageSpec(reply, pos + |send.sent|);
      WriteOfStages(reply, pos, buf, send, receive);
      ReceiveStageQueuesOneFrame(reply, pos + |send.sent|);
    } else {
      WriteOfSendStage(reply, pos, buf, send);
    }
  }

  /** The abstract emulated console: `step` runs one CPU step of
    * `cyclesAt(k)` cycles (the k-th step), and the link port answers the
    * k-th clocked bit with `replyAt(k)`. The bits presented are logged. */
  class VirtualBoy {
    const cyclesAt: nat -> Cycles
    const replyAt: nat -> bv1
    var steps: nat
    var presented: seq<bv1>

    constructor(cyclesAt: nat -> Cycles, replyAt: nat -> bv1)
      ensures this.cyclesAt == cyclesAt && this.replyAt == replyAt
      ensures steps == 0 && presented == []
    {
      this.cyclesAt := cyclesAt;
      this.replyAt := replyAt;
      steps := 0;
      presented := [];
    }

    /** `VirtualBoy::step`: the cycles the step took. */
    method Step() returns (cycles: Cycles)
      modifies this`steps
      ensures cycles == cyclesAt(old(steps))
      ensures steps == old(steps) + 1
    {
      cycles := cyclesAt(steps);
      steps := steps + 1;
    }

    /** `link_port.transfer_slave_clock_bit`: presents `bit`, answers the reply bit. */
    method TransferSlaveClockBit(bit: bv1) returns (reply: bv1)
      modifies this`presented
      ensures reply == replyAt(|old(presented)|)
      ensures presented == old(presented) + [bit]
    {
      reply := replyAt(|presented|);
      presented := presented + [bit];
    }
  }

  /** The total cycles of steps `lo` up to (not including) `hi`. */
  function CyclesSum(cyclesAt: nat -> Cycles, lo: nat, hi: nat): nat
    requires lo <= hi
    decreases hi
  {
    if lo == hi then 0 else CyclesSum(cyclesAt, lo, hi - 1) + cyclesAt(hi - 1)
  }

  /** `EmulatedVbSerialPort`. `transfers` logs the bytes sent to the console,
    * one per `transfer_byte`. */
  class EmulatedVbSerialPort {
    const vb: VirtualBoy
    /** The console's byte for each transfer, read off the link's reply bits. */
    const reply: nat -> byte
    var emulatedTimeNs: nat
    var responseBuffer: seq<byte>
    ghost var transfers: seq<byte>

    /** Every bit presented on the link belongs to a whole transferred byte,
      * and `reply` reads the reply bits eight at a time. */
    ghost predicate Valid()
      reads this, vb
    {
      && |vb.presented| == 8 * |transfers|
      && forall j: nat {:trigger ReplyByte(vb.replyAt, j)} :: reply(j) == ReplyByte(vb.replyAt, j)
    }

    /** `EmulatedVbSerialPort::new`: a fresh console, booted for one second of virtual time. */
    constructor(cyclesAt: nat -> Cycles, replyAt: nat -> bv1)
      ensures Valid() && fresh(vb)
      ensures vb.cyclesAt == cyclesAt && vb.replyAt == replyAt
      ensures responseBuffer == [] && transfers == []
      ensures emulatedTimeNs >= BootNs
    {
      vb := new VirtualBoy(cyclesAt, replyAt);
      reply := (j: nat) => ReplyByte(replyAt, j);
      emulatedTimeNs := 0;
      responseBuffer := [];
      transfers := [];
      new;
      StepNs(BootNs);
    }

    /** `step_ns`: steps the console until at least `ns` more virtual
      * nanoseconds have passed, each step counting 50 ns per cycle. */
    method StepNs(ns: nat)
      modifies this`emulatedTimeNs, vb`steps
      ensures vb.steps >= old(vb.steps)
      ensures emulatedTimeNs == old(emulatedTimeNs) + 50 * CyclesSum(vb.cyclesAt, old(vb.steps), vb.steps)
      ensures emulatedTimeNs >= old(emulatedTimeNs) + ns
      // it stops at the first step that reaches the target
      ensures vb.steps > old(vb.steps) ==>
        emulatedTimeNs - 50 * vb.cyclesAt(vb.steps - 1) < old(emulatedTimeNs) + ns
      ensures ns == 0 ==> emulatedTimeNs == old(emulatedTimeNs) && vb.steps == old(vb.steps)
    {
      var target := emulatedTimeNs + ns;
      while emulatedTimeNs < target
        invariant vb.steps >= old(vb.steps)
        invariant emulatedTimeNs == old(emulatedTimeNs) + 50 * CyclesSum(vb.cyclesAt, old(vb.steps), vb.steps)
        invariant vb.steps > old(vb.steps) ==>
          emulatedTimeNs - 50 * vb.cyclesAt(vb.steps - 1) < target
        decreases target - emulatedTimeNs
      {
        var emulatedCycles := vb.Step();
        emulatedTimeNs := emulatedTimeNs + emulatedCycles * CpuCycleTimeNs;
      }
    }

    /** `transfer_byte`: clocks `sendByte` out most significant bit first,
      * half a bit period of virtual time on either side of each bit, and
      * assembles the reply bits into the byte received. */
    method TransferByte(sendByte: byte) returns (receivedByte: byte)
      requires Valid()
      modifies this`emulatedTimeNs, this`transfers, vb`steps, vb`presented
      ensures Valid()
      ensures vb.presented == old(vb.presented) + BitsMsbFirst(sendByte)
      ensures receivedByte == reply(|old(transfers)|)
      ensures transfers == old(transfers) + [sendByte]
      ensures emulatedTimeNs >= old(emulatedTimeNs) + 88_000
    {
      ghost var start := |vb.presented|;
      receivedByte := 0;
      for i := 0 to 8
        invariant vb.presented == old(vb.presented) + BitsMsbFirst(sendByte)[..i]
        invariant receivedByte == FromBitsMsbFirst(ReplyWindow(vb.replyAt, start, i))
        invariant emulatedTimeNs >= old(emulatedTimeNs) + 11_000 * i
        invariant transfers == old(transfers)
      {
        StepNs(HalfBitNs);
        receivedByte := receivedByte << 1;
        var bit := vb.TransferSlaveClockBit(BitAt(sendByte, i));
        receivedByte := receivedByte | bit as byte;
        ReplyWindowStep(vb.replyAt, start, i);
        BitsPrefixStep(sendByte, i);
        AppendAssoc(old(vb.presented), BitsMsbFirst(sendByte)[..i], [BitAt(sendByte, i)]);
        StepNs(HalfBitNs);
      }
      assert BitsMsbFirst(sendByte)[..8] == BitsMsbFirst(sendByte);
      ReplyByteAssembled(vb.replyAt, |transfers|);
      transfers := transfers + [sendByte];
      assert transfers[..|transfers| - 1] == old(transfers);
    }

    /** `Read::read`: moves `min(buf.len(), queued)` bytes from the front of
      * the response buffer into `buf` and returns how many; it never fails. */
    method Read(buf: array<byte>) returns (n: nat)
      modifies this`responseBuffer, buf
      ensures n == if buf.Length < |old(responseBuffer)| then buf.Length else |old(responseBuffer)|
      ensures forall j :: 0 <= j < n ==> buf[j] == old(responseBuffer)[j]
      ensures forall j :: n <= j < buf.Length ==> buf[j] == old(buf[j])
      ensures responseBuffer == old(responseBuffer)[n..]
    {
      n := 0;
      while n < buf.Length
        invariant n <= buf.Length && n <= |old(responseBuffer)|
        invariant forall j :: 0 <= j < n ==> buf[j] == old(responseBuffer)[j]
        invariant forall j :: n <= j < buf.Length ==> buf[j] == old(buf[j])
        invariant responseBuffer == old(responseBuffer)[n..]
      {
        if responseBuffer == [] {
          break;
        }
        buf[n] := responseBuffer[0];
        responseBuffer := responseBuffer[1..];
        n := n + 1;
      }
    }

    /** One handshake stage: transfers `handshake` until it is echoed, at
      * most `MAX_HANDSHAKE_TRIES` times. */
    method Handshake(handshake: byte) returns (echoed: bool)
      requires Valid()
      modifies this`emulatedTimeNs, this`transfers, vb`steps, vb`presented
      ensures Valid()
      ensures var h := HandshakeRun(reply, |old(transfers)|, handshake, 0);
        && echoed == h.echoed
        && transfers == old(transfers) + Repeat(handshake, h.next - |old(transfers)|)
      ensures emulatedTimeNs >= old(emulatedTimeNs) + 88_000 * (|transfers| - |old(transfers)|)
    {
      ghost var pos := |transfers|;
      var handshakeTries := 0;
      while true
        invariant Valid()
        invariant handshakeTries < MaxHandshakeTries
        invariant transfers == old(transfers) + Repeat(handshake, handshakeTries)
        invariant forall j :: pos <= j < pos + handshakeTries ==> reply(j) != handshake
        invariant emulatedTimeNs >= old(emulatedTimeNs) + 88_000 * handshakeTries
        decreases MaxHandshakeTries - handshakeTries
      {
        var receivedByte := TransferByte(handshake);
        AppendAssoc(old(transfers), Repeat(handshake, handshakeTries), [handshake]);
        if receivedByte == handshake {
          HandshakeEchoedAfter(reply, pos, handshake, 0, handshakeTries);
          return true;
        }
        handshakeTries := handshakeTries + 1;
        if handshakeTries >= MaxHandshakeTries {
          HandshakeAllMissed(reply, pos, handshake, 0);
          return false;
        }
      }
    }

    /** Transfers `bytes` one after the other, ignoring the replies. */
    method SendBytes(bytes: seq<byte>)
      requires Valid()
      modifies this`emulatedTimeNs, this`transfers, vb`steps, vb`presented
      ensures Valid()
      ensures transfers == old(transfers) + bytes
      ensures emulatedTimeNs >= old(emulatedTimeNs) + 88_000 * |bytes|
    {
      for i := 0 to |bytes|
        invariant Valid()
        invariant transfers == old(transfers) + bytes[..i]
        invariant emulatedTimeNs >= old(emulatedTimeNs) + 88_000 * i
      {
        var _ := TransferByte(bytes[i]);
        assert bytes[..i + 1] == bytes[..i] + [bytes[i]];
      }
      assert bytes[..|bytes|] == bytes;
    }

    /** Receives `n` bytes, transferring 0x00 for each, onto the response buffer. */
    method ReceiveBytes(n: nat)
      requires Valid()
      modifies this`emulatedTimeNs, this`transfers, this`responseBuffer, vb`steps, vb`presented
      ensures Valid()
      ensures transfers == old(transfers) + Repeat(0x00, n)
      ensures responseBuffer == old(responseBuffer) + Replies(reply, |old(transfers)|, n)
      ensures emulatedTimeNs >= old(emulatedTimeNs) + 88_000 * n
    {
      ghost var pos := |transfers|;
      for i := 0 to n
        invariant Valid()
        invariant transfers == old(transfers) + Repeat(0x00, i)
        invariant responseBuffer == old(responseBuffer) + Replies(reply, pos, i)
        invariant emulatedTimeNs >= old(emulatedTimeNs) + 88_000 * i
      {
        var b := TransferByte(0x00);
        responseBuffer := responseBuffer + [b];
      }
    }

    /** The send stage of `write`: the send handshake, then the length byte
      * `sendPacketLen - 1` and the packet. */
    method SendStage(sendPacketLen: nat, sendPacket: seq<byte>) returns (echoed: bool)
      requires Valid()
      requires 1 <= sendPacketLen <= 256 && |sendPacket| == sendPacketLen
      modifies this`emulatedTimeNs, this`transfers, vb`steps, vb`presented
      ensures Valid()
      ensures var stage := SendStageSpec(reply, |old(transfers)|, [(sendPacketLen - 1) as byte] + sendPacket);
        && echoed == stage.echoed
        && transfers == old(transfers) + stage.sent
      ensures emulatedTimeNs >= old(emulatedTimeNs) + 88_000 * (|transfers| - |old(transfers)|)
    {
      ghost var pos := |transfers|;
      ghost var h := HandshakeRun(reply, pos, SendHandshake, 0);
      echoed := Handshake(SendHandshake);
      if !echoed {
        assert transfers == old(transfers) + (Repeat(SendHandshake, h.next - pos) + []);
        return;
      }
      ghost var shakes := transfers;
      var _ := TransferByte((sendPacketLen - 1) as byte);
      SendBytes(sendPacket);
      AppendAssoc(shakes, [(sendPacketLen - 1) as byte], sendPacket);
      AppendAssoc(old(transfers), Repeat(SendHandshake, h.next - pos), [(sendPacketLen - 1) as byte] + sendPacket);
    }

    /** After the receive handshake: one more 0x55 fetches the length byte
      * `len - 1`, then `len` transfers of 0x00 fetch the packet; both go on
      * the response buffer. */
    method ReceiveFrame()
      requires Valid()
      modifies this`emulatedTimeNs, this`transfers, this`responseBuffer, vb`steps, vb`presented
      ensures Valid()
      ensures var n := reply(|old(transfers)|) as int + 1;
        && transfers == old(transfers) + ([ReceiveHandshake] + Repeat(0x00, n))
        && responseBuffer == old(responseBuffer) + ([reply(|old(transfers)|)] + Replies(reply, |old(transfers)| + 1, n))
      ensures emulatedTimeNs >= old(emulatedTimeNs) + 88_000 * (|transfers| - |old(transfers)|)
    {
      var lenByte := TransferByte(ReceiveHandshake);
      var receivedPacketLen := lenByte as int + 1;
      assert (receivedPacketLen - 1) as byte == lenByte;
      responseBuffer := responseBuffer + [(receivedPacketLen - 1) as byte];
      ReceiveBytes(receivedPacketLen);
      AppendAssoc(old(responseBuffer), [lenByte], Replies(reply, |old(transfers)| + 1, receivedPacketLen));
      AppendAssoc(old(transfers), [ReceiveHandshake], Repeat(0x00, receivedPacketLen));
    }

    /** The receive stage of `write`: the receive handshake, then the length
      * byte and the packet it counts, both queued for `read`. */
    method ReceiveStage() returns (echoed: bool)
      requires Valid()
      modifies this`emulatedTimeNs, this`transfers, this`responseBuffer, vb`steps, vb`presented
      ensures Valid()
      ensures var stage := ReceiveStageSpec(reply, |old(transfers)|);
        && echoed == stage.echoed
        && transfers == old(transfers) + stage.sent
        && responseBuffer == old(responseBuffer) + stage.queued
      ensures emulatedTimeNs >= old(emulatedTimeNs) + 88_000 * (|transfers| - |old(transfers)|)
    {
      ghost var pos := |transfers|;
      ghost var h := HandshakeRun(reply, pos, ReceiveHandshake, 0);
      echoed := Handshake(ReceiveHandshake);
      if !echoed {
        assert responseBuffer == old(responseBuffer) + [];
        return;
      }
      ghost var p3 := |transfers|;
      ghost var shaken := transfers;
      ghost var queuedBefore := responseBuffer;
      assert p3 == h.next;
      ReceiveFrame();
      ReceiveStageComposed(reply, pos, p3, old(transfers), shaken, transfers, queuedBefore, responseBuffer);
    }

    /** The part of `write` after an echoed send stage: the response delay,
      * the receive stage and, when that is echoed, the settling delay. */
    method ReceiveAfterSend() returns (echoed: bool)
      requires Valid()
      modifies this`emulatedTimeNs, this`transfers, this`responseBuffer, vb`steps, vb`presented
      ensures Valid()
      ensures var stage := ReceiveStageSpec(reply, |old(transfers)|);
        && echoed == stage.echoed
        && transfers == old(transfers) + stage.sent
        && responseBuffer == old(responseBuffer) + stage.queued
      // the response delay, the transfers, and the settling delay once echoed
      ensures emulatedTimeNs >= old(emulatedTimeNs) + ResponseDelayNs + 88_000 * (|transfers| - |old(transfers)|)
        + (if echoed then SettleNs else 0)
    {
      StepNs(ResponseDelayNs);
      echoed := ReceiveStage();
      if echoed {
        StepNs(SettleNs);
      }
    }

    /** `Write::write`, given a whole frame: forwards it to the console after
      * the send handshake, then fetches the console's response frame after
      * the receive handshake and queues it for `read`. */
    method Write(buf: seq<byte>) returns (r: Result<nat, IoError>)
      requires Valid()
      requires |buf| >= 1 && |buf| >= buf[0] as int + 2
      modifies this`emulatedTimeNs, this`transfers, this`responseBuffer, vb`steps, vb`presented
      ensures Valid()
      ensures var run := WriteSpec(reply, |old(transfers)|, buf);
        && r == run.result
        && transfers == old(transfers) + run.sent
        && responseBuffer == old(responseBuffer) + run.queued
      ensures emulatedTimeNs >= old(emulatedTimeNs) + 88_000 * (|transfers| - |old(transfers)|)
      // past the send stage, the response delay and, on success, the settling delay
      ensures r != Err(SendHandshakeTimeout) ==>
        emulatedTimeNs >= old(emulatedTimeNs) + 88_000 * (|transfers| - |old(transfers)|) + ResponseDelayNs
          + (if r.Ok? then SettleNs else 0)
    {
      ghost var pos := |transfers|;
      var sendPacketLen := buf[0] as int + 1;
      var sendPacket := buf[1..1 + sendPacketLen];
      assert [(sendPacketLen - 1) as byte] + sendPacket == FrameOf(buf);

      // Send packet
      var echoed := SendStage(sendPacketLen, sendPacket);
      if !echoed {
        WriteOfSendStage(reply, pos, buf, SendStageSpec(reply, pos, FrameOf(buf)));
        return Err(SendHandshakeTimeout);
      }
      ghost var sent := transfers;

      // Receive packet
      echoed := ReceiveAfterSend();
      WriteComposed(reply, pos, buf, old(transfers), sent, transfers, old(responseBuffer), responseBuffer, echoed);
      r := if echoed then Ok(|buf|) else Err(ReceiveHandshakeTimeout);
    }
  }
}

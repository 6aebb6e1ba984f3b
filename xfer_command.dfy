/**
 * The WriteMemRegion command layer of the transfer tool
 * (xfertest/src/fuzzy.rs): chunking, command serialisation, response parsing
 * and the checksum confirmation of every chunk.
 */
module XferCommand {
  import opened Bytes
  import opened Results
  import opened Crapsum

  /** `vb_serial::Error`: the framing layer's failure (its type is not shown). */
  datatype SerialError = SerialError(code: int)

  /** `Error`. */
  datatype Error =
    | Serial(serial: SerialError)
    | DataEmpty
    | DataTooLarge
    | WrongCrapsum
    | InvalidResponse(data: seq<byte>)

  /** `Command`: the only command this layer issues. */
  datatype Command = WriteMemRegion(addr: word, data: seq<byte>)

  /** `Response`. */
  datatype Response = OkWithCrapsum(crapsum: Crapsum)

  /** What one packet exchange gives back: the reply payload or a serial error. */
  type Reply = Result<seq<byte>, SerialError>

  /** Data bytes one WriteMemRegion packet can carry: 256 less the opcode and
    * the 4-byte address. */
  const MaxChunkLen: nat := 256 - 5

  /** The responses `Response::parse` accepts, and what it makes of them. */
  function ResponseOf(data: seq<byte>): Result<Response, Error>
  {
    if |data| == 5 && data[0] == 0x00 then Ok(OkWithCrapsum(FromState(FromLe32(data[1..5]))))
    else Err(InvalidResponse(data))
  }

  /** `Response::parse`: shifts the four checksum bytes into a mutable state. */
  method ParseResponse(data: seq<byte>) returns (r: Result<Response, Error>)
    ensures r == ResponseOf(data)
    ensures r.Ok? <==> |data| == 5 && data[0] == 0x00
    ensures r.Err? ==> r.error == InvalidResponse(data)
  {
    if |data| == 0 {
      return Err(InvalidResponse(data));
    }
    if data[0] != 0x00 {
      return Err(InvalidResponse(data));
    }
    if |data| != 5 {
      return Err(InvalidResponse(data));
    }
    var state: word := 0;
    for i := 1 to 5
      invariant i == 1 ==> state == 0
      invariant i == 2 ==> state == (data[1] as word) << 24
      invariant i == 3 ==> state == ((data[1] as word) << 16) | ((data[2] as word) << 24)
      invariant i == 4 ==> state == ((data[1] as word) << 8) | ((data[2] as word) << 16) | ((data[3] as word) << 24)
      invariant i == 5 ==> state == FromLe32(data[1..5])
    {
      state := state >> 8;
      state := state | ((data[i] as word) << 24);
    }
    r := Ok(OkWithCrapsum(FromState(state)));
  }

  /** An acknowledgement carrying `x` as its little-endian checksum parses to `x`. */
  lemma ResponseOfLe32(x: word)
    ensures ResponseOf([0x00] + Le32(x)) == Ok(OkWithCrapsum(FromState(x)))
  {
    var d := [0x00] + Le32(x);
    assert d[1..5] == Le32(x);
    FromLe32OfLe32(x);
  }

  /** The payload `issue_command` builds for a WriteMemRegion command:
    * opcode 0x00, the address little-endian, then the data. */
  function Serialize(cmd: Command): (r: Result<seq<byte>, Error>)
    ensures r.Err? <==> cmd.data == [] || |cmd.data| > MaxChunkLen
    ensures cmd.data == [] ==> r == Err(DataEmpty)
    ensures cmd.data != [] && |cmd.data| > MaxChunkLen ==> r == Err(DataTooLarge)
    // a packet always fits a frame, and a receiver reading its fields back
    // recovers the opcode, the address and the data
    ensures r.Ok? ==>
      && |r.value| == 5 + |cmd.data| <= 256
      && r.value[0] == 0x00
      && FromLe32(r.value[1..5]) == cmd.addr
      && r.value[5..] == cmd.data
  {
    if cmd.data == [] then Err(DataEmpty)
    else if |cmd.data| > MaxChunkLen then Err(DataTooLarge)
    else
      var p := [0x00] + Le32(cmd.addr) + cmd.data;
      assert p[1..5] == Le32(cmd.addr);
      FromLe32OfLe32(cmd.addr);
      Ok(p)
  }

  /** `issue_command`: serialises `cmd`, exchanges it (the exchange's reply is
    * `reply`) and parses the response; also gives the packet it sent, if any,
    * and pairs the response with the checksum of that packet. */
  method IssueCommand(cmd: Command, reply: Reply) returns (r: Result<(Response, Crapsum), Error>, sent: Option<seq<byte>>)
    ensures Serialize(cmd).Err? ==> sent == None && r == Err(Serialize(cmd).error)
    ensures Serialize(cmd).Ok? ==> sent == Some(Serialize(cmd).value)
    ensures Serialize(cmd).Ok? ==>
      && (r.Ok? <==> reply.Ok? && ResponseOf(reply.value).Ok?)
      && (r.Ok? ==> r.value == (ResponseOf(reply.value).value, ChecksumOf(Serialize(cmd).value)))
      && (r.Err? ==> r.error == if reply.Err? then Serial(reply.error) else ResponseOf(reply.value).error)
  {
    var serialized := Serialize(cmd);
    if serialized.Err? {
      return Err(serialized.error), None;
    }
    var packet := serialized.value;
    var packetCrapsum := Compute(packet);
    sent := Some(packet);
    if reply.Err? {
      return Err(Serial(reply.error)), sent;
    }
    var response := ParseResponse(reply.value);
    if response.Err? {
      return Err(response.error), sent;
    }
    r := Ok((response.value, packetCrapsum));
  }

  /** The number of chunks `write_mem_region` cuts `n` bytes into. */
  function ChunkCount(n: nat): nat
  {
    (n + MaxChunkLen - 1) / MaxChunkLen
  }

  /** The byte offset of chunk `k`. */
  function ChunkOffset(k: nat): nat
  {
    MaxChunkLen * k
  }

  /** Chunk `k` of `data`: the next `min(remaining, 251)` bytes. */
  function ChunkAt(data: seq<byte>, k: nat): seq<byte>
    requires k < ChunkCount(|data|)
  {
    var lo := ChunkOffset(k);
    var hi := if |data| - lo > MaxChunkLen then lo + MaxChunkLen else |data|;
    data[lo..hi]
  }

  /** The command chunk `k` is sent as. */
  function ChunkCommand(addr: word, data: seq<byte>, k: nat): Command
    requires k < ChunkCount(|data|)
  {
    Command.WriteMemRegion(ChunkAddress(addr, ChunkOffset(k)), ChunkAt(data, k))
  }

  /** `addr + (data_offset as u32)`, wrapping at 32 bits. */
  function ChunkAddress(addr: word, offset: nat): word
  {
    addr + TruncWord(offset)
  }

  /** The whole packet chunk `k` is sent as. */
  function ChunkPacket(addr: word, data: seq<byte>, k: nat): seq<byte>
    requires k < ChunkCount(|data|)
  {
    ChunkLen(data, k);
    Serialize(ChunkCommand(addr, data, k)).value
  }

  /** Whether `reply` acknowledges `packet` with `packet`'s own checksum. */
  predicate Acked(reply: Reply, packet: seq<byte>)
  {
    reply.Ok? && ResponseOf(reply.value) == Ok(OkWithCrapsum(ChecksumOf(packet)))
  }

  /** The error `write_mem_region` stops with when `reply` does not acknowledge `packet`. */
  function Failure(reply: Reply, packet: seq<byte>): Error
  {
    if reply.Err? then Serial(reply.error)
    else if ResponseOf(reply.value).Err? then ResponseOf(reply.value).error
    else WrongCrapsum
  }

  /** Every chunk has `min(remaining, 251)` bytes: never none, never more than 251. */
  lemma ChunkLen(data: seq<byte>, k: nat)
    requires k < ChunkCount(|data|)
    ensures ChunkOffset(k) < |data|
    ensures |ChunkAt(data, k)| == (if |data| - ChunkOffset(k) > MaxChunkLen then MaxChunkLen else |data| - ChunkOffset(k))
    ensures 1 <= |ChunkAt(data, k)| <= MaxChunkLen
  {
  }

  /** There are `ceil(len / 251)` chunks: all but the last are full, and the
    * last one ends the data. */
  lemma ChunkCountBounds(n: nat)
    requires n > 0
    ensures ChunkCount(n) >= 1
    ensures ChunkOffset(ChunkCount(n) - 1) < n <= ChunkOffset(ChunkCount(n))
  {
  }

  /** The offset reached after `k` chunks. */
  function OffsetAfter(n: nat, k: nat): nat
  {
    if ChunkOffset(k) < n then ChunkOffset(k) else n
  }

  /** Where chunk `k` is when the offset reached after `k` chunks is short of
    * the end, and what the next chunk then reaches. */
  lemma ChunkAdvance(n: nat, k: nat)
    ensures OffsetAfter(n, k) == n <==> k >= ChunkCount(n)
    ensures OffsetAfter(n, k) < n ==>
      && k < ChunkCount(n)
      && OffsetAfter(n, k + 1) == (if n - ChunkOffset(k) > MaxChunkLen then ChunkOffset(k) + MaxChunkLen else n)
  {
  }

  /** The first `k` chunks, concatenated. */
  function ChunksUpTo(data: seq<byte>, k: nat): seq<byte>
    requires k <= ChunkCount(|data|)
  {
    if k == 0 then [] else ChunksUpTo(data, k - 1) + ChunkAt(data, k - 1)
  }

  /** The chunks are consecutive: the first `k` of them are the data before
    * chunk `k`'s offset, so all of them together are the data. */
  lemma {:induction false} ChunksUpToPrefix(data: seq<byte>, k: nat)
    requires k <= ChunkCount(|data|)
    ensures k < ChunkCount(|data|) ==> ChunksUpTo(data, k) == data[..ChunkOffset(k)]
    ensures k == ChunkCount(|data|) ==> ChunksUpTo(data, k) == data
  {
    if k > 0 {
      ChunksUpToPrefix(data, k - 1);
      ChunkLen(data, k - 1);
      var lo := ChunkOffset(k - 1);
      assert ChunksUpTo(data, k - 1) == data[..lo];
      if k < ChunkCount(|data|) {
        assert data[..ChunkOffset(k)] == data[..lo] + data[lo..ChunkOffset(k)];
      } else {
        assert data == data[..lo] + data[lo..];
      }
    }
  }

  /** How `write_mem_region` reads an `issue_command` outcome for `packet`:
    * it goes on exactly when the reply acknowledges the packet, and
    * otherwise stops with `Failure`. */
  lemma IssueOutcome(reply: Reply, packet: seq<byte>, response: Result<(Response, Crapsum), Error>)
    requires response.Ok? <==> reply.Ok? && ResponseOf(reply.value).Ok?
    requires response.Ok? ==> response.value == (ResponseOf(reply.value).value, ChecksumOf(packet))
    requires response.Err? ==> response.error == if reply.Err? then Serial(reply.error) else ResponseOf(reply.value).error
    ensures response.Ok? && response.value.0.crapsum == response.value.1 <==> Acked(reply, packet)
    ensures response.Err? ==> response.error == Failure(reply, packet)
    ensures response.Ok? && response.value.0.crapsum != response.value.1 ==> Failure(reply, packet) == WrongCrapsum
  {
  }

  /** What `write_mem_region` makes of `reply` to `packet`: it goes on when
    * the reply acknowledges the packet and otherwise stops with `Failure`. */
  function Verdict(reply: Reply, packet: seq<byte>): (v: Result<(), Error>)
    ensures v.Ok? <==> Acked(reply, packet)
  {
    if Acked(reply, packet) then Ok(()) else Err(Failure(reply, packet))
  }

  /** The packets of the first `k` chunks, in order. */
  function Packets(addr: word, data: seq<byte>, k: nat): (ps: seq<seq<byte>>)
    requires k <= ChunkCount(|data|)
    ensures |ps| == k
  {
    if k == 0 then [] else Packets(addr, data, k - 1) + [ChunkPacket(addr, data, k - 1)]
  }

  /** Packet `j` of the list is chunk `j`'s packet. */
  lemma {:induction false} PacketsAt(addr: word, data: seq<byte>, k: nat, j: nat)
    requires k <= ChunkCount(|data|) && j < k
    ensures Packets(addr, data, k)[j] == ChunkPacket(addr, data, j)
  {
    if j < k - 1 {
      PacketsAt(addr, data, k - 1, j);
    }
  }

  /** The verdicts on the packets `ps`, the j-th from the j-th reply. */
  function Verdicts(replies: nat -> Reply, ps: seq<seq<byte>>): (vs: seq<Result<(), Error>>)
    ensures |vs| == |ps|
    ensures forall j :: 0 <= j < |ps| ==> vs[j] == Verdict(replies(j), ps[j])
  {
    seq(|ps|, j requires 0 <= j < |ps| => Verdict(replies(j), ps[j]))
  }

  /** Sending `ps` one after the other, the verdict on each in `vs`, and
    * stopping at the first failing one: the outcome and the packets sent. */
  function SendUntilFailure(ps: seq<seq<byte>>, vs: seq<Result<(), Error>>): (Result<(), Error>, seq<seq<byte>>)
    requires |ps| == |vs|
    decreases |ps|
  {
    if ps == [] then (Ok(()), [])
    else if vs[0].Err? then (vs[0], [ps[0]])
    else
      var rest := SendUntilFailure(ps[1..], vs[1..]);
      (rest.0, [ps[0]] + rest.1)
  }

  /** The packets sent are a prefix of `ps`, not empty unless `ps` is; all
    * but the last passed; the outcome is the last one's verdict, and it is
    * a success exactly when every packet passed. */
  lemma {:induction false} SendUntilFailureSends(ps: seq<seq<byte>>, vs: seq<Result<(), Error>>)
    requires |ps| == |vs|
    ensures var (r, sent) := SendUntilFailure(ps, vs);
      && |sent| <= |ps|
      && (ps != [] ==> sent != [])
      && sent == ps[..|sent|]
      && (forall j :: 0 <= j < |sent| - 1 ==> vs[j].Ok?)
      && r == (if sent == [] then Ok(()) else vs[|sent| - 1])
      && (r.Ok? <==> |sent| == |ps| && forall j :: 0 <= j < |ps| ==> vs[j].Ok?)
    decreases |ps|
  {
    if ps != [] && vs[0].Ok? {
      SendUntilFailureSends(ps[1..], vs[1..]);
      var (r, rest) := SendUntilFailure(ps[1..], vs[1..]);
      assert SendUntilFailure(ps, vs).1 == [ps[0]] + rest;
      assert [ps[0]] + ps[1..][..|rest|] == ps[..|rest| + 1];
      assert forall j :: 1 <= j < |ps| ==> vs[1..][j - 1] == vs[j];
      if rest != [] {
        assert vs[1..][|rest| - 1] == vs[|rest|];
      } else {
        assert vs[0].value == ();
      }
    }
  }

  /** Sending from packet `k` on is packet `k`, then, if it passed, sending
    * from packet `k + 1` on. */
  lemma SendChunkStep(ps: seq<seq<byte>>, vs: seq<Result<(), Error>>, k: nat)
    requires |ps| == |vs| && k < |ps|
    ensures SendUntilFailure(ps[k..], vs[k..]) ==
      if vs[k].Err? then (vs[k], [ps[k]])
      else (SendUntilFailure(ps[k + 1..], vs[k + 1..]).0, [ps[k]] + SendUntilFailure(ps[k + 1..], vs[k + 1..]).1)
  {
    assert ps[k..][0] == ps[k] && vs[k..][0] == vs[k];
    assert ps[k..][1..] == ps[k + 1..] && vs[k..][1..] == vs[k + 1..];
  }

  /** The result of `write_mem_region` and the packets it sends, one per
    * chunk in chunk order, until the first chunk not acknowledged. */
  function WriteOutcome(addr: word, data: seq<byte>, replies: nat -> Reply): (Result<(), Error>, seq<seq<byte>>)
  {
    if data == [] then (Err(DataEmpty), [])
    else
      var ps := Packets(addr, data, ChunkCount(|data|));
      SendUntilFailure(ps, Verdicts(replies, ps))
  }

  /** One round of `write_mem_region`'s loop: sends chunk `k`, which starts at
    * `dataOffset` and has `packetLen` bytes, and checks the checksum it is
    * acknowledged with. */
  method WriteChunk(addr: word, data: seq<byte>, ghost k: nat, dataOffset: nat, packetLen: nat, reply: Reply)
    returns (r: Result<(), Error>, packet: seq<byte>)
    requires k < ChunkCount(|data|) && dataOffset == ChunkOffset(k) && packetLen == |ChunkAt(data, k)|
    ensures packet == ChunkPacket(addr, data, k)
    ensures r == Verdict(reply, packet)
  {
    ChunkLen(data, k);
    var chunkAddr := ChunkAddress(addr, dataOffset);
    var chunk := data[dataOffset..dataOffset + packetLen];
    var cmd := Command.WriteMemRegion(chunkAddr, chunk);
    assert cmd == ChunkCommand(addr, data, k);
    var response, sent := IssueCommand(cmd, reply);
    packet := sent.value;
    IssueOutcome(reply, packet, response);
    if response.Err? {
      return Err(response.error), packet;
    }
    var (resp, expectedCrapsum) := response.value;
    if resp.crapsum != expectedCrapsum {
      return Err(WrongCrapsum), packet;
    }
    r := Ok(());
  }

  /** With `sent` already sent, the write ends as sending the remaining
    * chunks' packets from chunk `|sent|` on would end it. */
  ghost predicate OutcomeAfter(addr: word, data: seq<byte>, replies: nat -> Reply, sent: seq<seq<byte>>)
  {
    var ps := Packets(addr, data, ChunkCount(|data|));
    var vs := Verdicts(replies, ps);
    && |sent| <= ChunkCount(|data|)
    && WriteOutcome(addr, data, replies)
      == (SendUntilFailure(ps[|sent|..], vs[|sent|..]).0, sent + SendUntilFailure(ps[|sent|..], vs[|sent|..]).1)
  }

  /** Before `write_mem_region`'s loop nothing is sent and every chunk is
    * still to go. */
  lemma WriteLoopStart(addr: word, data: seq<byte>, replies: nat -> Reply)
    requires data != []
    ensures OutcomeAfter(addr, data, replies, [])
  {
    var ps := Packets(addr, data, ChunkCount(|data|));
    var vs := Verdicts(replies, ps);
    assert ps[0..] == ps && vs[0..] == vs;
    assert [] + SendUntilFailure(ps, vs).1 == SendUntilFailure(ps, vs).1;
  }

  /** After every chunk has been sent and acknowledged, the write succeeds
    * with those packets. */
  lemma WriteLoopEnd(addr: word, data: seq<byte>, replies: nat -> Reply, sent: seq<seq<byte>>)
    requires |sent| == ChunkCount(|data|)
    requires OutcomeAfter(addr, data, replies, sent)
    ensures WriteOutcome(addr, data, replies) == (Ok(()), sent)
  {
    var ps := Packets(addr, data, ChunkCount(|data|));
    var vs := Verdicts(replies, ps);
    assert ps[|sent|..] == [];
    assert sent + [] == sent;
  }

  /** One round of `write_mem_region`'s loop, on the outcome: sending chunk
    * `|sent|` either ends the write with its failing verdict or leaves the
    * remaining chunks to send. */
  lemma WriteLoopStep(addr: word, data: seq<byte>, replies: nat -> Reply, sent: seq<seq<byte>>,
                      packet: seq<byte>, verdict: Result<(), Error>)
    requires |sent| < ChunkCount(|data|)
    requires OutcomeAfter(addr, data, replies, sent)
    requires packet == ChunkPacket(addr, data, |sent|) && verdict == Verdict(replies(|sent|), packet)
    ensures verdict.Err? ==> WriteOutcome(addr, data, replies) == (verdict, sent + [packet])
    ensures verdict.Ok? ==> OutcomeAfter(addr, data, replies, sent + [packet])
  {
    var ps := Packets(addr, data, ChunkCount(|data|));
    var vs := Verdicts(replies, ps);
    var k := |sent|;
    PacketsAt(addr, data, ChunkCount(|data|), k);
    assert vs[k] == verdict;
    SendChunkStep(ps, vs, k);
    AppendAssoc(sent, [packet], SendUntilFailure(ps[k + 1..], vs[k + 1..]).1);
  }

  /** `write_mem_region`, with the k-th packet exchange replying `replies(k)`.
    * Besides the result it gives the packets sent, in order. */
  method WriteMemRegion(addr: word, data: seq<byte>, replies: nat -> Reply) returns (r: Result<(), Error>, sent: seq<seq<byte>>)
    ensures (r, sent) == WriteOutcome(addr, data, replies)
  {
    if data == [] {
      return Err(DataEmpty), [];
    }
    sent := [];
    var dataOffset := 0;
    WriteLoopStart(addr, data, replies);
    while true
      invariant |sent| <= ChunkCount(|data|)
      invariant dataOffset == OffsetAfter(|data|, |sent|)
      invariant OutcomeAfter(addr, data, replies, sent)
      decreases |data| - dataOffset
    {
      var packetLen := |data| - dataOffset;
      if packetLen > MaxChunkLen {
        packetLen := MaxChunkLen;
      }
      if packetLen == 0 {
        ChunkAdvance(|data|, |sent|);
        break;
      }
      var k := |sent|;
      ChunkAdvance(|data|, k);
      ChunkAdvance(|data|, k + 1);
      ChunkLen(data, k);
      var chunkResult, packet := WriteChunk(addr, data, k, dataOffset, packetLen, replies(k));
      WriteLoopStep(addr, data, replies, sent, packet, chunkResult);
      sent := sent + [packet];
      assert |sent| == k + 1;
      if chunkResult.Err? {
        return chunkResult, sent;
      }
      dataOffset := dataOffset + packetLen;
    }
    WriteLoopEnd(addr, data, replies, sent);
    r := Ok(());
  }

  /** What `write_mem_region` promises: empty data is refused before anything
    * is sent; otherwise it sends chunk after chunk, each to `addr` plus the
    * chunk's offset, until a chunk is not acknowledged with its checksum, and
    * it succeeds exactly when every chunk was. */
  lemma WriteOutcomeSends(addr: word, data: seq<byte>, replies: nat -> Reply)
    ensures var (r, sent) := WriteOutcome(addr, data, replies);
      && (data == [] ==> r == Err(DataEmpty) && sent == [])
      && (data != [] ==> 1 <= |sent| <= ChunkCount(|data|))
      && (forall k :: 0 <= k < |sent| ==> sent[k] == ChunkPacket(addr, data, k))
      && (forall k :: 0 <= k < |sent| - 1 ==> Acked(replies(k), sent[k]))
      && (r.Ok? <==> data != [] && |sent| == ChunkCount(|data|) && Acked(replies(|sent| - 1), sent[|sent| - 1]))
      && (r.Err? && data != [] ==> !Acked(replies(|sent| - 1), sent[|sent| - 1]) && r.error == Failure(replies(|sent| - 1), sent[|sent| - 1]))
  {
    if data != [] {
      var n := ChunkCount(|data|);
      ChunkCountBounds(|data|);
      var ps := Packets(addr, data, n);
      var vs := Verdicts(replies, ps);
      assert WriteOutcome(addr, data, replies) == SendUntilFailure(ps, vs);
      SendUntilFailureSends(ps, vs);
      var (r, sent) := SendUntilFailure(ps, vs);
      assert |sent| >= 1 && sent == ps[..|sent|];
      forall k | 0 <= k < |sent|
        ensures sent[k] == ChunkPacket(addr, data, k)
      {
        assert sent[k] == ps[k];
        PacketsAt(addr, data, n, k);
      }
      forall k | 0 <= k < |sent| - 1
        ensures Acked(replies(k), sent[k])
      {
        assert vs[k].Ok? && vs[k] == Verdict(replies(k), ps[k]) && sent[k] == ps[k];
      }
      var last := |sent| - 1;
      assert r == vs[last] && vs[last] == Verdict(replies(last), sent[last]);
    }
  }

  /** Writing succeeds exactly when the data is not empty and every one of its
    * chunks is acknowledged with that chunk's checksum. */
  lemma WriteSucceedsIffAllAcked(addr: word, data: seq<byte>, replies: nat -> Reply)
    ensures WriteOutcome(addr, data, replies).0.Ok? <==>
      data != [] && forall k :: 0 <= k < ChunkCount(|data|) ==> Acked(replies(k), ChunkPacket(addr, data, k))
  {
    WriteOutcomeSends(addr, data, replies);
    var (r, sent) := WriteOutcome(addr, data, replies);
    if data != [] {
      var n := ChunkCount(|data|);
      var last := |sent| - 1;
      assert sent[last] == ChunkPacket(addr, data, last);
      if r.Ok? {
        forall k | 0 <= k < n
          ensures Acked(replies(k), ChunkPacket(addr, data, k))
        {
          assert sent[k] == ChunkPacket(addr, data, k);
        }
      }
    }
  }
}

/**
 * The differential test harness (fuzzy/src/main.rs): the same ROM is run on
 * the hardware port and on the emulated port through the same four commands,
 * and the 32 result registers each side reports are compared.
 */
module Harness {
  import opened Bytes
  import opened Results

  /** Where the initial registers are written. */
  const InitialRegsAddr: word := 0x0001_e000

  /** The value of every initial register. */
  const InitialRegValue: word := 0xdead_beef

  /** Initial registers cover r0..r29. */
  const InitialRegCount: nat := 30

  /** The result block holds 32 words. */
  const ResultRegCount: nat := 32

  /** The result block follows the 32-word initial block. */
  const ResultRegsAddr: word := InitialRegsAddr + 32 * 4

  /** The initial registers, `[0xdeadbeef; 30]`. */
  function InitialRegs(): (regs: seq<word>)
    ensures |regs| == InitialRegCount
    ensures forall i :: 0 <= i < |regs| ==> regs[i] == 0xdead_beef
  {
    seq(InitialRegCount, _ => InitialRegValue)
  }

  /** The registers as 4-byte little-endian groups, in order
    * (`flat_map` with `write_u32::<LittleEndian>`). */
  function EncodeRegs(regs: seq<word>): (bytes: seq<byte>)
    ensures |bytes| == 4 * |regs|
  {
    if regs == [] then [] else EncodeRegs(regs[..|regs| - 1]) + Le32(regs[|regs| - 1])
  }

  /** Bytes `4i..4i+4` of the encoding are register `i`, least significant first. */
  lemma {:induction false} EncodeRegsAt(regs: seq<word>, i: nat)
    requires i < |regs|
    ensures EncodeRegs(regs)[4 * i .. 4 * i + 4] == Le32(regs[i])
  {
    var n := |regs|;
    var front := regs[..n - 1];
    Slices(EncodeRegs(front), Le32(regs[n - 1]));
    if i < n - 1 {
      EncodeRegsAt(front, i);
      assert EncodeRegs(regs)[..4 * (n - 1)][4 * i .. 4 * i + 4] == EncodeRegs(regs)[4 * i .. 4 * i + 4];
    }
  }

  /** Both halves of `a + b` can be sliced back out of it. */
  lemma Slices<T>(a: seq<T>, b: seq<T>)
    ensures (a + b)[..|a|] == a && (a + b)[|a|..] == b
  {
  }

  /** The 120 bytes of the initial register write: 30 copies of
    * `ef be ad de`. */
  lemma InitialRegsBytes()
    ensures |EncodeRegs(InitialRegs())| == 120
    ensures forall i :: 0 <= i < InitialRegCount ==>
      EncodeRegs(InitialRegs())[4 * i .. 4 * i + 4] == [0xef, 0xbe, 0xad, 0xde]
  {
    var regs := InitialRegs();
    forall i | 0 <= i < InitialRegCount
      ensures EncodeRegs(regs)[4 * i .. 4 * i + 4] == [0xef, 0xbe, 0xad, 0xde]
    {
      EncodeRegsAt(regs, i);
      assert regs[i] == 0xdead_beef;
    }
  }

  /** The word the inner decode loop assembles from `d`: each byte is OR-ed in
    * at the top after the word so far is shifted down by 8. */
  function ShiftIn(d: seq<byte>): word
  {
    if d == [] then 0 else (ShiftIn(d[..|d| - 1]) >> 8) | ((d[|d| - 1] as word) << 24)
  }

  /** Four bytes shifted in from the top give their little-endian word. */
  lemma ShiftInFour(d: seq<byte>)
    requires |d| == 4
    ensures ShiftIn(d) == FromLe32(d)
  {
    var a, b, c, e := d[0] as word, d[1] as word, d[2] as word, d[3] as word;
    var d1, d2, d3 := d[..1], d[..2], d[..3];
    assert d1[..0] == [] && d2[..1] == d1 && d3[..2] == d2 && d[..3] == d3;
    assert d1[0] == d[0] && d2[1] == d[1] && d3[2] == d[2];
    ShiftInSnoc(d1);
    ShiftInSnoc(d2);
    ShiftInSnoc(d3);
    ShiftInSnoc(d);
    ShiftFourBytes(a, b, c, e);
  }

  /** One more byte shifts the word right and enters at the top. */
  lemma ShiftInSnoc(d: seq<byte>)
    requires |d| > 0
    ensures ShiftIn(d) == (ShiftIn(d[..|d| - 1]) >> 8) | ((d[|d| - 1] as word) << 24)
  {
  }

  /** The word algebra behind `ShiftInFour`. */
  lemma ShiftFourBytes(a: word, b: word, c: word, e: word)
    requires a < 0x100 && b < 0x100 && c < 0x100 && e < 0x100
    ensures ((((((((0 >> 8) | (a << 24)) >> 8) | (b << 24)) >> 8) | (c << 24)) >> 8) | (e << 24))
      == a | (b << 8) | (c << 16) | (e << 24)
  {
  }

  /** The first `n` little-endian words of `bytes`. */
  function DecodeRegs(bytes: seq<byte>, n: nat): (regs: seq<word>)
    requires |bytes| >= 4 * n
    ensures |regs| == n
  {
    if n == 0 then [] else DecodeRegs(bytes, n - 1) + [FromLe32(bytes[4 * (n - 1) .. 4 * n])]
  }

  /** Word `i` is assembled from bytes `4i..4i+4`, the lowest first. */
  lemma {:induction false} DecodeRegsAt(bytes: seq<byte>, n: nat, i: nat)
    requires |bytes| >= 4 * n && i < n
    ensures DecodeRegs(bytes, n)[i] ==
      (bytes[4 * i] as word) | ((bytes[4 * i + 1] as word) << 8)
      | ((bytes[4 * i + 2] as word) << 16) | ((bytes[4 * i + 3] as word) << 24)
  {
    if i < n - 1 {
      DecodeRegsAt(bytes, n - 1, i);
    }
  }

  /** Encoding one more register appends its four bytes. */
  lemma EncodeSnoc(regs: seq<word>, w: word)
    ensures EncodeRegs(regs + [w]) == EncodeRegs(regs) + Le32(w)
  {
    assert (regs + [w])[..|regs|] == regs;
  }

  /** Decoding only reads the first `4 n` bytes. */
  lemma {:induction false} DecodePrefix(bytes: seq<byte>, m: nat, n: nat)
    requires 4 * n <= m <= |bytes|
    ensures DecodeRegs(bytes[..m], n) == DecodeRegs(bytes, n)
  {
    if n > 0 {
      DecodePrefix(bytes, m, n - 1);
      var a := 4 * (n - 1);
      assert a + 4 == 4 * n <= m;
      assert bytes[..m][a .. a + 4] == bytes[a .. a + 4];
    }
  }

  /** Decoding `n - 1` words and four more bytes appends their word. */
  lemma DecodeSnoc(front: seq<byte>, last: seq<byte>, n: nat)
    requires |front| == 4 * n && |last| == 4
    ensures DecodeRegs(front + last, n + 1) == DecodeRegs(front, n) + [FromLe32(last)]
  {
    Slices(front, last);
    DecodePrefix(front + last, 4 * n, n);
  }

  /** Decoding what the encoder writes gives back the registers. */
  lemma {:induction false} DecodeEncode(regs: seq<word>)
    ensures DecodeRegs(EncodeRegs(regs), |regs|) == regs
  {
    if regs != [] {
      var n := |regs|;
      var front, w := regs[..n - 1], regs[n - 1];
      assert regs == front + [w];
      EncodeSnoc(front, w);
      DecodeSnoc(EncodeRegs(front), Le32(w), n - 1);
      DecodeEncode(front);
      FromLe32OfLe32(w);
    }
  }

  /** Encoding the decoded words gives back the bytes. */
  lemma {:induction false} EncodeDecode(bytes: seq<byte>, n: nat)
    requires |bytes| == 4 * n
    ensures EncodeRegs(DecodeRegs(bytes, n)) == bytes
  {
    if n > 0 {
      var front, last := bytes[..4 * (n - 1)], bytes[4 * (n - 1)..];
      assert bytes == front + last;
      DecodeSnoc(front, last, n - 1);
      EncodeSnoc(DecodeRegs(front, n - 1), FromLe32(last));
      EncodeDecode(front, n - 1);
      Le32OfFromLe32(last);
    }
  }

  /** The result decode of `test_rom_on_port`: 32 words, each from four
    * bytes shifted in from the top. */
  method DecodeResultRegs(resultRegsBytes: seq<byte>) returns (resultRegs: seq<word>)
    requires |resultRegsBytes| >= 4 * ResultRegCount
    ensures resultRegs == DecodeRegs(resultRegsBytes, ResultRegCount)
  {
    resultRegs := [];
    for i := 0 to 32
      invariant resultRegs == DecodeRegs(resultRegsBytes, i)
    {
      var reg: word := 0;
      for j := 0 to 4
        invariant reg == ShiftIn(resultRegsBytes[4 * i .. 4 * i + j])
      {
        reg := reg >> 8;
        reg := reg | ((resultRegsBytes[i * 4 + j] as word) << 24);
        assert resultRegsBytes[4 * i .. 4 * i + j + 1][..j] == resultRegsBytes[4 * i .. 4 * i + j];
      }
      ShiftInFour(resultRegsBytes[4 * i .. 4 * i + 4]);
      resultRegs := resultRegs + [reg];
    }
  }

  /** `command::Error` (the command module is not part of this model). */
  datatype CommandError = CommandError(code: int)

  /** The commands the harness issues through `command::*`. */
  datatype PortCommand =
    | WriteMem(addr: word, data: seq<byte>)
    | Execute(entry: word)
    | ReadMem(addr: word, len: nat)

  /** What a port answers to a command: the bytes read (empty for writes and
    * execute) or the command's error. */
  type CommandReply = Result<seq<byte>, CommandError>

  /** A port as the harness sees it through `command::*`: it answers the k-th
    * command issued on it with `answer(k)`. */
  class CommandPort {
    const answer: nat -> CommandReply
    var issued: seq<PortCommand>

    constructor(answer: nat -> CommandReply)
      ensures this.answer == answer && issued == []
    {
      this.answer := answer;
      issued := [];
    }

    /** Issues one command. */
    method Issue(cmd: PortCommand) returns (r: CommandReply)
      modifies this
      ensures issued == old(issued) + [cmd]
      ensures r == answer(|old(issued)|)
    {
      r := answer(|issued|);
      issued := issued + [cmd];
    }
  }

  /** The four commands of `test_rom_on_port`, in order. */
  function PortScript(rom: seq<byte>, romAddr: word): (s: seq<PortCommand>)
    ensures |s| == 4
    ensures s[0] == WriteMem(romAddr, rom)
    ensures s[1].WriteMem? && s[1].addr == 0x0001_e000 && |s[1].data| == 120
    ensures s[2] == Execute(romAddr)
    ensures s[3] == ReadMem(0x0001_e080, 128)
  {
    [ WriteMem(romAddr, rom),
      WriteMem(InitialRegsAddr, EncodeRegs(InitialRegs())),
      Execute(romAddr),
      ReadMem(ResultRegsAddr, 4 * ResultRegCount) ]
  }

  /** Why a dispatch produced no registers: a command failed, or the result
    * read came back shorter than the decode loop indexes (a panic). */
  datatype DispatchError = CommandFailed(error: CommandError) | ShortResult(len: nat)

  /** One dispatch: how many commands were issued, and its result. */
  datatype Dispatch = Dispatch(issued: nat, result: Result<seq<word>, DispatchError>)

  /** `test_rom_on_port` on a port whose answers from command `start` on are
    * given: the commands run in order and the first error ends the dispatch. */
  function DispatchSpec(answer: nat -> CommandReply, start: nat, rom: seq<byte>): Dispatch
  {
    if answer(start).Err? then Dispatch(1, Err(CommandFailed(answer(start).error)))
    else if answer(start + 1).Err? then Dispatch(2, Err(CommandFailed(answer(start + 1).error)))
    else if answer(start + 2).Err? then Dispatch(3, Err(CommandFailed(answer(start + 2).error)))
    else if answer(start + 3).Err? then Dispatch(4, Err(CommandFailed(answer(start + 3).error)))
    else
      var bytes := answer(start + 3).value;
      if |bytes| < 4 * ResultRegCount then Dispatch(4, Err(ShortResult(|bytes|)))
      else Dispatch(4, Ok(DecodeRegs(bytes, ResultRegCount)))
  }

  /** A dispatch issues the commands up to and including the first one that
    * fails, and that failure is its result; it produces registers only when
    * all four commands succeed, and then they are the 32 little-endian words
    * at the front of the bytes read. */
  lemma DispatchStopsAtFirstError(answer: nat -> CommandReply, start: nat, rom: seq<byte>)
    ensures var run := DispatchSpec(answer, start, rom);
      && 1 <= run.issued <= 4
      && (forall k :: start <= k < start + run.issued - 1 ==> answer(k).Ok?)
      && (run.result.Err? && run.result.error.CommandFailed? <==> answer(start + run.issued - 1).Err?)
      && (run.result.Err? && run.result.error.CommandFailed? ==>
            run.result.error.error == answer(start + run.issued - 1).error)
    ensures var run := DispatchSpec(answer, start, rom);
      run.result.Ok? <==>
        && (forall k :: start <= k < start + 4 ==> answer(k).Ok?)
        && |answer(start + 3).value| >= 128
    ensures var run := DispatchSpec(answer, start, rom);
      run.result.Ok? ==>
        && run.issued == 4
        && |run.result.value| == 32
        && forall i :: 0 <= i < 32 ==> run.result.value[i] == FromLe32(answer(start + 3).value[4 * i .. 4 * i + 4])
  {
    var run := DispatchSpec(answer, start, rom);
    if run.result.Ok? {
      var bytes := answer(start + 3).value;
      forall i | 0 <= i < 32
        ensures run.result.value[i] == FromLe32(bytes[4 * i .. 4 * i + 4])
      {
        DecodeRegsAt(bytes, 32, i);
      }
    }
  }

  /** `test_rom_on_port`. */
  method TestRomOnPort(port: CommandPort, rom: seq<byte>, romAddr: word) returns (r: Result<seq<word>, DispatchError>)
    modifies port
    ensures var run := DispatchSpec(port.answer, |old(port.issued)|, rom);
      && r == run.result
      && port.issued == old(port.issued) + PortScript(rom, romAddr)[..run.issued]
  {
    ghost var script := PortScript(rom, romAddr);
    var ack := port.Issue(WriteMem(romAddr, rom));
    if ack.Err? {
      return Err(CommandFailed(ack.error));
    }
    var initialRegsBytes := EncodeRegs(InitialRegs());
    ack := port.Issue(WriteMem(InitialRegsAddr, initialRegsBytes));
    if ack.Err? {
      return Err(CommandFailed(ack.error));
    }
    var execEntry := romAddr;
    ack := port.Issue(Execute(execEntry));
    if ack.Err? {
      return Err(CommandFailed(ack.error));
    }
    var resultRegsBytes := port.Issue(ReadMem(ResultRegsAddr, 4 * ResultRegCount));
    assert port.issued == old(port.issued) + script[..4];
    if resultRegsBytes.Err? {
      return Err(CommandFailed(resultRegsBytes.error));
    }
    if |resultRegsBytes.value| < 4 * ResultRegCount {
      return Err(ShortResult(|resultRegsBytes.value|));
    }
    var resultRegs := DecodeResultRegs(resultRegsBytes.value);
    r := Ok(resultRegs);
  }

  /** What `test_rom` reports: whether the two register vectors matched, or
    * the error that stopped it. */
  function TestRomSpec(hw: Dispatch, emu: Dispatch): Result<bool, DispatchError>
  {
    if hw.result.Err? then Err(hw.result.error)
    else if emu.result.Err? then Err(emu.result.error)
    else Ok(hw.result.value == emu.result.value)
  }

  /** `test_rom` reports a match exactly when both dispatches produced
    * registers and they agree word for word; a hardware failure is reported
    * as such whatever the emulator would have done. */
  lemma TestRomMatchIffEqual(hw: Dispatch, emu: Dispatch)
    requires hw.result.Ok? ==> |hw.result.value| == 32
    requires emu.result.Ok? ==> |emu.result.value| == 32
    ensures TestRomSpec(hw, emu) == Ok(true) <==>
      && hw.result.Ok? && emu.result.Ok?
      && forall i :: 0 <= i < 32 ==> hw.result.value[i] == emu.result.value[i]
    ensures hw.result.Err? ==> TestRomSpec(hw, emu) == Err(hw.result.error)
  {
    if hw.result.Ok? && emu.result.Ok? && forall i :: 0 <= i < 32 ==> hw.result.value[i] == emu.result.value[i] {
      assert hw.result.value == emu.result.value;
    }
  }

  /** `test_rom`: the hardware dispatch first; the emulated port is used only
    * once the hardware dispatch has produced registers. */
  method TestRom(hwPort: CommandPort, emuPort: CommandPort, rom: seq<byte>, romAddr: word) returns (r: Result<bool, DispatchError>)
    requires hwPort != emuPort
    modifies hwPort, emuPort
    ensures var hw := DispatchSpec(hwPort.answer, |old(hwPort.issued)|, rom);
      var emu := DispatchSpec(emuPort.answer, |old(emuPort.issued)|, rom);
      && hwPort.issued == old(hwPort.issued) + PortScript(rom, romAddr)[..hw.issued]
      && (hw.result.Err? ==> emuPort.issued == old(emuPort.issued))
      && (hw.result.Ok? ==> emuPort.issued == old(emuPort.issued) + PortScript(rom, romAddr)[..emu.issued])
      && r == TestRomSpec(hw, emu)
  {
    var hwResultRegs := TestRomOnPort(hwPort, rom, romAddr);
    if hwResultRegs.Err? {
      return Err(hwResultRegs.error);
    }
    var emuResultRegs := TestRomOnPort(emuPort, rom, romAddr);
    if emuResultRegs.Err? {
      return Err(emuResultRegs.error);
    }
    r := Ok(hwResultRegs.value == emuResultRegs.value);
  }
}

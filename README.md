# Virtual Boy link protocol, modelled in Dafny

This project models a differential-testing rig for the Nintendo Virtual Boy. A
host program sends a test ROM to two targets: a real console, over a serial
adapter, and an emulated console. It then compares the CPU registers the two
targets report. Both ends talk the same packet protocol.

The model covers:

- **Checksum.** The 32-bit rolling checksum ("crapsum") that both ends use
  (`Crapsum`).
- **Framing.** A one-byte length, holding the packet length minus one,
  followed by 1 to 256 payload bytes (`VbSerial`).
- **Commands.** The command layer assembles `[opcode, address LE, data]`
  packets, splits memory writes into chunks of 251 bytes, and accepts a
  response only when its checksum matches the packet sent (`XferCommand`).
- **Console link routines.** The serial test ROM's receive and send routines:
  a handshake, an echo, the length, then the bytes (`SerialLink`). Its `main`
  loop answers each packet with that packet's checksum (`SerialRom`).
- **Emulated link port.** The port clocks each byte over the link one bit at
  a time, in virtual time, and queues the console's response frame for
  reading (`Emu`).
- **Harness.** It writes the ROM, writes the initial registers, executes, and
  reads and decodes the 32 result registers. It then compares the hardware
  run against the emulator run (`Harness`).
- **Text consoles.** The ROMs' text consoles: 48-column line breaking into
  background map 0, hexadecimal output, and the test ROM's register dump
  (`RomConsole`, `TestRomConsole`, `Hex`, `MapText`).
- **Memory map.** The Virtual Boy memory-map macros, the world-attribute
  layout, `WORLD_PARAM`, and the default column table (`VbHardware`).

The checksum step reads like "rotate left by 3, then XOR the byte", but `^`
binds tighter than `|`, so the code computes `(s << 3) | ((s >> 29) ^ b)`. The
two agree only for bytes below 8. `Crapsum.Step` and `Crapsum.StepBits` state the
step's actual bit layout, and `Crapsum.NotRotateThenXor` gives an input where the two
differ. The console's `linkUpdateCrapsum` computes the same step.

Every operation becomes a function over the protocol's values. Stateful code
becomes a class or a method:

- the serial port and its queue;
- the C statics of the link routines;
- the emulated port's response buffer and clock;
- the map and cursor globals of the consoles;
- the column-table array.

Each method is proved against a specification function. The properties are
proved about those functions.

## Model

| member | source | states |
|---|---|---|
| Crapsum.Step | xfertest/src/crapsum.rs:25-27 | The new state's low three bits are the byte's low three bits XOR the old state's top three bits. |
| Crapsum.StepBits | xfertest/src/crapsum.rs:25-27 | One checksum step moves bits 5..28 of the state to bits 8..31. It ORs the old bits 0..4 with the byte's bits 3..7. |
| Crapsum.StepOfSmallByte | xfertest/src/crapsum.rs:26 | For a byte below 8, the step is a 3-bit left rotation followed by an XOR with the byte. |
| Crapsum.NotRotateThenXor | xfertest/src/crapsum.rs:26 | For a byte of 8 or more the step is not rotate-then-XOR: state 1 and byte 8 give 8, where rotate-then-XOR gives 0. |
| Crapsum.FromState | xfertest/src/crapsum.rs:15-19 | Wrapping a state keeps it unchanged. |
| Crapsum.New | xfertest/src/crapsum.rs:21-23 | A new checksum starts at 0xfadebabe. |
| Crapsum.Compute | xfertest/src/crapsum.rs:7-13 | The loop returns the checksum of the data: the step folded over its bytes from 0xfadebabe. Empty data gives the initial checksum. |
| Crapsum.FoldAppend | xfertest/src/crapsum.rs:7-13 | Folding over `a + b` is folding over `b` from the state that `a` left. |
| Crapsum.ChecksumAppend | xfertest/src/crapsum.rs:7-13 | The checksum of `a + b` continues the checksum of `a` over `b`, so it can be computed incrementally. |
| Crapsum.ChecksumSnoc | xfertest/src/crapsum.rs:7-27 | One more byte is one more `update`. |
| Crapsum.ChecksumOfEmpty | xfertest/src/crapsum.rs:7-23 | The checksum of no bytes is `new()`. |
| Crapsum.FromStateExact | xfertest/src/crapsum.rs:1-19 | `from_state` keeps the state. Two checksums are equal exactly when their states are. |
| Bytes.FromLe32OfLe32 | xfertest/src/fuzzy.rs:98 | Reading back the four little-endian bytes of a word gives the word. |
| Bytes.Le32OfFromLe32 | xfertest/src/fuzzy.rs:37-43 | Encoding the word read from four bytes gives those bytes back. |
| VbSerial.Frame | xfertest/src/vb_serial.rs:24-27 | A frame is one byte longer than its packet. Its first byte plus one is the packet length. The packet follows unchanged. |
| VbSerial.LenByteValue | xfertest/src/vb_serial.rs:25 | A packet of 1..256 bytes has a length byte: its length minus one, which fits a `u8`. |
| VbSerial.Unframe | xfertest/src/vb_serial.rs:29-37 | A frame is read off a stream exactly when the stream holds the length byte and all the bytes it counts. The frame and the rest of the stream make up the stream again. |
| VbSerial.UnframeFrame | xfertest/src/vb_serial.rs:24-37 | Reading a framed packet off the front of any stream gives back the packet and the rest of the stream. |
| VbSerial.Port.Write | xfertest/src/vb_serial.rs:27 | Writing appends the bytes to what the port has sent. |
| VbSerial.Port.Read | xfertest/src/vb_serial.rs:7 | A read succeeds exactly when the next scripted read delivers. It copies as many of the bytes as the rest of the buffer has room for, in order, and leaves the rest of the buffer alone. The bytes that do not fit stay queued for the next read. A failed read changes nothing in the buffer. |
| VbSerial.BlockingRead | xfertest/src/vb_serial.rs:3-15 | Failed and short reads are retried. The loop fills a non-empty buffer exactly when the scripted reads deliver at least the buffer's length. The buffer then holds the first bytes delivered, in order, and the later reads keep the rest. |
| VbSerial.BlockingReadByte | xfertest/src/vb_serial.rs:40-44 | A byte is read exactly when the reads still deliver one. It is the first byte delivered. |
| VbSerial.ExchangePacket | xfertest/src/vb_serial.rs:17-38 | Packets of length 0 or over 256 panic, and nothing is sent. Otherwise the frame of the packet is written. A reply is the payload of the frame read back, from 1 to 256 bytes. When no whole frame arrives, the exchange stalls. |
| XferCommand.ParseResponse | xfertest/src/fuzzy.rs:26-47 | The response parses exactly when it is 5 bytes starting with 0. It then carries the little-endian checksum; otherwise the error holds the raw bytes. |
| XferCommand.ResponseOfLe32 | xfertest/src/fuzzy.rs:37-43 | A response made of 0 and the little-endian bytes of a state parses to that state. |
| XferCommand.Serialize | xfertest/src/fuzzy.rs:88-105 | Empty data is refused with `DataEmpty` and data over 251 bytes with `DataTooLarge`. Otherwise the packet is at most 256 bytes. Its opcode is 0, its address field reads back as the address, and the data follows. |
| XferCommand.IssueCommand | xfertest/src/fuzzy.rs:87-110 | A command the serialiser refuses is not sent. Otherwise its packet is sent. The result is the parsed response paired with the packet's checksum, or the exchange's or the parser's error. |
| XferCommand.ChunkLen | xfertest/src/fuzzy.rs:57-64 | Each chunk starts inside the data. It is 251 bytes, or the remainder when less is left. |
| XferCommand.ChunkCountBounds | xfertest/src/fuzzy.rs:55-80 | Non-empty data has at least one chunk. The last chunk starts before the end and ends at it. |
| XferCommand.ChunkAdvance | xfertest/src/fuzzy.rs:57-79 | The offset reaches the data's length exactly after the last chunk, and it grows by each chunk's length. |
| XferCommand.ChunksUpToPrefix | xfertest/src/fuzzy.rs:55-80 | The chunks sent so far are the data up to the offset, and all of them together are the data. |
| XferCommand.IssueOutcome | xfertest/src/fuzzy.rs:69-77 | A chunk is acknowledged exactly when the response parses and echoes the chunk's checksum. A wrong checksum gives `WrongCrapsum`. |
| XferCommand.Verdict | xfertest/src/fuzzy.rs:69-77 | A chunk passes exactly when it is acknowledged. |
| XferCommand.SendUntilFailureSends | xfertest/src/fuzzy.rs:56-80 | The packets sent are a prefix of the chunk packets, and all but the last passed. The outcome is the last one's verdict, and it is a success exactly when every chunk passed. |
| XferCommand.WriteChunk | xfertest/src/fuzzy.rs:57-77 | One pass sends the chunk packet for the current offset, with the address advanced and wrapped at 32 bits, and judges its reply. |
| XferCommand.WriteLoopStart | xfertest/src/fuzzy.rs:55 | Before the loop, nothing has been sent. |
| XferCommand.WriteLoopEnd | xfertest/src/fuzzy.rs:62-84 | When every chunk has passed, the write succeeds with exactly those packets sent. |
| XferCommand.WriteLoopStep | xfertest/src/fuzzy.rs:56-80 | A failing chunk ends the write with its failure. A passing one leaves the loop state consistent with one more chunk sent. |
| XferCommand.WriteMemRegion | xfertest/src/fuzzy.rs:50-85 | The loop computes the write's outcome and the packets it sent. |
| XferCommand.WriteOutcomeSends | xfertest/src/fuzzy.rs:50-85 | Empty data fails with `DataEmpty` and sends nothing. Otherwise the chunks are sent in order with their addresses, up to and including the first one not acknowledged. Success means every chunk was acknowledged; a failure is that chunk's error. |
| XferCommand.WriteSucceedsIffAllAcked | xfertest/src/fuzzy.rs:50-85 | A memory write succeeds exactly when the data is not empty and every chunk is acknowledged with its own checksum. |
| SerialLink.LinkUpdateCrapsum | serialtest/testrom.c:120-123 | The ROM's checksum step is the host's, so both ends sum the same bytes alike. |
| SerialLink.HandshakeRun | serialtest/testrom.c:135-148 | The handshake loop ends after at least one and at most 20 transfers. |
| SerialLink.HandshakeOutcome | serialtest/testrom.c:135-148 | The handshake succeeds exactly when the byte arrives within 20 tries and before a failed transfer. |
| SerialLink.DeliveredIsFirstFailure | serialtest/testrom.c:161-170 | The bytes a loop transfers end at its first failed transfer, or run to the end. |
| SerialLink.Count8Value | serialtest/testrom.c:163 | The loop counter, sent as a `u8`, is the index modulo 256. |
| SerialLink.PacketLen | serialtest/testrom.c:155-158 | The length a length byte announces is from 1 to 256. |
| SerialLink.ReceiveBodyOkIff | serialtest/testrom.c:150-172 | After the handshake, a receive succeeds exactly when the echo, the length byte and every packet byte transfer. It then holds the length byte plus one and the bytes in arrival order. It has sent the echo, 0xff and the counters. |
| SerialLink.ReceiveOkIff | serialtest/testrom.c:125-173 | `linkReceivePacket` succeeds exactly when the handshake arrives and every later transfer goes through. The packet, its length and the bytes sent are as above. |
| SerialLink.BareReturnCanReportSuccess | serialtest/testrom.c:155-157 | As written, a failed length transfer returns with no value. The caller can see `LINK_OK` with no packet and `receivePacketLen == LINK_ERR`. The corrected routine returns `LINK_ERR`. |
| SerialLink.SendBodyOkIff | serialtest/testrom.c:204-223 | After the handshake, a send succeeds exactly when the echo, the length byte and every packet byte transfer. It has then sent the echo, the length minus one and the packet, and summed the whole packet. |
| SerialLink.SendOkIff | serialtest/testrom.c:175-224 | A length outside 1..256 is refused before any transfer. Otherwise a send succeeds exactly when the handshake arrives and every later transfer goes through, with the bytes sent in order. |
| SerialLink.Link.constructor | serialtest/testrom.c:90-93 | The link statics start zeroed, with a 256-byte receive buffer. |
| SerialLink.Link.TransferByte | serialtest/testrom.c:101-118 | Each transfer logs the byte handed to the port. It returns the next scripted exchange. |
| SerialLink.Link.Handshake | serialtest/testrom.c:135-148 | The loop sends the 0x00 tries of `HandshakeRun` and reports whether the handshake arrived. |
| SerialLink.Link.ReceiveBytes | serialtest/testrom.c:161-170 | The loop sends the counters up to the first failure. The buffer holds the bytes received, and the checksum covers them. |
| SerialLink.Link.ReceiveByte | serialtest/testrom.c:163-169 | One pass stores and sums a received byte and changes nothing else in the buffer. |
| SerialLink.Link.ReceiveAfterEcho | serialtest/testrom.c:154-172 | The length transfer and the byte loop behave as `ReceiveTail` says: a failed length transfer stores `LINK_ERR` in `receivePacketLen` and returns `LINK_ERR`. |
| SerialLink.Link.ReceiveAfterHandshake | serialtest/testrom.c:150-172 | The echo and the rest behave as `ReceiveBody` says. |
| SerialLink.Link.ReceivePacket | serialtest/testrom.c:125-173 | The routine's result, the bytes it sends, the length it stores and the buffer contents are those of `ReceiveSpec`. The checksum is the checksum of the bytes received. |
| SerialLink.Link.SendBytes | serialtest/testrom.c:213-221 | The loop sends the packet bytes up to the first failure and sums each one delivered. |
| SerialLink.Link.SendAfterHandshake | serialtest/testrom.c:204-223 | The echo, the length byte and the packet are sent as `SendBody` says. |
| SerialLink.Link.SendPacket | serialtest/testrom.c:175-224 | The result, the bytes sent and the checksum are those of `SendSpec`. |
| Emu.FromBitsOfEight | fuzzy/src/emu.rs:80-81 | Shifting eight bits in packs them, the first one most significant. |
| Emu.FromBitsOfBits | fuzzy/src/emu.rs:75-86 | Presenting a byte most significant bit first and assembling those bits gives the byte. |
| Emu.BitsOfFromBits | fuzzy/src/emu.rs:75-86 | Assembling eight bits and presenting the byte gives the bits back. |
| Emu.ReplyByteAssembled | fuzzy/src/emu.rs:72-86 | The eight reply bits of the j-th transfer assemble into its reply byte. |
| Emu.HandshakeRun | fuzzy/src/emu.rs:119-131 | A handshake ends after 1 to 20 transfers. It takes all 20 when none is echoed. |
| Emu.HandshakeStopsAtFirstEcho | fuzzy/src/emu.rs:121-125 | A successful handshake stops right after the first echo, and every try before it missed. |
| Emu.HandshakeFailsIffNoEcho | fuzzy/src/emu.rs:121-131 | A handshake fails exactly when none of its 20 tries is echoed. |
| Emu.HandshakeEchoedAfter | fuzzy/src/emu.rs:121-131 | k misses followed by an echo end the handshake right after the echo. |
| Emu.HandshakeAllMissed | fuzzy/src/emu.rs:127-130 | Twenty misses end the handshake with a timeout. |
| Emu.FrameOf | fuzzy/src/emu.rs:110-111 | The forwarded frame is the length byte and the packet it counts. |
| Emu.ReceiveStageEchoed | fuzzy/src/emu.rs:148-172 | After an echoed receive handshake, the stage sends one more 0x55 and then `len` zeros. It queues the length byte and the `len` replies. |
| Emu.ReceiveStageQueuesOneFrame | fuzzy/src/emu.rs:146-172 | The receive stage queues nothing without an echo. Otherwise it queues exactly one whole frame read off consecutive replies. |
| Emu.WriteSendTimeoutIffNoEcho | fuzzy/src/emu.rs:119-131 | `write` fails with the send-handshake timeout exactly when none of its 20 tries of 0xAA is echoed. It then sends only those tries and queues nothing. |
| Emu.SendStageForwardsFrame | fuzzy/src/emu.rs:117-139 | Once the send handshake is echoed, the frame follows it unchanged. |
| Emu.WriteBeginsWithSendStage | fuzzy/src/emu.rs:107-179 | Every `write` begins with the send stage. |
| Emu.WriteQueuesOneFrame | fuzzy/src/emu.rs:107-179 | `write` queues nothing when it fails. When it succeeds, it queues exactly one frame: the replies after the receive handshake. It reports the whole buffer written. |
| Emu.VirtualBoy.constructor | fuzzy/src/emu.rs:26 | A fresh console has taken no steps and clocked no bits. |
| Emu.VirtualBoy.Step | fuzzy/src/emu.rs:61 | A step takes the next scripted cycle count. |
| Emu.VirtualBoy.TransferSlaveClockBit | fuzzy/src/emu.rs:81 | Each clocked bit is logged and answered by the next reply bit. |
| Emu.EmulatedVbSerialPort.constructor | fuzzy/src/emu.rs:23-46 | A new port has empty queues and at least one second of boot time behind it. |
| Emu.EmulatedVbSerialPort.StepNs | fuzzy/src/emu.rs:48-69 | Virtual time grows by 50 ns per cycle of the steps run. It reaches at least the time asked for. No time asked means no step. |
| Emu.EmulatedVbSerialPort.TransferByte | fuzzy/src/emu.rs:71-87 | A transfer clocks the byte's bits most significant first and returns the transfer's reply byte. It takes at least 88 µs. |
| Emu.EmulatedVbSerialPort.Read | fuzzy/src/emu.rs:91-103 | A read moves `min(buf.len(), queued)` bytes from the front of the queue in order, leaves the rest of the buffer alone, and never fails. |
| Emu.EmulatedVbSerialPort.Handshake | fuzzy/src/emu.rs:119-131 | The loop sends the tries of `HandshakeRun` and reports whether the byte was echoed. |
| Emu.EmulatedVbSerialPort.SendBytes | fuzzy/src/emu.rs:137-139 | Every byte is transferred in order. |
| Emu.EmulatedVbSerialPort.ReceiveBytes | fuzzy/src/emu.rs:169-172 | `n` zeros are transferred, and their replies are queued in order. |
| Emu.EmulatedVbSerialPort.SendStage | fuzzy/src/emu.rs:117-140 | The send stage's transfers are those of `SendStageSpec`. |
| Emu.EmulatedVbSerialPort.ReceiveFrame | fuzzy/src/emu.rs:162-172 | After the handshake, the length reply and the `len` replies that follow are queued. |
| Emu.EmulatedVbSerialPort.ReceiveStage | fuzzy/src/emu.rs:147-173 | The receive stage's transfers and queue are those of `ReceiveStageSpec`. |
| Emu.EmulatedVbSerialPort.ReceiveAfterSend | fuzzy/src/emu.rs:142-176 | After the 100 µs response delay, the transfers and queue are those of `ReceiveStageSpec`. Time grows by at least the delay plus 88 µs per transfer, plus the 10 ms settle when the handshake was echoed. |
| Emu.EmulatedVbSerialPort.Write | fuzzy/src/emu.rs:107-179 | `write` gives the result, transfers and queued bytes of `WriteSpec`, so the properties above apply to it. Time grows by at least 88 µs per transfer; past the send stage, also by the 100 µs response delay, and on success by the 10 ms settle. |
| Harness.InitialRegs | fuzzy/src/main.rs:159 | There are 30 initial registers, all 0xdeadbeef. |
| Harness.EncodeRegsAt | fuzzy/src/main.rs:160-164 | Bytes 4i..4i+4 of the encoding are register i, little-endian. |
| Harness.InitialRegsBytes | fuzzy/src/main.rs:158-164 | The initial register write is 120 bytes: 30 copies of `ef be ad de`. |
| Harness.ShiftInFour | fuzzy/src/main.rs:192-196 | The shift-in loop builds the little-endian word of its four bytes. |
| Harness.DecodeRegsAt | fuzzy/src/main.rs:191-197 | Result word i comes from bytes 4i..4i+4. |
| Harness.DecodeEncode | fuzzy/src/main.rs:158-197 | Decoding the encoded registers gives the registers back. |
| Harness.EncodeDecode | fuzzy/src/main.rs:158-197 | Encoding the decoded words gives the bytes back. |
| Harness.DecodeResultRegs | fuzzy/src/main.rs:188-201 | The nested loops decode 32 little-endian words. |
| Harness.CommandPort.Issue | fuzzy/src/main.rs:154-187 | Each command is logged on its port and answered in turn. |
| Harness.PortScript | fuzzy/src/main.rs:150-187 | The four commands are: write the ROM at `romAddr`, write 120 bytes at 0x1e000, execute at `romAddr`, and read 128 bytes at 0x1e080. |
| Harness.DispatchStopsAtFirstError | fuzzy/src/main.rs:150-205 | The commands run in order up to and including the first failure, which is then the result. Registers come out only when all four succeed. They are then the 32 words read. |
| Harness.TestRomOnPort | fuzzy/src/main.rs:150-205 | The commands issued and the result are those of `DispatchSpec`. |
| Harness.TestRomMatchIffEqual | fuzzy/src/main.rs:142-146 | `test_rom` reports a match exactly when both sides produced registers and they agree. A hardware error is reported as itself. |
| Harness.TestRom | fuzzy/src/main.rs:135-148 | The hardware runs first. A hardware error leaves the emulator untouched. The result is `TestRomSpec` of the two runs. |
| Hex.DigitValue | serialtest/testrom.c:52 | A digit's value is below 16, and it is the index of that digit. |
| Hex.DigitsAreHex | serialtest/testrom.c:52 | Every entry of `digits` is a hex digit whose value is its index. |
| Hex.Nibble | serialtest/testrom.c:63-64 | Nibble i, counted from the top, is below 16. |
| Hex.U32Digits | serialtest/testrom.c:54-67 | There are eight lowercase hex digits. Digit i has the value of nibble i. |
| Hex.NibblesReassemble | serialtest/testrom.c:63-64 | The eight nibbles reassemble to the value. |
| Hex.ParseU32Digits | serialtest/testrom.c:54-67 | Reading the digits back gives the value. |
| Hex.U32DigitsOfParse | serialtest/testrom.c:54-67 | Any eight lowercase hex digits are the formatting of what they parse to. |
| Hex.U32DigitsInjective | serialtest/testrom.c:54-67 | Distinct values print differently. |
| Hex.FormatU32 | serialtest/testrom.c:56-66 | The buffer is the eight digits followed by a NUL. |
| MapText.CharEntry | serialtest/testrom.c:46-47 | A stored map entry's low byte is the character. Its high byte is 0xFF when the signed `char` is negative. |
| MapText.CString | serialtest/testrom.c:19-26 | The text of a C string is what precedes its first NUL. |
| MapText.CStringOfTerminated | serialtest/testrom.c:61-66 | NUL-terminated text without NULs reads back whole. |
| RomConsole.LineBreak | serialtest/testrom.c:28-43 | A line break moves to the next row's start. It wraps to the top of the map after 28 rows. |
| RomConsole.PutChar | serialtest/testrom.c:28-48 | One character keeps the cursor invariant: row < 28, column ≤ 48, position = row·64 + column. |
| RomConsole.Print | serialtest/testrom.c:19-50 | Printing keeps the cursor invariant. |
| RomConsole.PrintAppend | serialtest/testrom.c:19-50 | Printing `a` then `b` is printing `a + b`. |
| RomConsole.PutCharStores | serialtest/testrom.c:44-48 | A character that fits on the line is stored at the cursor, which moves one entry on. |
| RomConsole.PrintRun | serialtest/testrom.c:19-50 | Text that fits the line and has no newline lands in consecutive entries, and nothing else changes. |
| RomConsole.PrintStaysOnScreen | serialtest/testrom.c:28-48 | Every entry printing changes lies in the 28 printed rows and their first 48 columns. |
| RomConsole.FullLineDropsChar | serialtest/testrom.c:28-43 | A character reaching a full line only breaks the line and is never stored. The next character starts the following row. |
| RomConsole.Cleared | serialtest/testrom.c:69-81 | The cleared map is all zero, with the cursor at the origin. |
| RomConsole.Console.PrintInit | serialtest/testrom.c:13-17 | The cursor goes to the origin. |
| RomConsole.Console.Emit | serialtest/testrom.c:23-48 | One pass of the loop is `PutChar`. |
| RomConsole.Console.PrintStr | serialtest/testrom.c:19-50 | `printStr` prints the C string's text. |
| RomConsole.Console.PrintU32 | serialtest/testrom.c:54-67 | `printU32` prints the value's eight hex digits. |
| RomConsole.Console.PrintClear | serialtest/testrom.c:69-81 | The two loops zero all 4096 entries, and the cursor goes to the origin. |
| SerialRom.BannerIsOneLine | serialtest/testrom.c:289 | The banner is 12 characters with no newline, 13 with its newline. |
| SerialRom.Start | serialtest/testrom.c:281-289 | Before its loop, `main` leaves the map as printing the banner on a cleared map does. |
| SerialRom.BannerScreen | serialtest/testrom.c:281-289 | The banner fills row 0's first 12 entries, every other entry is blank, and the cursor is at row 1. |
| SerialRom.Reply | serialtest/testrom.c:302-303 | The reply is four bytes that read back, little-endian, as the received packet's checksum. |
| SerialRom.Report | serialtest/testrom.c:299-311 | A turn's output starts with `r`, has no NUL, and is three characters exactly when the reply went through. |
| SerialRom.PrintText | serialtest/testrom.c:299-311 | Printing a NUL-terminated literal prints its text. |
| SerialRom.Turn | serialtest/testrom.c:290-312 | A failed receive sends only what `ReceiveSpec` says and prints nothing. Otherwise the turn sends the received checksum's four bytes as `SendSpec` says, succeeds exactly when that send does, and prints `r` and then `s.` or `f`. |
| RomConsole.HelloIsOneLine | flatrom/testrom.c:103 | The greeting is 19 characters with no newline. The string is 20 with its newline. |
| RomConsole.FlatRomMain | flatrom/testrom.c:96-106 | The flat ROM returns 42 and leaves the map as printing the greeting on a cleared map does. |
| RomConsole.FlatRomScreen | flatrom/testrom.c:96-106 | The greeting fills row 0's first 19 entries, every other entry is blank, and the cursor is at row 1. |
| TestRomConsole.LineBreak | testrom/testrom.c:32-37 | A line break goes to the next line's start, with no row limit. |
| TestRomConsole.PutChar | testrom/testrom.c:32-42 | One character keeps the cursor invariant: column ≤ 48 on a 64-entry line. |
| TestRomConsole.Print | testrom/testrom.c:23-44 | Printing keeps the cursor invariant. |
| TestRomConsole.PrintAppend | testrom/testrom.c:23-44 | Printing `a` then `b` is printing `a + b`. |
| TestRomConsole.PutCharStores | testrom/testrom.c:38-42 | A character that fits on the line is stored at the cursor. |
| TestRomConsole.PrintRun | testrom/testrom.c:23-44 | Text that fits the line and has no newline lands in consecutive entries from the cursor, and nothing else changes. |
| TestRomConsole.PrintMovesForward | testrom/testrom.c:23-44 | With no row limit the cursor never moves back, and entries before it are never rewritten. |
| TestRomConsole.FullLineDropsChar | testrom/testrom.c:32-37 | A character reaching a full line only breaks the line. |
| TestRomConsole.Cleared | testrom/testrom.c:63-81 | The cleared map is all zero, with the cursor at the origin. |
| TestRomConsole.Label | testrom/testrom.c:148-223 | Registers 0..31 are labelled `gprNN:` with two decimal digits, and 32 is labelled `psw:`. Labels after the first of a line start with two spaces. |
| TestRomConsole.LabelIsText | testrom/testrom.c:148-223 | Labels hold no newline and no NUL. |
| TestRomConsole.LineEnd | testrom/testrom.c:151-225 | One newline follows every third register and gpr31; two follow psw. |
| TestRomConsole.DumpCursor | testrom/testrom.c:145-226 | Each register's label starts at a valid cursor: three to a line, then psw on line 11, then line 13. |
| TestRomConsole.DumpCursorAdvances | testrom/testrom.c:145-226 | Each register's label and digits fit its line and map 0. Its line end brings the cursor to where the next register starts. |
| TestRomConsole.DumpCursorMonotone | testrom/testrom.c:145-226 | A register's digits lie before any later register's start. |
| TestRomConsole.RegisterStep | testrom/testrom.c:148-151 | Printing one register from its place writes its label and digits there and moves to the next place. |
| TestRomConsole.DumpFits | testrom/testrom.c:145-226 | All registers fit map 0, in order. |
| TestRomConsole.DumpLayout | testrom/testrom.c:145-226 | Printing the dump on a cleared map gives the dump image, with the cursor at the next register's place. |
| TestRomConsole.DumpImageShows | testrom/testrom.c:145-226 | In the image every register shows its eight digits at its value position; later registers never overwrite them. |
| TestRomConsole.ResultWords | testrom/testrom.c:146-224 | The 33 result words are the little-endian words at `CharSeg3`, in order. |
| TestRomConsole.TestConsole.InitPrint | testrom/testrom.c:17-21 | The cursor goes to the origin. |
| TestRomConsole.TestConsole.Emit | testrom/testrom.c:27-42 | One pass of the loop is `PutChar`. |
| TestRomConsole.TestConsole.PrintStr | testrom/testrom.c:23-44 | `print_str` prints the C string's text. |
| TestRomConsole.TestConsole.PrintText | testrom/testrom.c:148 | Printing a literal prints its characters. |
| TestRomConsole.TestConsole.PrintU32 | testrom/testrom.c:48-61 | `print_u32` prints the eight hex digits. |
| TestRomConsole.TestConsole.Clear | testrom/testrom.c:63-81 | The byte loop zeroes all 4096 entries, low byte first, and the cursor goes to the origin. |
| TestRomConsole.TestConsole.DumpResults | testrom/testrom.c:145-226 | The dump prints the text of all 33 registers. |
| TestRomConsole.TestConsole.DumpRegister | testrom/testrom.c:148-154 | One register prints its label, digits and line end. |
| TestRomConsole.TestRomMain | testrom/testrom.c:83-234 | `main` fills the column tables. It leaves map 0 as printing the dump and `test complete` on a cleared map does. |
| TestRomConsole.DoneLine | testrom/testrom.c:228 | `test complete` goes at the start of line 13. |
| TestRomConsole.FinalDigits | testrom/testrom.c:145-228 | Every register's digits survive `test complete`. |
| TestRomConsole.FinalLine | testrom/testrom.c:228 | `test complete` shows at the start of line 13. |
| TestRomConsole.TestRomScreen | testrom/testrom.c:83-234 | The screen shows register k's digits at its position, read in order from the words at `CharSeg3`. `test complete` is on line 13, with the cursor after it. |
| VbHardware.BGMap | testrom/stuff.h:23-25 | Each of the 14 background maps lies in background map memory, below the world attributes. |
| VbHardware.World | testrom/stuff.h:27-29 | Each of the 32 worlds lies in world attribute memory, below the column tables. |
| VbHardware.Object | testrom/stuff.h:31-33 | Each of the 1024 objects lies in object attribute memory, below the end of video memory. |
| VbHardware.MemoryMapInOrder | testrom/stuff.h:23-42 | The 14 background maps, 32 worlds, two column tables and 1024 objects are laid out without overlap, up to the end of video memory. |
| VbHardware.FieldIndex | testrom/stuff.h:123-137 | A `WORLD` field's index is below 11. |
| VbHardware.WamSlot | testrom/stuff.h:167-173 | A macro's slot k below 16 is an aligned `u16` inside world n. |
| VbHardware.WorldMacrosMatchStruct | testrom/stuff.h:123-173 | Macro slot k of world n is field k of `WA[n]`, inside that world's 32 bytes. Distinct fields and worlds never share a slot. |
| VbHardware.WorldParam | testrom/stuff.h:172 | `WORLD_PARAM`'s value is a multiple of 16. |
| VbHardware.WorldParamLocates | testrom/stuff.h:172 | Twice the parameter is the byte offset from `BGMMBase`, 32-byte aligned. Inside map memory it locates the address, rounded down to 32 bytes. |
| VbHardware.ColTableNonIncreasing | testrom/stuff.h:175-193 | The default widths never grow, from 0xFE at the edge down to 0x3C. |
| VbHardware.ColTableNarrowing | testrom/stuff.h:175-193 | The default table narrows. |
| VbHardware.ColumnTableShape | testrom/stuff.h:196-205 | Each 256-entry half reads the same from both ends. The right half repeats the left, and the first 128 entries are `colTable`. |
| VbHardware.FilledNarrowsToMiddle | testrom/stuff.h:175-205 | Each half shrinks towards its middle and grows back after it. |
| VbHardware.ColumnTableRound | testrom/stuff.h:200-204 | Round i writes exactly the filled table's entries i, i+128, i+256 and i+384. |
| VbHardware.SetColumnRound | testrom/stuff.h:201-204 | One round writes those four entries and nothing else. |
| VbHardware.VbSetColTable | testrom/stuff.h:196-205 | The loop leaves all 512 entries holding the filled table. |

## Left out

- The Teensy adapter firmware (`teensy_vb/teensy_vb.c`) and the host `main` programs' command-line handling and fuzzing loops sit outside the protocol core.
- `linkInit` and the link hardware registers are not modelled. `linkTransferByte` is modelled as a script of exchanges, because its result depends on the hardware.
- VIP set-up, font tiles, VBLANK waits and the ROMs' endless loops are left out, because they only drive the display hardware.
- The serial test ROM's endless loop is modelled one turn at a time (`SerialRom.Turn`), because a loop that never ends has no final state to state a contract about.
- The emulator's window and its video and audio sinks are left out. So is ROM loading and the emulator crate's CPU: the console is abstracted to scripted cycle counts and reply bits.
- `command::*` of the harness is abstracted into `Harness.CommandPort`, because the command module is not part of this model.
- The harness's printing of the registers is left out, because it is output only.
- The print routines assume the cursor was set by `printInit`. A print before it, through the NULL cursor, is not modelled.
- MapText.CharEntry: assumes a signed `char`, as on the V810's compiler.
- TestRomConsole.PutChar: a store past background map 0 is not recorded; the test ROM's dump and its closing message fit map 0.
- The unused `u8 c` in the test ROM's `clear` is left out, because it has no effect.
- VbHardware.VbSetColTable: the `u8` loop counter is an unbounded counter. It never goes above 128, so it never wraps.
- The test ROM's 33 unrolled dump calls are modelled as one loop over `TestRomConsole.Label` and `TestRomConsole.LineEnd`. The text they print is the same.
- Emu.EmulatedVbSerialPort.TransferByte: the time advance is stated as at least 88 µs, not as its exact value, which depends on the cycle counts.
- MapText.Ascii: states only the length of the converted literal.
- Emu.EmulatedVbSerialPort.Write: requires a whole frame in the buffer, which the source assumes; a shorter buffer panics there.
- VbSerial.BlockingRead: when the scripted stream runs out before the buffer fills, it returns a stall; the source would spin forever.
- The emulator's `u64` time is unbounded here, so its wrap-around is not modelled. It would need centuries of virtual time.
- XferCommand.ChunkAddress: the chunk address wraps at 32 bits, as a release build does; a debug build would panic on overflow.
- `exchange_packet` returns a `Vec` in `vb_serial.rs` but is used as fallible in `fuzzy.rs`. It is modelled as a reply that is either a payload or an error.
- VbSerial.Port.Write: writes are assumed to succeed. `write_all(..).unwrap()` panics when a write fails, as the emulated port's `write` does on a handshake timeout; `VbSerial.ExchangePacket` has no outcome for that panic.
- Harness.TestRomOnPort: a result read shorter than 128 bytes makes the decode loop index out of bounds and panic, ending the program. The model returns it as the error `ShortResult`, which `Harness.TestRom` reports like any other error.
- Hex.Nibble: the shift count `28 - 4 i` is computed as a bit-vector shift. That agrees with the source for the eight positions used.

## Findings

| source | as written | input that shows it | evidently intended | confidence | as-written member | corrected member |
|---|---|---|---|---|---|---|
| serialtest/testrom.c:155-157 | A failed length transfer in `linkReceivePacket` stores `LINK_ERR` in `receivePacketLen`, then runs a bare `return;` from an `int` function. | The first transfer brings the 0xaa handshake and the echo transfer goes through, then the length transfer fails. The result is whatever the return register held, possibly `LINK_OK`, with no packet received. | `return LINK_ERR;` | not executed | SerialLink.BareReturnCanReportSuccess | SerialLink.ReceiveOkIff |

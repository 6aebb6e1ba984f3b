/** The serial test ROM's `main` loop (serialtest/testrom.c): each turn
  * waits for a packet, answers with that packet's checksum, and reports on
  * screen how the exchange went. */
module SerialRom {
  import opened Bytes
  import opened MapText
  import opened RomConsole
  import opened SerialLink
  import Crapsum

  /** The reply to a packet: `receivePacketCrapsum`'s four bytes, in the
    * V810's little-endian order. */
  function Reply(data: seq<byte>): (r: seq<byte>)
    ensures |r| == 4 && FromLe32(r) == Crapsum.ChecksumOf(data).state
  {
    FromLe32OfLe32(Crapsum.ChecksumOf(data).state);
    Le32(Crapsum.ChecksumOf(data).state)
  }

  /** `"r"`, `"f"` and `"s."`: what a turn prints. */
  const Received: seq<byte> := [0x72]
  const Failed: seq<byte> := [0x66]
  const Sent: seq<byte> := [0x73, 0x2E]

  /** What a turn prints once a packet has arrived: `r`, then `s.` when the
    * reply went through and `f` when it did not. */
  function Report(sent: bool): (t: seq<byte>)
    ensures |t| > 0 && t[0] == Received[0] && 0 !in t
    ensures sent <==> |t| == 3
  {
    Received + (if sent then Sent else Failed)
  }

  /** `printStr` of a string literal with no NUL in it prints all of it. */
  method PrintText(console: Console, t: seq<byte>)
    requires console.Valid() && 0 !in t
    modifies console`mapPos, console`column, console`row, console.bgMap
    ensures console.Valid() && console.State() == Print(old(console.State()), t)
  {
    CStringOfTerminated(t);
    console.PrintStr(t + [0]);
  }

  /** The line `main` prints before its loop. */
  const LinkTest: seq<byte> := Ascii("link test yo")
  const Banner: seq<byte> := LinkTest + [Newline]

  lemma BannerIsOneLine()
    ensures |LinkTest| == 12 && |Banner| == 13
    ensures 0 !in Banner && Newline !in LinkTest
  {
    assert forall k :: 0 <= k < 12 ==> LinkTest[k] != 0 && LinkTest[k] != Newline;
  }

  /** `main` up to its loop: `printInit`, `printClear` and the banner
    * (`linkInit` only writes the link registers). */
  method Start(console: Console)
    requires console.bgMap.Length == MapEntries
    modifies console`mapPos, console`column, console`row, console.bgMap
    ensures console.Valid() && console.State() == Print(Cleared(), Banner)
  {
    BannerIsOneLine();
    console.PrintInit();
    console.PrintClear();
    PrintText(console, Banner);
  }

  /** The banner fills row 0's first 12 entries, the rest of the map is
    * blank, and the loop's output starts at row 1. */
  lemma BannerScreen()
    ensures Print(Cleared(), Banner).cells == Entries(LinkTest) + Cleared().cells[12..]
    ensures Print(Cleared(), Banner).cursor == Cursor(MapWidth, 0, 1)
  {
    BannerIsOneLine();
    PrintAppend(Cleared(), LinkTest, [Newline]);
    PrintRun(Cleared(), LinkTest);
    assert Cleared().cells[..0] == [];
  }

  /** One turn of the loop. A failed receive ends the turn with nothing
    * printed and nothing sent; otherwise the turn prints `r`, sends
    * the reply, and prints the outcome. `served` is whether the reply
    * went through. */
  method Turn(link: Link, console: Console) returns (served: bool)
    requires link.receivePacketBuffer.Length == MaxPacketLen && console.Valid()
    modifies link`transferred, link`receivePacketLen, link`receivePacketCrapsum, link`sendPacketCrapsum
    modifies link.receivePacketBuffer, console`mapPos, console`column, console`row, console.bgMap
    ensures console.Valid()
    ensures var rx := ReceiveSpec(link.link, |old(link.transferred)|);
      if rx.result == LinkErr then
        && !served
        && link.transferred == old(link.transferred) + rx.sent
        && console.State() == old(console.State())
      else
        var tx := SendSpec(link.link, |old(link.transferred)| + |rx.sent|, Reply(rx.data), 4);
        && served == (tx.result != LinkErr)
        && link.transferred == old(link.transferred) + rx.sent + tx.sent
        && console.State() == Print(old(console.State()), Report(served))
  {
    ghost var screen := console.State();
    var received := link.ReceivePacket();
    if received == LinkErr {
      return false;
    }
    PrintText(console, Received);
    var result := link.SendPacket(Le32(link.receivePacketCrapsum), 4);
    served := result != LinkErr;
    PrintText(console, if served then Sent else Failed);
    PrintAppend(screen, Received, if served then Sent else Failed);
  }
}

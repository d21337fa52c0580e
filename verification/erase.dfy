/** Erasing (`sd_card_erase.c`): CMD32 and CMD33 mark the first and last
    block of the area, CMD38 erases it while the card holds the line at 0.
    The R1 bytes of all three commands are read but never inspected: the
    status reports transport failures only. */
module Erase {
  import opened Codes
  import opened Transport
  import opened Frame
  import opened Secondary

  /** CMD32, ERASE_WR_BLK_START_ADDR. */
  function EraseStartCmd(address: bv32): (c: Command)
    ensures |c.argument| == 4 && ParseFrame(c.Bytes()) == Some(Request(32, address))
  {
    FrameDecodes(EraseStartIndex, address);
    Cmd(EraseStartIndex, address)
  }

  /** CMD33, ERASE_WR_BLK_END_ADDR. */
  function EraseEndCmd(address: bv32): (c: Command)
    ensures |c.argument| == 4 && ParseFrame(c.Bytes()) == Some(Request(33, address))
  {
    FrameDecodes(EraseEndIndex, address);
    Cmd(EraseEndIndex, address)
  }

  /** CMD38, ERASE, with its stuff-bits argument 0. */
  function EraseCmd(): (c: Command)
    ensures |c.argument| == 4 && ParseFrame(c.Bytes()) == Some(Request(38, 0))
  {
    FrameDecodes(EraseIndex, 0);
    Cmd(EraseIndex, 0)
  }

  // ------------------------------------------------------------- the area

  /** Two SEND_CMD exchanges, CMD32 with `first` and CMD33 with `last`,
      both R1 bytes received into the same variable; the status is the OR
      of the two transport statuses. */
  function MarkArea(b: Bus, first: bv32, last: bv32): (r: Done)
    ensures r.status < 4
    ensures r.status == 0 ==> SendCmd(b, EraseStartCmd(first), [0x00]).status == 0
    ensures !r.bus.selected
    ensures Sent(r.bus.trace) == Sent(b.trace) + EraseStartCmd(first).Bytes() + EraseEndCmd(last).Bytes()
  {
    var s := SendCmd(b, EraseStartCmd(first), [0x00]);
    var e := SendCmd(s.bus, EraseEndCmd(last), s.value);
    HalOr(s.status, e.status);
    ExchangeSends(b, s.bus, EraseStartCmd(first).Bytes());
    ExchangeSends(s.bus, e.bus, EraseEndCmd(last).Bytes());
    Done(s.status | e.status, e.bus)
  }

  /** `sd_card_set_erasable_area` as written: CMD33 is built from the start
      address, and the end address is never used. */
  function SetErasableAreaAsWritten(b: Bus, start: bv32, end: bv32): (r: Done)
    ensures r.status < 4
    ensures !r.bus.selected
    ensures Sent(r.bus.trace) == Sent(b.trace) + EraseStartCmd(start).Bytes() + EraseEndCmd(start).Bytes()
  {
    MarkArea(b, start, start)
  }

  /** `sd_card_set_erasable_area` with CMD33 carrying the end address. */
  function SetErasableArea(b: Bus, start: bv32, end: bv32): (r: Done)
    ensures r.status < 4
    ensures !r.bus.selected
    ensures Sent(r.bus.trace) == Sent(b.trace) + EraseStartCmd(start).Bytes() + EraseEndCmd(end).Bytes()
  {
    MarkArea(b, start, end)
  }

  /** As written, the area marked is the single block at `start` whatever
      end was asked for: the second frame decodes as CMD33 with the start
      address. */
  lemma SetErasableAreaAsWrittenMarksStart(b: Bus, start: bv32, end: bv32)
    ensures var sent := Sent(SetErasableAreaAsWritten(b, start, end).bus.trace);
      |sent| == |Sent(b.trace)| + 12 && ParseFrame(sent[|Sent(b.trace)| + 6..]) == Some(Request(33, start))
  {
    Pieces(Sent(b.trace), EraseStartCmd(start).Bytes(), EraseEndCmd(start).Bytes());
  }

  /** As written, two calls differing only in the end address do exactly
      the same thing. */
  lemma SetErasableAreaAsWrittenIgnoresEnd(b: Bus, start: bv32, end1: bv32, end2: bv32)
    ensures SetErasableAreaAsWritten(b, start, end1) == SetErasableAreaAsWritten(b, start, end2)
  {
  }

  /** With the end address in CMD33, the two frames on the bus decode as
      the area asked for: CMD32 with `start`, then CMD33 with `end`. */
  lemma SetErasableAreaMarksRange(b: Bus, start: bv32, end: bv32)
    ensures var sent := Sent(SetErasableArea(b, start, end).bus.trace);
      && |sent| == |Sent(b.trace)| + 12
      && ParseFrame(sent[|Sent(b.trace)|..|Sent(b.trace)| + 6]) == Some(Request(32, start))
      && ParseFrame(sent[|Sent(b.trace)| + 6..]) == Some(Request(33, end))
  {
    Pieces(Sent(b.trace), EraseStartCmd(start).Bytes(), EraseEndCmd(end).Bytes());
  }

  /** On a clean bus the area is marked with SD_OK whatever R1 bytes the
      card answers CMD32 and CMD33 with, error flags included. */
  lemma MarkAreaIgnoresR1(b: Bus, t: Tick, first: bv32, last: bv32, r1: byte, r2: byte, rest: seq<byte>)
    requires Clean(b, t) && |b.ticks| > 3
    requires r1 != 0xFF && r2 != 0xFF
    requires b.rx == [r1] + ([r2] + rest)
    ensures MarkArea(b, first, last).status == 0
    ensures MarkArea(b, first, last).bus.rx == rest
  {
    AtOnce(0xFF, r1, [r2] + rest);
    SendCmdOnCleanBus(b, t, EraseStartCmd(first), 0, [r1], [r2] + rest, [0x00]);
    MarkEndOnCleanBus(b, SendCmd(b, EraseStartCmd(first), [0x00]), t, first, last, r2, rest);
  }

  /** The CMD33 half of `MarkAreaIgnoresR1`. */
  lemma MarkEndOnCleanBus(b: Bus, s: Got<seq<byte>>, t: Tick, first: bv32, last: bv32, r2: byte, rest: seq<byte>)
    requires s == SendCmd(b, EraseStartCmd(first), [0x00]) && s.status == 0
    requires Clean(b, t) && |b.ticks| > 3 && s.bus.hal == [] && s.bus.ticks == b.ticks[2..]
    requires r2 != 0xFF && s.bus.rx == [r2] + rest
    ensures MarkArea(b, first, last).status == 0
    ensures MarkArea(b, first, last).bus.rx == rest
  {
    assert Clean(s.bus, t);
    AtOnce(0xFF, r2, rest);
    SendCmdOnCleanBus(s.bus, t, EraseEndCmd(last), 0, [r2], rest, s.value);
  }

  // -------------------------------------------------------------- erasing

  /** The body of `sd_card_erase` before its last chip-select call: chip
      select asserted, CMD38 in one HAL call, the R1b byte into a zeroed
      byte, then the busy level 0 waited out. The status is the OR of the
      three transport statuses. */
  function EraseBody(b: Bus): (r: Done)
    ensures r.status < 4
    ensures Opened(b, r.bus, EraseCmd().Bytes())
  {
    var t := Transmit(Drive(b, true), EraseCmd().Bytes());
    EraseAfterR1(b, t, ReceiveCmdResponse(t.bus, [0x00]))
  }

  /** The part of the erase body after the R1b byte `r1b` was read. */
  function EraseAfterR1(b: Bus, t: Done, r1b: Got<seq<byte>>): (r: Done)
    requires t == Transmit(Drive(b, true), EraseCmd().Bytes())
    requires r1b.status < 4 && OnlyReceives(t.bus, r1b.bus)
    ensures r.status < 4
    ensures Opened(b, r.bus, EraseCmd().Bytes())
  {
    var busy := WaitResponse(r1b.bus, 0x00, 0x00);
    HalOr(t.status, r1b.status);
    HalOr(t.status | r1b.status, busy.status);
    OnlyReceivesTransitive(t.bus, r1b.bus, busy.bus);
    Done(t.status | r1b.status | busy.status, busy.bus)
  }

  /** `sd_card_erase` as written: it ends by asserting chip select again. */
  function EraseAsWritten(b: Bus): (r: Done)
    ensures r.status < 4
    ensures Sent(r.bus.trace) == Sent(b.trace) + EraseCmd().Bytes()
  {
    var e := EraseBody(b);
    OpenedSends(b, e.bus, EraseCmd().Bytes());
    SentChipSelect(e.bus.trace);
    Done(e.status, Drive(e.bus, true))
  }

  /** `sd_card_erase` releasing chip select at the end. */
  function Erase(b: Bus): (r: Done)
    ensures r.status < 4
    ensures !r.bus.selected
    ensures Sent(r.bus.trace) == Sent(b.trace) + EraseCmd().Bytes()
  {
    var e := EraseBody(b);
    OpenedSends(b, e.bus, EraseCmd().Bytes());
    SentChipSelect(e.bus.trace);
    Done(e.status, Drive(e.bus, false))
  }

  /** As written, the card is still selected when the erase returns, on
      every path and whatever its status; the corrected erase leaves it
      released and differs only in that last chip-select call. */
  lemma EraseAsWrittenLeavesSelected(b: Bus)
    ensures EraseAsWritten(b).bus.selected
    ensures EraseAsWritten(b).bus.trace[|EraseAsWritten(b).bus.trace| - 1] == Select
    ensures !Erase(b).bus.selected
    ensures Erase(b).bus.trace[..|Erase(b).bus.trace| - 1] == EraseAsWritten(b).bus.trace[..|EraseAsWritten(b).bus.trace| - 1]
    ensures Erase(b).status == EraseAsWritten(b).status
  {
  }

  /** On a clean bus the erase reports SD_OK whatever R1 the card answers
      CMD38 with, error flags included: after `k` idle bytes the R1b byte,
      then `j` busy bytes 0 and a byte other than 0. */
  lemma EraseIgnoresR1(b: Bus, t: Tick, k: nat, r1: byte, j: nat, v: byte, rest: seq<byte>)
    requires Clean(b, t) && |b.ticks| > k + j + 3
    requires r1 != 0xFF && v != 0x00
    requires b.rx == Repeat(0xFF, k) + [r1] + Repeat(0x00, j) + [v] + rest
    ensures Erase(b).status == 0
    ensures Erase(b).bus.rx == rest
  {
    var tail := Repeat(0x00, j) + [v] + rest;
    assert b.rx == Repeat(0xFF, k) + [r1] + tail;
    EraseCommandOnCleanBus(b, t, k, r1, tail);
    var t1 := Transmit(Drive(b, true), EraseCmd().Bytes());
    EraseWaitsOutBusy(b, t1, ReceiveCmdResponse(t1.bus, [0x00]), t, j, v, rest);
  }

  /** The CMD38 half of `EraseIgnoresR1`: the frame goes out and the R1b
      byte comes back, whatever it is, with the transport status 0. */
  lemma EraseCommandOnCleanBus(b: Bus, t: Tick, k: nat, r1: byte, tail: seq<byte>)
    requires Clean(b, t) && |b.ticks| > k + 1
    requires r1 != 0xFF
    requires b.rx == Repeat(0xFF, k) + [r1] + tail
    ensures var t1 := Transmit(Drive(b, true), EraseCmd().Bytes());
      var r1b := ReceiveCmdResponse(t1.bus, [0x00]);
      && t1.status == 0 && r1b.status == 0 && OnlyReceives(t1.bus, r1b.bus)
      && Clean(r1b.bus, t) && |r1b.bus.ticks| == |b.ticks| - k - 2 && r1b.bus.rx == tail
  {
    var t1 := Transmit(Drive(b, true), EraseCmd().Bytes());
    ResponseOnCleanBus(t1.bus, t, k, [r1], tail, [0x00]);
  }

  /** The busy half of `EraseIgnoresR1`. */
  lemma EraseWaitsOutBusy(b: Bus, t1: Done, r1b: Got<seq<byte>>, t: Tick, j: nat, v: byte, rest: seq<byte>)
    requires t1 == Transmit(Drive(b, true), EraseCmd().Bytes()) && t1.status == 0
    requires r1b.status == 0 && OnlyReceives(t1.bus, r1b.bus)
    requires Clean(r1b.bus, t) && |r1b.bus.ticks| > j + 1 && v != 0x00
    requires r1b.bus.rx == Repeat(0x00, j) + [v] + rest
    ensures EraseAfterR1(b, t1, r1b).status == 0
    ensures EraseAfterR1(b, t1, r1b).bus.rx == rest
  {
    WaitFindsAnswer(r1b.bus, t, 0x00, 0x00, j, v, rest);
  }
}

/** Block reads (`sd_driver_read.c`): CMD17 for one block, CMD18 for a run
    of blocks closed by CMD12. Each buffer is a block of the length the card
    was set to; the card stays selected for the whole transfer and is
    released on every exit. */
module Read {
  import opened Codes
  import opened Crc
  import opened Transport
  import opened Frame
  import opened Secondary

  /** CMD17, READ_SINGLE_BLOCK. */
  function ReadSingleCmd(address: bv32): (c: Command)
    ensures |c.argument| == 4 && ParseFrame(c.Bytes()) == Some(Request(17, address))
  {
    FrameDecodes(ReadSingleBlockIndex, address);
    Cmd(ReadSingleBlockIndex, address)
  }

  /** CMD18, READ_MULTIPLE_BLOCK. */
  function ReadMultipleCmd(address: bv32): (c: Command)
    ensures |c.argument| == 4 && ParseFrame(c.Bytes()) == Some(Request(18, address))
  {
    FrameDecodes(ReadMultipleBlockIndex, address);
    Cmd(ReadMultipleBlockIndex, address)
  }

  /** CMD12, STOP_TRANSMISSION, built with the transfer's address as its
      (stuff-bit) argument. */
  function StopCmd(address: bv32): (c: Command)
    ensures |c.argument| == 4 && ParseFrame(c.Bytes()) == Some(Request(12, address))
  {
    FrameDecodes(StopTransmissionIndex, address);
    Cmd(StopTransmissionIndex, address)
  }

  /** `b2` follows `b1` by clocking bytes in and then releasing the card. */
  predicate ReceivedThenReleased(b1: Bus, b2: Bus)
  {
    && !b2.selected
    && |b2.ticks| <= |b1.ticks|
    && |b2.trace| >= |b1.trace| + 1
    && b2.trace == b1.trace + Rxs(|b2.trace| - |b1.trace| - 1) + [Deselect]
  }

  lemma ReleasedAfterReceiving(b1: Bus, b2: Bus)
    requires OnlyReceives(b1, b2)
    ensures ReceivedThenReleased(b1, Drive(b2, false))
  {
  }

  // ------------------------------------------------------------ one block

  /** `sd_card_read_data` into a buffer holding `prior`: the opening with
      CMD17, then, only when it gave SD_OK, one data block. */
  function ReadData(b: Bus, address: bv32, prior: seq<byte>): (r: Got<seq<byte>>)
    requires |prior| < 0x10000
    ensures |r.value| == |prior|
    ensures !r.bus.selected
    ensures r.status < 4 || r.status == Code(CrcError) || r.status == Code(TransmissionError)
  {
    ReadAfterOpen(OpenTransfer(b, ReadSingleCmd(address)), prior)
  }

  /** The part of `sd_card_read_data` after the opening. */
  function ReadAfterOpen(o: Got<byte>, prior: seq<byte>): (r: Got<seq<byte>>)
    requires |prior| < 0x10000
    requires o.status == Code(TransmissionError) || o.status < 4
    ensures |r.value| == |prior|
    ensures r.status < 4 || r.status == Code(CrcError) || r.status == Code(TransmissionError)
    ensures ReceivedThenReleased(o.bus, r.bus)
    ensures o.status != 0 ==> r.status == o.status && r.value == prior && r.bus.trace == o.bus.trace + [Deselect]
  {
    if o.status != 0 then
      assert Rxs(0) == [];
      Got(o.status, prior, Drive(o.bus, false))
    else
      var d := ReceiveDataBlock(o.bus, prior);
      ReleasedAfterReceiving(o.bus, d.bus);
      Got(d.status, d.value, Drive(d.bus, false))
  }

  /** Reading never transmits anything but the command. */
  lemma ReadDataSends(b: Bus, address: bv32, prior: seq<byte>)
    requires |prior| < 0x10000
    ensures Sent(ReadData(b, address, prior).bus.trace) == Sent(b.trace) + ReadSingleCmd(address).Bytes()
  {
    var c := ReadSingleCmd(address).Bytes();
    var o := OpenTransfer(b, ReadSingleCmd(address));
    var r := ReadAfterOpen(o, prior);
    OpenedSends(b, o.bus, c);
    ReleasedSends(o.bus, r.bus);
  }

  /** On a clean bus, a card that accepts CMD17 after `k` idle bytes and
      sends the block after `j` more delivers it with SD_OK. */
  lemma ReadDataOnCleanBus(b: Bus, t: Tick, address: bv32, k: nat, j: nat, data: seq<byte>, rest: seq<byte>, prior: seq<byte>)
    requires Clean(b, t) && |b.ticks| > k + j + 3
    requires |data| == |prior| < 0x10000
    requires b.rx == Repeat(0xFF, k) + [R1Clear] + (Repeat(0xFF, j) + [StartBlockToken] + data + Crc16Wire(data) + rest)
    ensures ReadData(b, address, prior).status == 0
    ensures ReadData(b, address, prior).value == data
    ensures ReadData(b, address, prior).bus.rx == rest
  {
    var tail := Repeat(0xFF, j) + [StartBlockToken] + data + Crc16Wire(data) + rest;
    OpenOnCleanBus(b, t, ReadSingleCmd(address), k, R1Clear, tail);
    var o := OpenTransfer(b, ReadSingleCmd(address));
    DataBlockOnCleanBus(o.bus, t, j, data, rest, prior);
  }

  /** A card refusing CMD17 (any R1 other than 0) makes the read end with
      SD_TRANSMISSION_ERROR right after the R1: nothing more is clocked in
      and the buffer is untouched. */
  lemma ReadDataRefused(b: Bus, t: Tick, address: bv32, k: nat, r1: byte, rest: seq<byte>, prior: seq<byte>)
    requires Clean(b, t) && |b.ticks| > k + 1
    requires |prior| < 0x10000
    requires r1 != 0xFF && r1 != R1Clear && b.rx == Repeat(0xFF, k) + [r1] + rest
    ensures ReadData(b, address, prior).status == Code(TransmissionError)
    ensures ReadData(b, address, prior).value == prior
    ensures ReadData(b, address, prior).bus.rx == rest
  {
    OpenOnCleanBus(b, t, ReadSingleCmd(address), k, r1, rest);
  }

  // ------------------------------------------------------- several blocks

  /** The `for` loop of `sd_card_read_multiple_data`: every block is read
      whatever happened to the ones before, statuses ORed onto `acc`. */
  function ReadBlocks(b: Bus, blocks: seq<seq<byte>>, acc: Status): (r: Got<seq<seq<byte>>>)
    requires acc < 8 && BlockSized(blocks)
    ensures |r.value| == |blocks|
    ensures forall i | 0 <= i < |blocks| :: |r.value[i]| == |blocks[i]|
    ensures r.status < 8
    ensures r.status & acc == acc
    ensures OnlyReceives(b, r.bus)
    decreases |blocks|, 1
  {
    if |blocks| == 0 then Got(acc, [], b)
    else ReadBlocksAfter(b, ReceiveDataBlock(b, blocks[0]), blocks, acc)
  }

  /** The loop once the first of `blocks` has been read into `d`. */
  function ReadBlocksAfter(b: Bus, d: Got<seq<byte>>, blocks: seq<seq<byte>>, acc: Status): (r: Got<seq<seq<byte>>>)
    requires acc < 8 && BlockSized(blocks) && |blocks| > 0
    requires |d.value| == |blocks[0]| && (d.status < 4 || d.status == Code(CrcError)) && OnlyReceives(b, d.bus)
    ensures |r.value| == |blocks|
    ensures forall i | 0 <= i < |blocks| :: |r.value[i]| == |blocks[i]|
    ensures r.status < 8
    ensures r.status & acc == acc
    ensures OnlyReceives(b, r.bus)
    decreases |blocks|, 0
  {
    AccumulatedStaysCode(acc, d.status);
    var rest := ReadBlocks(d.bus, blocks[1..], acc | d.status);
    OnlyReceivesTransitive(b, d.bus, rest.bus);
    KeptBitsOfPart(rest.status, acc, d.status);
    Got(rest.status, [d.value] + rest.value, rest.bus)
  }

  /** What a card sends for a run of blocks with no idle bytes between
      them, followed by `rest`: each block behind its start token and
      followed by its CRC16. */
  function DataBlocks(ds: seq<seq<byte>>, rest: seq<byte>): seq<byte>
    decreases |ds|
  {
    if |ds| == 0 then rest else [StartBlockToken] + ds[0] + Crc16Wire(ds[0]) + DataBlocks(ds[1..], rest)
  }

  /** On a clean bus, a run of well-formed blocks is read back verbatim,
      each reading the clock twice, with the accumulated status unchanged. */
  lemma {:induction false} ReadBlocksOnCleanBus(b: Bus, t: Tick, ds: seq<seq<byte>>, rest: seq<byte>, blocks: seq<seq<byte>>, acc: Status)
    requires Clean(b, t) && |b.ticks| >= 2 * |ds|
    requires acc < 8 && BlockSized(blocks) && |ds| == |blocks|
    requires forall i | 0 <= i < |ds| :: |ds[i]| == |blocks[i]|
    requires b.rx == DataBlocks(ds, rest)
    ensures var r := ReadBlocks(b, blocks, acc);
      && r.status == acc && r.value == ds && r.bus.rx == rest
      && Clean(r.bus, t) && |r.bus.ticks| == |b.ticks| - 2 * |ds|
    decreases |ds|
  {
    if |ds| > 0 {
      var d := ReceiveDataBlock(b, blocks[0]);
      FirstBlockOnCleanBus(b, t, ds, rest, blocks);
      ReadBlocksOnCleanBus(d.bus, t, ds[1..], rest, blocks[1..], acc);
      ReadBlocksStep(b, d, ReadBlocks(d.bus, blocks[1..], acc), ds, blocks, acc);
    }
  }

  /** One block of `ReadBlocksOnCleanBus`: a first block read without error
      puts its contents in front of what the rest of the loop returns. */
  lemma ReadBlocksStep(b: Bus, d: Got<seq<byte>>, r: Got<seq<seq<byte>>>, ds: seq<seq<byte>>, blocks: seq<seq<byte>>, acc: Status)
    requires acc < 8 && BlockSized(blocks) && 0 < |ds| == |blocks|
    requires |d.value| == |blocks[0]| && d.status == 0 && d.value == ds[0] && OnlyReceives(b, d.bus)
    requires r == ReadBlocks(d.bus, blocks[1..], acc) && r.value == ds[1..]
    ensures ReadBlocksAfter(b, d, blocks, acc) == Got(r.status, ds, r.bus)
  {
    assert acc | d.status == acc;
    assert [ds[0]] + ds[1..] == ds;
  }

  /** The first block of a run on a clean bus. */
  lemma FirstBlockOnCleanBus(b: Bus, t: Tick, ds: seq<seq<byte>>, rest: seq<byte>, blocks: seq<seq<byte>>)
    requires Clean(b, t) && |b.ticks| >= 2 * |ds| && |ds| > 0
    requires BlockSized(blocks) && |ds| == |blocks| && |ds[0]| == |blocks[0]|
    requires b.rx == DataBlocks(ds, rest)
    ensures var d := ReceiveDataBlock(b, blocks[0]);
      && d.status == 0 && d.value == ds[0]
      && d.bus.rx == DataBlocks(ds[1..], rest) && Clean(d.bus, t) && |d.bus.ticks| == |b.ticks| - 2
  {
    var tail := DataBlocks(ds[1..], rest);
    assert Repeat(0xFF, 0) == [];
    assert b.rx == Repeat(0xFF, 0) + [StartBlockToken] + ds[0] + Crc16Wire(ds[0]) + tail;
    DataBlockOnCleanBus(b, t, 0, ds[0], tail, blocks[0]);
    assert ClockAt(b.ticks[2..], t);
  }

  /** A block whose trailer is not its CRC16, read on a clean bus: the
      payload is delivered, the status is exactly SD_CRC_ERROR, and the bus
      is left where a well-formed block would have left it. */
  lemma BadBlockOnCleanBus(b: Bus, t: Tick, k: nat, data: seq<byte>, crc: seq<byte>, tail: seq<byte>, prior: seq<byte>)
    requires Clean(b, t) && |b.ticks| > k + 1
    requires |data| == |prior| < 0x10000 && |crc| == 2 && crc != Crc16Wire(data)
    requires b.rx == Repeat(0xFF, k) + [StartBlockToken] + data + crc + tail
    ensures var d := ReceiveDataBlock(b, prior);
      && d.status == Code(CrcError) && d.value == data
      && d.bus.rx == tail && d.bus.hal == [] && d.bus.ticks == b.ticks[k + 2..]
  {
    assert b.rx == Repeat(0xFF, k) + [StartBlockToken] + (data + (crc + tail));
    DataBlockBody(b, t, k, data, crc, tail, prior);
    CrcComparisonIsWireOrder(crc, data);
  }

  /** A block that fails its CRC check does not stop the loop: on a clean
      bus, a run whose block `i` carries a wrong trailer and whose other
      blocks are well formed is read in full, every block delivered
      verbatim, with SD_CRC_ERROR added to the accumulated status. */
  lemma {:induction false} ReadBlocksPastCrcError(b: Bus, t: Tick, i: nat, ds: seq<seq<byte>>, bad: seq<byte>, rest: seq<byte>, blocks: seq<seq<byte>>, acc: Status)
    requires Clean(b, t) && |b.ticks| >= 2 * |ds|
    requires acc < 8 && BlockSized(blocks) && |ds| == |blocks| && i < |ds|
    requires forall j | 0 <= j < |ds| :: |ds[j]| == |blocks[j]|
    requires |bad| == 2 && bad != Crc16Wire(ds[i])
    requires b.rx == DataBlocks(ds[..i], [StartBlockToken] + ds[i] + bad + DataBlocks(ds[i + 1..], rest))
    ensures var r := ReadBlocks(b, blocks, acc);
      r.status == acc | Code(CrcError) && r.value == ds && r.bus.rx == rest
    decreases i
  {
    if i == 0 {
      BadBlockFirst(b, t, ds, bad, rest, blocks, acc);
    } else {
      GoodBlockBefore(b, t, i, ds, bad, rest, blocks);
      var d := ReceiveDataBlock(b, blocks[0]);
      ReadBlocksPastCrcError(d.bus, t, i - 1, ds[1..], bad, rest, blocks[1..], acc);
      ReadBlocksStep(b, d, ReadBlocks(d.bus, blocks[1..], acc), ds, blocks, acc);
    }
  }

  /** One block of `ReadBlocksPastCrcError`: a first block that failed its
      CRC still puts its contents in front of what the rest of the loop
      returns, and the rest runs with SD_CRC_ERROR accumulated. */
  lemma BadBlockStep(b: Bus, d: Got<seq<byte>>, r: Got<seq<seq<byte>>>, ds: seq<seq<byte>>, blocks: seq<seq<byte>>, acc: Status)
    requires acc < 8 && BlockSized(blocks) && 0 < |ds| == |blocks|
    requires |d.value| == |blocks[0]| && d.status == Code(CrcError) && d.value == ds[0] && OnlyReceives(b, d.bus)
    requires r == ReadBlocks(d.bus, blocks[1..], acc | Code(CrcError)) && r.value == ds[1..]
    ensures ReadBlocksAfter(b, d, blocks, acc) == Got(r.status, ds, r.bus)
  {
    assert acc | d.status == acc | Code(CrcError);
    assert ReadBlocksAfter(b, d, blocks, acc) == Got(r.status, [d.value] + r.value, r.bus);
    assert [ds[0]] + ds[1..] == ds;
  }

  /** The bad first block of `BadBlockFirst`: it is read with SD_CRC_ERROR
      and its contents, and the rest of the run follows. */
  lemma BadFirstBlock(b: Bus, t: Tick, data: seq<byte>, bad: seq<byte>, tail: seq<byte>, prior: seq<byte>)
    requires Clean(b, t) && |b.ticks| >= 2
    requires |data| == |prior| < 0x10000 && |bad| == 2 && bad != Crc16Wire(data)
    requires b.rx == [StartBlockToken] + data + bad + tail
    ensures var d := ReceiveDataBlock(b, prior);
      && d.status == Code(CrcError) && d.value == data && Clean(d.bus, t)
      && |d.bus.ticks| == |b.ticks| - 2 && d.bus.rx == tail
  {
    assert b.rx == Repeat(0xFF, 0) + [StartBlockToken] + data + bad + tail;
    BadBlockOnCleanBus(b, t, 0, data, bad, tail, prior);
  }

  /** The case of `ReadBlocksPastCrcError` where the bad block comes first. */
  lemma BadBlockFirst(b: Bus, t: Tick, ds: seq<seq<byte>>, bad: seq<byte>, rest: seq<byte>, blocks: seq<seq<byte>>, acc: Status)
    requires Clean(b, t) && |b.ticks| >= 2 * |ds|
    requires acc < 8 && BlockSized(blocks) && |ds| == |blocks| && 0 < |ds|
    requires forall j | 0 <= j < |ds| :: |ds[j]| == |blocks[j]|
    requires |bad| == 2 && bad != Crc16Wire(ds[0])
    requires b.rx == DataBlocks(ds[..0], [StartBlockToken] + ds[0] + bad + DataBlocks(ds[1..], rest))
    ensures var r := ReadBlocks(b, blocks, acc);
      r.status == acc | Code(CrcError) && r.value == ds && r.bus.rx == rest
  {
    assert ds[..0] == [];
    BadFirstBlock(b, t, ds[0], bad, DataBlocks(ds[1..], rest), blocks[0]);
    var d := ReceiveDataBlock(b, blocks[0]);
    AccumulatedStaysCode(acc, d.status);
    ReadBlocksOnCleanBus(d.bus, t, ds[1..], rest, blocks[1..], acc | d.status);
    BadBlockStep(b, d, ReadBlocks(d.bus, blocks[1..], acc | d.status), ds, blocks, acc);
  }

  /** The case of `ReadBlocksPastCrcError` where a good block comes before
      the bad one: it is read with SD_OK, and what follows has the same
      shape one block shorter. */
  lemma GoodBlockBefore(b: Bus, t: Tick, i: nat, ds: seq<seq<byte>>, bad: seq<byte>, rest: seq<byte>, blocks: seq<seq<byte>>)
    requires Clean(b, t) && |b.ticks| >= 2 * |ds|
    requires BlockSized(blocks) && |ds| == |blocks| && 0 < i < |ds|
    requires forall j | 0 <= j < |ds| :: |ds[j]| == |blocks[j]|
    requires b.rx == DataBlocks(ds[..i], [StartBlockToken] + ds[i] + bad + DataBlocks(ds[i + 1..], rest))
    ensures var d := ReceiveDataBlock(b, blocks[0]);
      && d.status == 0 && d.value == ds[0] && Clean(d.bus, t) && |d.bus.ticks| == |b.ticks| - 2
      && d.bus.rx == DataBlocks(ds[1..][..i - 1], [StartBlockToken] + ds[1..][i - 1] + bad + DataBlocks(ds[1..][i - 1 + 1..], rest))
  {
    var after := [StartBlockToken] + ds[i] + bad + DataBlocks(ds[i + 1..], rest);
    assert ds[..i][1..] == ds[1..][..i - 1];
    var next := DataBlocks(ds[1..][..i - 1], after);
    assert b.rx == Repeat(0xFF, 0) + [StartBlockToken] + ds[0] + Crc16Wire(ds[0]) + next;
    DataBlockOnCleanBus(b, t, 0, ds[0], next, blocks[0]);
    assert ClockAt(b.ticks[2..], t);
    assert ds[1..][i - 1] == ds[i] && ds[1..][i - 1 + 1..] == ds[i + 1..];
  }

  /** `sd_card_read_multiple_data` into `|blocks|` buffers: the opening
      with CMD18; when it gave SD_OK, every block and then the stop. */
  function ReadMultiple(b: Bus, address: bv32, blocks: seq<seq<byte>>): (r: Got<seq<seq<byte>>>)
    requires BlockSized(blocks)
    ensures |r.value| == |blocks|
    ensures forall i | 0 <= i < |blocks| :: |r.value[i]| == |blocks[i]|
    ensures !r.bus.selected
    ensures r.status < 8
  {
    ReadMultipleAfterOpen(OpenTransfer(b, ReadMultipleCmd(address)), address, blocks)
  }

  /** The part of `sd_card_read_multiple_data` after the opening. */
  function ReadMultipleAfterOpen(o: Got<byte>, address: bv32, blocks: seq<seq<byte>>): (r: Got<seq<seq<byte>>>)
    requires BlockSized(blocks)
    requires o.status == Code(TransmissionError) || o.status < 4
    ensures |r.value| == |blocks|
    ensures forall i | 0 <= i < |blocks| :: |r.value[i]| == |blocks[i]|
    ensures !r.bus.selected
    ensures r.status < 8
    ensures o.status != 0 ==> r.status == o.status && r.value == blocks && r.bus.trace == o.bus.trace + [Deselect]
  {
    if o.status != 0 then Got(o.status, blocks, Drive(o.bus, false))
    else ReadMultipleStop(ReadBlocks(o.bus, blocks, 0), address)
  }

  /** The end of `sd_card_read_multiple_data` once the blocks are read:
      CMD12 transmitted in one HAL call without leaving the transfer, its
      R1 read, the busy level (0) waited out, the card released. */
  function ReadMultipleStop(got: Got<seq<seq<byte>>>, address: bv32): (r: Got<seq<seq<byte>>>)
    requires got.status < 8
    ensures r.value == got.value
    ensures !r.bus.selected
    ensures r.status < 8
    ensures r.status & got.status == got.status
    ensures |r.bus.trace| >= |got.bus.trace| + 7
    ensures r.bus.trace
         == got.bus.trace + Txs(StopCmd(address).Bytes()) + Rxs(|r.bus.trace| - |got.bus.trace| - 7) + [Deselect]
  {
    var t := Transmit(got.bus, StopCmd(address).Bytes());
    var resp := ReceiveCmdResponse(t.bus, [0x00]);
    var w := WaitResponse(resp.bus, 0x00, 0x00);
    HalOr(t.status, resp.status);
    HalOr(t.status | resp.status, w.status);
    AccumulatedStaysCode(got.status, t.status | resp.status | w.status);
    AccumulationKeepsBits(got.status, t.status | resp.status | w.status);
    OnlyReceivesTransitive(t.bus, resp.bus, w.bus);
    Got(got.status | (t.status | resp.status | w.status), got.value, Drive(w.bus, false))
  }

  /** CMD12 is sent exactly when CMD18 was accepted, and nothing else is
      transmitted. */
  lemma ReadMultipleSends(b: Bus, address: bv32, blocks: seq<seq<byte>>)
    requires BlockSized(blocks)
    ensures var o := OpenTransfer(b, ReadMultipleCmd(address));
      Sent(ReadMultiple(b, address, blocks).bus.trace)
      == Sent(b.trace) + ReadMultipleCmd(address).Bytes() + (if o.status == 0 then StopCmd(address).Bytes() else [])
  {
    var c := ReadMultipleCmd(address).Bytes();
    var o := OpenTransfer(b, ReadMultipleCmd(address));
    OpenedSends(b, o.bus, c);
    if o.status != 0 {
      ReleasedSends(o.bus, ReadMultipleAfterOpen(o, address, blocks).bus);
    } else {
      BlocksThenStopSends(o, address, blocks);
    }
  }

  /** The success branch of `ReadMultipleSends`: reading the blocks sends
      nothing, and the stop sends CMD12. */
  lemma BlocksThenStopSends(o: Got<byte>, address: bv32, blocks: seq<seq<byte>>)
    requires BlockSized(blocks) && o.status == 0
    ensures Sent(ReadMultipleAfterOpen(o, address, blocks).bus.trace) == Sent(o.bus.trace) + StopCmd(address).Bytes()
  {
    var got := ReadBlocks(o.bus, blocks, 0);
    var r := ReadMultipleStop(got, address);
    ReceivedSends(o.bus, got.bus);
    StopSends(got.bus, r.bus, StopCmd(address).Bytes());
  }

  /** On a clean bus a card that accepts CMD18 at once, sends the blocks
      back to back, answers CMD12 and ends its busy period delivers every
      block with SD_OK. */
  lemma ReadMultipleOnCleanBus(b: Bus, t: Tick, address: bv32, ds: seq<seq<byte>>, rest: seq<byte>, blocks: seq<seq<byte>>)
    requires Clean(b, t) && |b.ticks| >= 2 * |ds| + 6
    requires BlockSized(blocks) && |ds| == |blocks|
    requires forall i | 0 <= i < |ds| :: |ds[i]| == |blocks[i]|
    requires b.rx == [R1Clear] + DataBlocks(ds, [R1Clear, 0xFF] + rest)
    ensures ReadMultiple(b, address, blocks).status == 0
    ensures ReadMultiple(b, address, blocks).value == ds
    ensures ReadMultiple(b, address, blocks).bus.rx == rest
  {
    var tail := DataBlocks(ds, [R1Clear, 0xFF] + rest);
    AtOnce(0xFF, R1Clear, tail);
    OpenOnCleanBus(b, t, ReadMultipleCmd(address), 0, R1Clear, tail);
    var o := OpenTransfer(b, ReadMultipleCmd(address));
    BlocksThenStopOnCleanBus(o, t, address, ds, rest, blocks);
  }

  /** The blocks and the stop of `ReadMultipleOnCleanBus`. */
  lemma BlocksThenStopOnCleanBus(o: Got<byte>, t: Tick, address: bv32, ds: seq<seq<byte>>, rest: seq<byte>, blocks: seq<seq<byte>>)
    requires o.status == 0 && Clean(o.bus, t) && |o.bus.ticks| >= 2 * |ds| + 4
    requires BlockSized(blocks) && |ds| == |blocks|
    requires forall i | 0 <= i < |ds| :: |ds[i]| == |blocks[i]|
    requires o.bus.rx == DataBlocks(ds, [R1Clear, 0xFF] + rest)
    ensures ReadMultipleAfterOpen(o, address, blocks).status == 0
    ensures ReadMultipleAfterOpen(o, address, blocks).value == ds
    ensures ReadMultipleAfterOpen(o, address, blocks).bus.rx == rest
  {
    ReadBlocksOnCleanBus(o.bus, t, ds, [R1Clear, 0xFF] + rest, blocks, 0);
    var got := ReadBlocks(o.bus, blocks, 0);
    assert Clean(got.bus, t) && |got.bus.ticks| >= 4;
    StopOnCleanBus(got, t, address, rest);
  }

  /** The stop sequence on a clean bus, R1 and end of busy at once. */
  lemma StopOnCleanBus(got: Got<seq<seq<byte>>>, t: Tick, address: bv32, rest: seq<byte>)
    requires got.status == 0 && Clean(got.bus, t) && |got.bus.ticks| >= 4
    requires got.bus.rx == [R1Clear, 0xFF] + rest
    ensures ReadMultipleStop(got, address).status == 0
    ensures ReadMultipleStop(got, address).bus.rx == rest
  {
    var tr := Transmit(got.bus, StopCmd(address).Bytes());
    AtOnce(0xFF, R1Clear, [0xFF] + rest);
    ResponseOnCleanBus(tr.bus, t, 0, [R1Clear], [0xFF] + rest, [0x00]);
    var resp := ReceiveCmdResponse(tr.bus, [0x00]);
    AtOnce(0x00, 0xFF, rest);
    assert Clean(resp.bus, t);
    WaitFindsAnswer(resp.bus, t, 0x00, 0x00, 0, 0xFF, rest);
  }

  // ---------------------------------------------------- what goes out

  lemma ReleasedSends(b1: Bus, b2: Bus)
    requires ReceivedThenReleased(b1, b2)
    ensures Sent(b2.trace) == Sent(b1.trace)
  {
    var n := |b2.trace| - |b1.trace| - 1;
    SentAppend(b1.trace + Rxs(n), [Deselect]);
    SentAppend(b1.trace, Rxs(n));
    SentRxs(n);
    assert Sent([Deselect]) == [] by {
      assert [Deselect][..0] == [];
    }
  }

  lemma ReceivedSends(b1: Bus, b2: Bus)
    requires OnlyReceives(b1, b2)
    ensures Sent(b2.trace) == Sent(b1.trace)
  {
    SentAppend(b1.trace, Rxs(|b2.trace| - |b1.trace|));
    SentRxs(|b2.trace| - |b1.trace|);
  }

  lemma StopSends(b1: Bus, b2: Bus, frame: seq<byte>)
    requires |b2.trace| >= |b1.trace| + |frame| + 1
    requires b2.trace == b1.trace + Txs(frame) + Rxs(|b2.trace| - |b1.trace| - |frame| - 1) + [Deselect]
    ensures Sent(b2.trace) == Sent(b1.trace) + frame
  {
    var n := |b2.trace| - |b1.trace| - |frame| - 1;
    SentAppend(b1.trace + Txs(frame) + Rxs(n), [Deselect]);
    SentAppend(b1.trace + Txs(frame), Rxs(n));
    SentAppend(b1.trace, Txs(frame));
    SentTxs(frame);
    SentRxs(n);
    assert Sent([Deselect]) == [] by {
      assert [Deselect][..0] == [];
    }
  }
}

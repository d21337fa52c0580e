/** Block writes (`sd_driver_write.c`): CMD24 for one block, CMD25 for a
    run of blocks closed by the stop token. Each block goes out behind its
    start token and is followed by its CRC16; the card answers with a data
    response and then holds the line at 0 while it programs the block. */
module Write {
  import opened Codes
  import opened Crc
  import opened Transport
  import opened Frame
  import opened Secondary

  /** CMD24, WRITE_BLOCK. */
  function WriteSingleCmd(address: bv32): (c: Command)
    ensures |c.argument| == 4 && ParseFrame(c.Bytes()) == Some(Request(24, address))
  {
    FrameDecodes(WriteBlockIndex, address);
    Cmd(WriteBlockIndex, address)
  }

  /** CMD25, WRITE_MULTIPLE_BLOCK. */
  function WriteMultipleCmd(address: bv32): (c: Command)
    ensures |c.argument| == 4 && ParseFrame(c.Bytes()) == Some(Request(25, address))
  {
    FrameDecodes(WriteMultipleBlockIndex, address);
    Cmd(WriteMultipleBlockIndex, address)
  }

  // ---------------------------------------------------------- data response

  /** The data response a byte carries in its low nibble, if any. */
  function DataResponseOf(response: byte): (r: Option<DataResponse>)
    ensures r.Some? ==> ResponseNibble(r.value) == response & 0x0F
    ensures r.None? ==> forall d: DataResponse :: ResponseNibble(d) != response & 0x0F
  {
    var n := response & 0x0F;
    if n == ResponseNibble(Accepted) then Some(Accepted)
    else if n == ResponseNibble(CrcRejected) then Some(CrcRejected)
    else if n == ResponseNibble(WriteRejected) then Some(WriteRejected)
    else None
  }

  /** The upper bits of the response byte do not matter: every byte whose
      low nibble is a response token reads as that token. */
  lemma DataResponseRoundTrip(d: DataResponse, high: byte)
    ensures DataResponseOf((high & 0xF0) | ResponseNibble(d)) == Some(d)
  {
    assert ((high & 0xF0) | ResponseNibble(d)) & 0x0F == ResponseNibble(d);
  }

  /** The `switch` ending `sd_card_transmit_data_block`: a CRC rejection
      gives exactly SD_CRC_ERROR and a write rejection exactly SD_ERROR,
      whatever was accumulated; an acceptance keeps the status; anything
      else adds SD_TRANSMISSION_ERROR. */
  function ResponseStatus(response: byte, status: Status): (s: Status)
    requires status < 8
    ensures s < 8
  {
    AccumulatedStaysCode(status, Code(TransmissionError));
    match DataResponseOf(response)
    case Some(Accepted) => status
    case Some(CrcRejected) => Code(CrcError)
    case Some(WriteRejected) => Code(Error)
    case None => status | Code(TransmissionError)
  }

  /** A block write ends in SD_OK exactly when the card accepted the block
      and every transfer before succeeded; a rejected or garbled response is
      never reported as SD_OK. */
  lemma ResponseStatusOk(response: byte, status: Status)
    requires status < 8
    ensures ResponseStatus(response, status) == 0 <==> DataResponseOf(response) == Some(Accepted) && status == 0
    ensures DataResponseOf(response) == Some(CrcRejected) ==> ResponseStatus(response, status) == Code(CrcError)
    ensures DataResponseOf(response) == Some(WriteRejected) ==> ResponseStatus(response, status) == Code(Error)
  {
    AccumulatedOkIff(status, Code(TransmissionError));
  }

  // ------------------------------------------------------------ one block

  /** The transmitting half of `sd_card_transmit_data_block`: the token in
      one HAL call, then the data and the CRC byte by byte. */
  function TransmitFramed(b: Bus, token: byte, data: seq<byte>, crc: seq<byte>): (r: Done)
    ensures r.status < 4
    ensures r.status == 0 <==> Quiet(b.hal, 1 + |data| + |crc|)
    ensures r.bus.trace == b.trace + Txs([token] + data + crc)
    ensures r.bus.rx == b.rx && r.bus.ticks == b.ticks && r.bus.selected == b.selected
  {
    var t := Transmit(b, [token]);
    var d := TransmitBytes(t.bus, data);
    var c := TransmitBytes(d.bus, crc);
    HalOr(t.status, d.status);
    HalOr(t.status | d.status, c.status);
    QuietConcat(b.hal, 1, |data| + |crc|);
    QuietConcat(Skip(b.hal, 1), |data|, |crc|);
    TxsAppend(b.trace, [token], data);
    TxsAppend(b.trace, [token] + data, crc);
    Done(t.status | d.status | c.status, c.bus)
  }

  /** The receiving half of `sd_card_transmit_data_block`: the data
      response in a single reception into a zeroed byte, then the busy
      level 0 waited out, then the `switch` on the response. */
  function AwaitDataResponse(sent: Done): (r: Done)
    requires sent.status < 4
    ensures r.status < 8
    ensures OnlyReceives(sent.bus, r.bus)
    ensures var resp := Receive(sent.bus, 0x00);
      r.status == ResponseStatus(resp.value, sent.status | resp.status | WaitResponse(resp.bus, 0x00, 0x00).status)
  {
    var resp := Receive(sent.bus, 0x00);
    var w := WaitResponse(resp.bus, 0x00, 0x00);
    HalOr(sent.status, resp.status);
    HalOr(sent.status | resp.status, w.status);
    assert OnlyReceives(sent.bus, resp.bus) by {
      assert resp.bus.trace == sent.bus.trace + Rxs(1);
    }
    OnlyReceivesTransitive(sent.bus, resp.bus, w.bus);
    Done(ResponseStatus(resp.value, sent.status | resp.status | w.status), w.bus)
  }

  /** `sd_card_transmit_data_block` with the two CRC bytes given. */
  function SendDataBlock(b: Bus, data: seq<byte>, token: byte, crc: seq<byte>): (r: Done)
    ensures r.status < 8
    ensures r.bus.selected == b.selected && |r.bus.ticks| <= |b.ticks|
    ensures Sent(r.bus.trace) == Sent(b.trace) + ([token] + data + crc)
  {
    var f := TransmitFramed(b, token, data, crc);
    var r := AwaitDataResponse(f);
    SentTxRx(b.trace, [token] + data + crc, |r.bus.trace| - |f.bus.trace|);
    r
  }

  /** `sd_card_transmit_data_block` as written: the CRC goes out in the
      memory order of the `crc_16_result` image, least significant byte
      first. */
  function TransmitDataBlockAsWritten(b: Bus, data: seq<byte>, token: byte): (r: Done)
    requires |data| < 0x10000
    ensures r.status < 8
    ensures r.bus.selected == b.selected && |r.bus.ticks| <= |b.ticks|
    ensures Sent(r.bus.trace) == Sent(b.trace) + ([token] + data + Crc16Image(data))
  {
    SendDataBlock(b, data, token, Crc16Image(data))
  }

  /** `sd_card_transmit_data_block` with the CRC sent most significant byte
      first, the order the card checks and `sd_card_receive_data_block`
      expects. */
  function TransmitDataBlock(b: Bus, data: seq<byte>, token: byte): (r: Done)
    requires |data| < 0x10000
    ensures r.status < 8
    ensures r.bus.selected == b.selected && |r.bus.ticks| <= |b.ticks|
    ensures Sent(r.bus.trace) == Sent(b.trace) + ([token] + data + Crc16Wire(data))
  {
    SendDataBlock(b, data, token, Crc16Wire(data))
  }

  /** The two CRC bytes the chosen build sends after a block. */
  function CrcBytesOf(build: Build, data: seq<byte>): (c: seq<byte>)
    requires |data| < 0x10000
    ensures |c| == 2
  {
    match build
    case AsWritten => Crc16Image(data)
    case Corrected => Crc16Wire(data)
  }

  /** `sd_card_transmit_data_block` in the chosen build. */
  function TransmitDataBlockOf(build: Build, b: Bus, data: seq<byte>, token: byte): (r: Done)
    requires |data| < 0x10000
    ensures r.status < 8
    ensures r.bus.selected == b.selected && |r.bus.ticks| <= |b.ticks|
    ensures Sent(r.bus.trace) == Sent(b.trace) + ([token] + data + CrcBytesOf(build, data))
  {
    match build
    case AsWritten => TransmitDataBlockAsWritten(b, data, token)
    case Corrected => TransmitDataBlock(b, data, token)
  }

  /** The bytes a transmission added to the bus. */
  function SentSince(before: Bus, after: Bus): seq<byte>
  {
    var s := Sent(after.trace);
    if |Sent(before.trace)| <= |s| then s[|Sent(before.trace)|..] else []
  }

  lemma SentSinceAppended(before: Bus, after: Bus, added: seq<byte>)
    requires Sent(after.trace) == Sent(before.trace) + added
    ensures SentSince(before, after) == added
  {
  }

  /** A card presenting a block right away, with the two bytes `crc`
      after it. */
  lemma ReadBack(reader: Bus, t: Tick, data: seq<byte>, crc: seq<byte>, rest: seq<byte>, prior: seq<byte>)
    requires |data| == |prior| < 0x10000 && |crc| == 2
    requires Clean(reader, t) && |reader.ticks| > 1
    requires reader.rx == [StartBlockToken] + data + crc + rest
    ensures ReceiveDataBlock(reader, prior).status == 0 <==> crc == Crc16Wire(data)
    ensures ReceiveDataBlock(reader, prior).value == data
  {
    assert reader.rx == Repeat(0xFF, 0) + [StartBlockToken] + data + crc + rest;
    DataBlockChecksCrc(reader, t, 0, data, crc, rest, prior);
  }

  /** Write then read: the bytes the corrected block transmission puts on
      the bus, presented by a card to `sd_card_receive_data_block`, give the
      block back with SD_OK. */
  lemma WrittenBlockReadsBack(b: Bus, reader: Bus, t: Tick, data: seq<byte>, rest: seq<byte>, prior: seq<byte>)
    requires |data| == |prior| < 0x10000
    requires Clean(reader, t) && |reader.ticks| > 1
    requires reader.rx == SentSince(b, TransmitDataBlock(b, data, StartBlockToken).bus) + rest
    ensures ReceiveDataBlock(reader, prior).status == 0
    ensures ReceiveDataBlock(reader, prior).value == data
  {
    var w := TransmitDataBlock(b, data, StartBlockToken);
    SentSinceAppended(b, w.bus, [StartBlockToken] + data + Crc16Wire(data));
    ReadBack(reader, t, data, Crc16Wire(data), rest, prior);
  }

  /** As written, a block goes out with its CRC bytes swapped, so the
      reader accepts it only when both CRC bytes are equal. */
  lemma WrittenAsWrittenFailsReadBack(b: Bus, reader: Bus, t: Tick, data: seq<byte>, rest: seq<byte>, prior: seq<byte>)
    requires |data| == |prior| < 0x10000
    requires Clean(reader, t) && |reader.ticks| > 1
    requires reader.rx == SentSince(b, TransmitDataBlockAsWritten(b, data, StartBlockToken).bus) + rest
    ensures ReceiveDataBlock(reader, prior).status == 0 <==> Crc16Image(data)[0] == Crc16Image(data)[1]
  {
    var w := TransmitDataBlockAsWritten(b, data, StartBlockToken);
    SentSinceAppended(b, w.bus, [StartBlockToken] + data + Crc16Image(data));
    ReadBack(reader, t, data, Crc16Image(data), rest, prior);
  }

  /** The block 0x01 has CRC16 0x1021, whose two bytes differ: the code as
      written sends 21 10 after it, the corrected code 10 21. */
  lemma SwappedCrcExample()
    ensures Crc16Image([0x01]) == [0x21, 0x10]
    ensures Crc16Image([0x01]) != Crc16Wire([0x01])
    ensures CrcBytesOf(AsWritten, [0x01]) == [0x21, 0x10]
    ensures CrcBytesOf(Corrected, [0x01]) == [0x10, 0x21]
  {
    Crc16TestVectors();
  }

  // --------------------------------------------------------- single write

  /** `sd_card_write_data` of one block in the chosen build: the opening
      with CMD24 and, only when it gave SD_OK, the block behind token 0xFE. */
  function WriteData(build: Build, b: Bus, address: bv32, data: seq<byte>): (r: Done)
    requires |data| < 0x10000
    ensures !r.bus.selected
    ensures r.status < 8
  {
    WriteAfterOpen(build, OpenTransfer(b, WriteSingleCmd(address)), data)
  }

  /** The part of `sd_card_write_data` after the opening. */
  function WriteAfterOpen(build: Build, o: Got<byte>, data: seq<byte>): (r: Done)
    requires |data| < 0x10000
    requires o.status == Code(TransmissionError) || o.status < 4
    ensures !r.bus.selected
    ensures r.status < 8
    ensures o.status != 0 ==> r.status == o.status && Sent(r.bus.trace) == Sent(o.bus.trace)
    ensures o.status == 0 ==> Sent(r.bus.trace) == Sent(o.bus.trace) + ([StartBlockToken] + data + CrcBytesOf(build, data))
  {
    if o.status != 0 then
      SentChipSelect(o.bus.trace);
      Done(o.status, Drive(o.bus, false))
    else
      var w := TransmitDataBlockOf(build, o.bus, data, StartBlockToken);
      SentChipSelect(w.bus.trace);
      Done(w.status, Drive(w.bus, false))
  }

  /** CMD24 always goes out; the block follows exactly when the card
      accepted the command, with its CRC in the order the build sends. */
  lemma WriteDataSends(build: Build, b: Bus, address: bv32, data: seq<byte>)
    requires |data| < 0x10000
    ensures var o := OpenTransfer(b, WriteSingleCmd(address));
      o.status == 0 ==>
        Sent(WriteData(build, b, address, data).bus.trace)
        == Sent(b.trace) + WriteSingleCmd(address).Bytes() + ([StartBlockToken] + data + CrcBytesOf(build, data))
    ensures var o := OpenTransfer(b, WriteSingleCmd(address));
      o.status != 0 ==> Sent(WriteData(build, b, address, data).bus.trace) == Sent(b.trace) + WriteSingleCmd(address).Bytes()
  {
    var o := OpenTransfer(b, WriteSingleCmd(address));
    OpenedSends(b, o.bus, WriteSingleCmd(address).Bytes());
  }

  // ------------------------------------------------------- several blocks

  /** The bytes a run of blocks puts on the bus in a multiple-block write:
      each block behind token 0xFC and followed by its CRC16 in the order
      the build sends. */
  function MultiWriteBytes(build: Build, blocks: seq<seq<byte>>): seq<byte>
    requires BlockSized(blocks)
    decreases |blocks|
  {
    if |blocks| == 0 then []
    else ([StartMultiWriteToken] + blocks[0] + CrcBytesOf(build, blocks[0])) + MultiWriteBytes(build, blocks[1..])
  }

  /** The `for` loop of `sd_card_write_multiple_data`: every block is sent
      whatever happened to the ones before, statuses ORed onto `acc`. */
  function WriteBlocks(build: Build, b: Bus, blocks: seq<seq<byte>>, acc: Status): (r: Done)
    requires acc < 8 && BlockSized(blocks)
    ensures r.status < 8
    ensures r.bus.selected == b.selected && |r.bus.ticks| <= |b.ticks|
    ensures Sent(r.bus.trace) == Sent(b.trace) + MultiWriteBytes(build, blocks)
    decreases |blocks|, 1
  {
    if |blocks| == 0 then Done(acc, b)
    else WriteBlocksAfter(build, b, TransmitDataBlockOf(build, b, blocks[0], StartMultiWriteToken), blocks, acc)
  }

  /** One pass of the loop after the block `blocks[0]` was sent, giving `w`. */
  function WriteBlocksAfter(build: Build, b: Bus, w: Done, blocks: seq<seq<byte>>, acc: Status): (r: Done)
    requires acc < 8 && BlockSized(blocks) && |blocks| > 0
    requires w.status < 8
    requires w.bus.selected == b.selected && |w.bus.ticks| <= |b.ticks|
    requires Sent(w.bus.trace) == Sent(b.trace) + ([StartMultiWriteToken] + blocks[0] + CrcBytesOf(build, blocks[0]))
    ensures r.status < 8
    ensures r.bus.selected == b.selected && |r.bus.ticks| <= |b.ticks|
    ensures Sent(r.bus.trace) == Sent(b.trace) + MultiWriteBytes(build, blocks)
    decreases |blocks|, 0
  {
    AccumulatedStaysCode(acc, w.status);
    var rest := WriteBlocks(build, w.bus, blocks[1..], acc | w.status);
    SeqAssoc(Sent(b.trace), [StartMultiWriteToken] + blocks[0] + CrcBytesOf(build, blocks[0]), MultiWriteBytes(build, blocks[1..]));
    rest
  }

  /** The loop never clears a status bit already accumulated: once a block
      has failed, the status of the whole run is non-zero, and the stop
      token is not sent. */
  lemma {:induction false} WriteBlocksKeepsFailures(build: Build, b: Bus, blocks: seq<seq<byte>>, acc: Status)
    requires acc < 8 && BlockSized(blocks)
    ensures WriteBlocks(build, b, blocks, acc).status & acc == acc
    decreases |blocks|
  {
    if |blocks| > 0 {
      var w := TransmitDataBlockOf(build, b, blocks[0], StartMultiWriteToken);
      AccumulatedStaysCode(acc, w.status);
      WriteBlocksKeepsFailures(build, w.bus, blocks[1..], acc | w.status);
      var r := WriteBlocks(build, w.bus, blocks[1..], acc | w.status);
      assert r.status & (acc | w.status) == acc | w.status;
    }
  }

  /** `sd_card_write_multiple_data` in the chosen build: the opening with
      CMD25; when it gave SD_OK every block, and when those all gave SD_OK
      the stop token. */
  function WriteMultiple(build: Build, b: Bus, address: bv32, blocks: seq<seq<byte>>): (r: Done)
    requires BlockSized(blocks)
    ensures !r.bus.selected
    ensures r.status < 8
  {
    WriteMultipleAfterOpen(build, OpenTransfer(b, WriteMultipleCmd(address)), blocks)
  }

  /** The part of `sd_card_write_multiple_data` after the opening. */
  function WriteMultipleAfterOpen(build: Build, o: Got<byte>, blocks: seq<seq<byte>>): (r: Done)
    requires BlockSized(blocks)
    requires o.status == Code(TransmissionError) || o.status < 4
    ensures !r.bus.selected
    ensures r.status < 8
    ensures o.status != 0 ==> r.status == o.status && Sent(r.bus.trace) == Sent(o.bus.trace)
    ensures o.status == 0 ==> r.status & WriteBlocks(build, o.bus, blocks, 0).status == WriteBlocks(build, o.bus, blocks, 0).status
  {
    if o.status != 0 then
      SentChipSelect(o.bus.trace);
      Done(o.status, Drive(o.bus, false))
    else WriteMultipleStop(WriteBlocks(build, o.bus, blocks, 0))
  }

  /** The end of `sd_card_write_multiple_data` once the blocks are sent: if
      anything failed, release the card at once; otherwise the stop token
      in one HAL call, a wait for the card to start its busy period (a byte
      other than 0xFF) and one for it to end it (a byte other than 0). */
  function WriteMultipleStop(got: Done): (r: Done)
    requires got.status < 8
    ensures !r.bus.selected
    ensures r.status < 8
    ensures got.status != 0 ==> r.status == got.status && Sent(r.bus.trace) == Sent(got.bus.trace)
    ensures got.status == 0 ==> Sent(r.bus.trace) == Sent(got.bus.trace) + [StopMultiWriteToken]
  {
    if got.status != 0 then
      SentChipSelect(got.bus.trace);
      Done(got.status, Drive(got.bus, false))
    else
      var t := Transmit(got.bus, [StopMultiWriteToken]);
      var busy := WaitResponse(t.bus, 0x00, 0xFF);
      var done := WaitResponse(busy.bus, busy.value, 0x00);
      HalOr(t.status, busy.status);
      HalOr(t.status | busy.status, done.status);
      OnlyReceivesTransitive(t.bus, busy.bus, done.bus);
      SentTxRx(got.bus.trace, [StopMultiWriteToken], |done.bus.trace| - |t.bus.trace|);
      SentChipSelect(done.bus.trace);
      Done(t.status | busy.status | done.status, Drive(done.bus, false))
  }

  /** CMD25 always goes out; the blocks follow exactly when the card
      accepted it, with their CRCs in the order the build sends, and the stop
      token exactly when every block was accepted as well. */
  lemma WriteMultipleSends(build: Build, b: Bus, address: bv32, blocks: seq<seq<byte>>)
    requires BlockSized(blocks)
    ensures var o := OpenTransfer(b, WriteMultipleCmd(address));
      o.status != 0 ==> Sent(WriteMultiple(build, b, address, blocks).bus.trace) == Sent(b.trace) + WriteMultipleCmd(address).Bytes()
    ensures var o := OpenTransfer(b, WriteMultipleCmd(address));
      var w := WriteBlocks(build, o.bus, blocks, 0);
      o.status == 0 && w.status != 0 ==>
        Sent(WriteMultiple(build, b, address, blocks).bus.trace)
        == Sent(b.trace) + WriteMultipleCmd(address).Bytes() + MultiWriteBytes(build, blocks)
    ensures var o := OpenTransfer(b, WriteMultipleCmd(address));
      var w := WriteBlocks(build, o.bus, blocks, 0);
      o.status == 0 && w.status == 0 ==>
        Sent(WriteMultiple(build, b, address, blocks).bus.trace)
        == Sent(b.trace) + WriteMultipleCmd(address).Bytes() + MultiWriteBytes(build, blocks) + [StopMultiWriteToken]
  {
    var o := OpenTransfer(b, WriteMultipleCmd(address));
    OpenedSends(b, o.bus, WriteMultipleCmd(address).Bytes());
  }
}

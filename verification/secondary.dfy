/** The shared layer of the driver (`sd_driver_secondary.c` and the macros of
    `sd_driver_secondary.h`): waiting for a byte other than an idle level,
    reading a command response, sending a command with chip select around
    it, and receiving a data block checked by CRC16. */
module Secondary {
  import opened Codes
  import opened Crc
  import opened Transport
  import opened Frame

  /** SD_TRANSMISSION_TIMEOUT, in milliseconds. */
  const TransmissionTimeout: nat := 500

  // ------------------------------------------------------------ waiting

  /** The loop of `sd_card_wait_response` after the clock was captured as
      `start`: check the budget, receive a byte into the destination (which
      holds `cur`), and go round again while the byte is the idle level.
      `acc` is the status accumulated so far. */
  function Poll(b: Bus, start: Clock, cur: byte, idle: byte, acc: Status): (r: Got<byte>)
    requires acc < 4
    ensures r.status < 4
    ensures r.status == 0 ==> r.value != idle
    ensures r.value == idle ==> r.status == Code(Timeout)
    ensures OnlyReceives(b, r.bus)
    decreases |b.ticks|
  {
    var (now, b1) := ReadTick(b);
    if Expired(start, now, TransmissionTimeout) then
      Got(Code(Timeout), cur, b1)
    else
      var got := Receive(b1, cur);
      HalOr(acc, got.status);
      if got.value == idle then
        var r := Poll(got.bus, start, got.value, idle, acc | got.status);
        OnlyReceivesTransitive(b, got.bus, r.bus);
        r
      else
        Got(acc | got.status, got.value, got.bus)
  }

  /** `sd_card_wait_response`: the destination holds `prior` on entry; the
      result's value is what it holds on return. */
  function WaitResponse(b: Bus, prior: byte, idle: byte): (r: Got<byte>)
    ensures r.status < 4
    ensures r.status == 0 ==> r.value != idle
    ensures r.value == idle ==> r.status == Code(Timeout)
    ensures OnlyReceives(b, r.bus)
  {
    var (start, b1) := ReadTick(b);
    Poll(b1, start, prior, idle, 0)
  }

  /** One pass of the loop on a clean bus with the clock standing still:
      the budget never runs out, and `k` idle bytes followed by `v` end the
      wait with `v` after exactly k + 1 receptions. */
  lemma {:induction false} PollFinds(b: Bus, t: Tick, cur: byte, idle: byte, k: nat, v: byte, rest: seq<byte>)
    requires Clean(b, t) && |b.ticks| > k
    requires b.rx == Repeat(idle, k) + [v] + rest && v != idle
    ensures Poll(b, Reading(t), cur, idle, 0)
         == Got(0, v, b.(rx := rest, ticks := b.ticks[k + 1..], trace := b.trace + Rxs(k + 1)))
    decreases k
  {
    var got := Receive(b.(ticks := b.ticks[1..]), cur);
    if k == 0 {
      assert b.rx[1..] == rest;
    } else {
      assert got.bus.rx == Repeat(idle, k - 1) + [v] + rest;
      PollFinds(got.bus, t, idle, idle, k - 1, v, rest);
      assert b.trace + [Rx] + Rxs(k) == b.trace + Rxs(k + 1);
      assert got.bus.ticks[k..] == b.ticks[k + 1..];
    }
  }

  /** A card that only ever shows the idle level makes the loop run until
      the clock is exhausted, and the result is HAL_TIMEOUT. */
  lemma {:induction false} PollSilent(b: Bus, start: Clock, cur: byte, idle: byte, acc: Status)
    requires acc < 4 && b.hal == []
    requires forall i | 0 <= i < |b.rx| :: b.rx[i] == idle
    requires idle == 0xFF || |b.rx| >= |b.ticks|
    ensures Poll(b, start, cur, idle, acc).status == Code(Timeout)
    ensures Poll(b, start, cur, idle, acc).value in {cur, idle}
    decreases |b.ticks|
  {
    var (now, b1) := ReadTick(b);
    if !Expired(start, now, TransmissionTimeout) {
      var got := Receive(b1, cur);
      assert got.value == idle;
      HalOr(acc, got.status);
      PollSilent(got.bus, start, idle, idle, acc | got.status);
    }
  }

  /** The wait returns the first byte other than the idle level when no HAL
      call fails and the budget does not run out; it clocks in exactly the
      bytes up to and including that one. */
  lemma WaitFindsAnswer(b: Bus, t: Tick, prior: byte, idle: byte, k: nat, v: byte, rest: seq<byte>)
    requires Clean(b, t) && |b.ticks| > k + 1
    requires b.rx == Repeat(idle, k) + [v] + rest && v != idle
    ensures WaitResponse(b, prior, idle)
         == Got(0, v, b.(rx := rest, ticks := b.ticks[k + 2..], trace := b.trace + Rxs(k + 1)))
  {
    PollFinds(b.(ticks := b.ticks[1..]), t, prior, idle, k, v, rest);
    assert b.ticks[1..][k + 1..] == b.ticks[k + 2..];
  }

  /** A card that never leaves the idle level makes the wait end in
      HAL_TIMEOUT, with the destination holding its entry value or the idle
      level. */
  lemma WaitTimesOutOnSilentCard(b: Bus, prior: byte, idle: byte)
    requires b.hal == []
    requires forall i | 0 <= i < |b.rx| :: b.rx[i] == idle
    requires idle == 0xFF || |b.rx| >= |b.ticks|
    ensures WaitResponse(b, prior, idle).status == Code(Timeout)
    ensures WaitResponse(b, prior, idle).value in {prior, idle}
  {
    var (start, b1) := ReadTick(b);
    PollSilent(b1, start, prior, idle, 0);
  }

  /** The budget is checked before every reception: when the first check
      already finds it spent, nothing is received and the destination keeps
      its value. */
  lemma WaitChecksBudgetFirst(b: Bus, prior: byte, idle: byte)
    requires |b.ticks| < 2 || Elapsed(b.ticks[0], b.ticks[1]) > TransmissionTimeout
    ensures WaitResponse(b, prior, idle) == Got(Code(Timeout), prior, b.(ticks := Skip(b.ticks, 2)))
  {
    SkipSkip(b.ticks, 1, 1);
  }

  // ------------------------------------------------------- command responses

  /** The longest response `sd_card_receive_cmd_response` can store: the R1
      byte and its five-byte buffer. */
  const MaxResponse: nat := 6

  /** `sd_card_receive_cmd_response` into a response of `|prior|` bytes that
      holds `prior` on entry. The first byte other than 0xFF becomes byte 0;
      when that wait succeeds the next `|prior| - 1` bytes follow, each 0 if
      its own HAL call failed. */
  function ReceiveCmdResponse(b: Bus, prior: seq<byte>): (r: Got<seq<byte>>)
    requires 1 <= |prior| <= MaxResponse
    ensures |r.value| == |prior|
    ensures r.status < 4
    ensures r.status == 0 ==> r.value[0] != 0xFF
    ensures OnlyReceives(b, r.bus)
  {
    var w := WaitResponse(b, 0x00, 0xFF);
    if w.status != 0 then
      Got(w.status, prior[0 := w.value], w.bus)
    else if |prior| == 1 then
      Got(0, [w.value], w.bus)
    else
      var rest := ReceiveBytes(w.bus, Repeat(0x00, |prior| - 1));
      OnlyReceivesTransitive(b, w.bus, rest.bus);
      Got(rest.status, [w.value] + rest.value, rest.bus)
  }

  /** When waiting for the R1 byte fails, nothing more is received: the
      response keeps its other bytes and the wait's status is returned. */
  lemma ResponseStopsAfterFailedWait(b: Bus, prior: seq<byte>)
    requires 1 <= |prior| <= MaxResponse
    requires WaitResponse(b, 0x00, 0xFF).status != 0
    ensures ReceiveCmdResponse(b, prior).status == WaitResponse(b, 0x00, 0xFF).status
    ensures ReceiveCmdResponse(b, prior).value[1..] == prior[1..]
    ensures ReceiveCmdResponse(b, prior).bus == WaitResponse(b, 0x00, 0xFF).bus
  {
  }

  /** On a clean bus, a card that answers after `k` idle bytes yields its
      answer verbatim, with exactly k + |answer| receptions. */
  lemma ResponseOnCleanBus(b: Bus, t: Tick, k: nat, answer: seq<byte>, rest: seq<byte>, prior: seq<byte>)
    requires Clean(b, t) && |b.ticks| > k + 1
    requires 1 <= |answer| == |prior| <= MaxResponse && answer[0] != 0xFF
    requires b.rx == Repeat(0xFF, k) + answer + rest
    ensures ReceiveCmdResponse(b, prior)
         == Got(0, answer, b.(rx := rest, ticks := b.ticks[k + 2..], trace := b.trace + Rxs(k + |answer|)))
  {
    assert b.rx == Repeat(0xFF, k) + [answer[0]] + (answer[1..] + rest);
    WaitFindsAnswer(b, t, 0x00, 0xFF, k, answer[0], answer[1..] + rest);
    var w := WaitResponse(b, 0x00, 0xFF);
    if |answer| > 1 {
      PeekPrefix(answer[1..], rest);
      assert [answer[0]] + answer[1..] == answer;
      assert b.trace + Rxs(k + 1) + Rxs(|answer| - 1) == b.trace + Rxs(k + |answer|);
    } else {
      assert answer[1..] + rest == rest;
      assert [answer[0]] == answer;
    }
  }

  /** The bus activity of SEND_CMD: chip select asserted, the frame
      transmitted, bytes clocked in, chip select released. */
  predicate Exchange(b1: Bus, b2: Bus, frame: seq<byte>)
  {
    && !b2.selected
    && |b2.ticks| <= |b1.ticks|
    && |b2.trace| >= |b1.trace| + |frame| + 2
    && b2.trace == b1.trace + [Select] + Txs(frame) + Rxs(|b2.trace| - |b1.trace| - |frame| - 2) + [Deselect]
  }

  /** The bytes put on the bus during an exchange are exactly the frame. */
  lemma ExchangeSends(b1: Bus, b2: Bus, frame: seq<byte>)
    requires Exchange(b1, b2, frame)
    ensures Sent(b2.trace) == Sent(b1.trace) + frame
  {
    var n := |b2.trace| - |b1.trace| - |frame| - 2;
    SentAppend(b1.trace + [Select] + Txs(frame) + Rxs(n), [Deselect]);
    SentAppend(b1.trace + [Select] + Txs(frame), Rxs(n));
    SentAppend(b1.trace + [Select], Txs(frame));
    SentAppend(b1.trace, [Select]);
    SentTxs(frame);
    SentRxs(n);
    assert Sent([Deselect]) == [] by {
      assert [Deselect][..0] == [];
    }
    assert Sent([Select]) == [] by {
      assert [Select][..0] == [];
    }
  }

  /** SEND_CMD: assert chip select, transmit the six frame bytes in one HAL
      call, read the response, release chip select. The result's status is
      what the macro ORs into the caller's status. */
  function SendCmd(b: Bus, c: Command, prior: seq<byte>): (r: Got<seq<byte>>)
    requires |c.argument| == 4 && 1 <= |prior| <= MaxResponse
    ensures |r.value| == |prior|
    ensures r.status < 4
    ensures Exchange(b, r.bus, c.Bytes())
  {
    var b1 := Drive(b, true);
    var t := Transmit(b1, c.Bytes());
    var resp := ReceiveCmdResponse(t.bus, prior);
    HalOr(t.status, resp.status);
    var n := |resp.bus.trace| - |t.bus.trace|;
    assert b.trace + [Select] + Txs(c.Bytes()) + Rxs(n) == resp.bus.trace;
    Got(t.status | resp.status, resp.value, Drive(resp.bus, false))
  }

  /** On a clean bus SEND_CMD yields the card's answer verbatim. */
  lemma SendCmdOnCleanBus(b: Bus, t: Tick, c: Command, k: nat, answer: seq<byte>, rest: seq<byte>, prior: seq<byte>)
    requires |c.argument| == 4
    requires Clean(b, t) && |b.ticks| > k + 1
    requires 1 <= |answer| == |prior| <= MaxResponse && answer[0] != 0xFF
    requires b.rx == Repeat(0xFF, k) + answer + rest
    ensures SendCmd(b, c, prior).status == 0
    ensures SendCmd(b, c, prior).value == answer
    ensures SendCmd(b, c, prior).bus.rx == rest
    ensures SendCmd(b, c, prior).bus.hal == []
    ensures SendCmd(b, c, prior).bus.ticks == b.ticks[k + 2..]
    ensures SendCmd(b, c, prior).bus.trace
         == b.trace + [Select] + Txs(c.Bytes()) + Rxs(k + |answer|) + [Deselect]
  {
    var b1 := Drive(b, true).(trace := b.trace + [Select] + Txs(c.Bytes()));
    ResponseOnCleanBus(b1, t, k, answer, rest, prior);
  }

  // ------------------------------------------------------------ data blocks

  /** `sd_card_receive_data_block` into a buffer of `|prior|` bytes (a
      16-bit size) that holds `prior` on entry. A first byte other than the
      start token 0xFE ends it with SD_ERROR before any payload is read; a
      CRC mismatch gives exactly SD_CRC_ERROR, whatever else was
      accumulated. The CRC is expected most significant byte first: the
      second received byte against the computed low byte, the first
      against the high byte. */
  function ReceiveDataBlock(b: Bus, prior: seq<byte>): (r: Got<seq<byte>>)
    requires |prior| < 0x10000
    ensures |r.value| == |prior|
    ensures r.status < 4 || r.status == Code(CrcError)
    ensures OnlyReceives(b, r.bus)
  {
    var w := WaitResponse(b, 0x00, 0xFF);
    if w.value != StartBlockToken then
      Got(Code(Error), prior, w.bus)
    else
      var d := ReceiveBytes(w.bus, prior);
      var c := ReceiveBytes(d.bus, [0x00, 0x00]);
      var img := Crc16Image(d.value);
      OnlyReceivesTransitive(b, w.bus, d.bus);
      OnlyReceivesTransitive(b, d.bus, c.bus);
      HalOr(w.status, d.status);
      HalOr(w.status | d.status, c.status);
      if !(c.value[1] == img[0] && c.value[0] == img[1]) then
        Got(Code(CrcError), d.value, c.bus)
      else
        Got(w.status | d.status | c.status, d.value, c.bus)
  }

  /** Block buffers whose sizes the 16-bit size parameters of
      `sd_card_receive_data_block` and `sd_card_transmit_data_block` can
      describe. */
  predicate BlockSized(blocks: seq<seq<byte>>)
  {
    forall i | 0 <= i < |blocks| :: |blocks[i]| < 0x10000
  }

  /** The byte-swapped comparison accepts exactly the CRC sent most
      significant byte first. */
  lemma CrcComparisonIsWireOrder(received: seq<byte>, data: seq<byte>)
    requires |received| == 2
    ensures (received[1] == Crc16Image(data)[0] && received[0] == Crc16Image(data)[1])
        <==> received == Crc16Wire(data)
  {
  }

  /** The payload part of a data block on a clean bus, once the start
      token has been seen: `payload` and then the two bytes `crc` are
      clocked in. */
  lemma DataBlockBody(b: Bus, t: Tick, k: nat, payload: seq<byte>, crc: seq<byte>, rest: seq<byte>, prior: seq<byte>)
    requires Clean(b, t) && |b.ticks| > k + 1
    requires |payload| == |prior| < 0x10000 && |crc| == 2
    requires b.rx == Repeat(0xFF, k) + [StartBlockToken] + (payload + (crc + rest))
    ensures var w := WaitResponse(b, 0x00, 0xFF);
      && w == Got(0, StartBlockToken, b.(rx := payload + (crc + rest), ticks := b.ticks[k + 2..], trace := b.trace + Rxs(k + 1)))
      && ReceiveBytes(w.bus, prior) == Got(0, payload, w.bus.(rx := crc + rest, trace := w.bus.trace + Rxs(|payload|)))
      && ReceiveBytes(w.bus.(rx := crc + rest, trace := w.bus.trace + Rxs(|payload|)), [0x00, 0x00])
         == Got(0, crc, b.(rx := rest, ticks := b.ticks[k + 2..], trace := b.trace + Rxs(k + 1) + Rxs(|payload|) + Rxs(2)))
  {
    WaitFindsAnswer(b, t, 0x00, 0xFF, k, StartBlockToken, payload + (crc + rest));
    var w := WaitResponse(b, 0x00, 0xFF);
    ReceiveBytesWhole(w.bus, prior, payload, crc + rest);
    var d := w.bus.(rx := crc + rest, trace := w.bus.trace + Rxs(|payload|));
    ReceiveBytesWhole(d, [0x00, 0x00], crc, rest);
  }

  /** A block whose token is 0xFE and whose received CRC matches returns the
      payload with the OR of the three transfer statuses. */
  lemma DataBlockAccepts(b: Bus, prior: seq<byte>)
    requires |prior| < 0x10000
    ensures var w := WaitResponse(b, 0x00, 0xFF);
      var d := ReceiveBytes(w.bus, prior);
      var c := ReceiveBytes(d.bus, [0x00, 0x00]);
      w.value == StartBlockToken && c.value == Crc16Wire(d.value)
      ==> ReceiveDataBlock(b, prior) == Got(w.status | d.status | c.status, d.value, c.bus)
  {
    var w := WaitResponse(b, 0x00, 0xFF);
    var d := ReceiveBytes(w.bus, prior);
    var c := ReceiveBytes(d.bus, [0x00, 0x00]);
    CrcComparisonIsWireOrder(c.value, d.value);
  }

  /** A card sending, after `k` idle bytes, the start token, the payload and
      its CRC16 delivers the payload with status SD_OK. */
  lemma DataBlockOnCleanBus(b: Bus, t: Tick, k: nat, data: seq<byte>, rest: seq<byte>, prior: seq<byte>)
    requires Clean(b, t) && |b.ticks| > k + 1
    requires |data| == |prior| < 0x10000
    requires b.rx == Repeat(0xFF, k) + [StartBlockToken] + data + Crc16Wire(data) + rest
    ensures var r := ReceiveDataBlock(b, prior);
      && r.status == 0 && r.value == data
      && r.bus.rx == rest && r.bus.hal == [] && r.bus.ticks == b.ticks[k + 2..]
      && |r.bus.trace| == |b.trace| + k + 1 + |data| + 2
  {
    assert b.rx == Repeat(0xFF, k) + [StartBlockToken] + (data + (Crc16Wire(data) + rest));
    DataBlockBody(b, t, k, data, Crc16Wire(data), rest, prior);
    var w := WaitResponse(b, 0x00, 0xFF);
    var d := ReceiveBytes(w.bus, prior);
    var c := ReceiveBytes(d.bus, [0x00, 0x00]);
    DataBlockAccepts(b, prior);
  }

  /** On a clean bus the block is accepted exactly when the two bytes
      after the payload are its CRC16 most significant byte first; the
      payload is delivered either way. */
  lemma DataBlockChecksCrc(b: Bus, t: Tick, k: nat, data: seq<byte>, crc: seq<byte>, rest: seq<byte>, prior: seq<byte>)
    requires Clean(b, t) && |b.ticks| > k + 1
    requires |data| == |prior| < 0x10000 && |crc| == 2
    requires b.rx == Repeat(0xFF, k) + [StartBlockToken] + data + crc + rest
    ensures ReceiveDataBlock(b, prior).status == 0 <==> crc == Crc16Wire(data)
    ensures ReceiveDataBlock(b, prior).value == data
  {
    assert b.rx == Repeat(0xFF, k) + [StartBlockToken] + (data + (crc + rest));
    DataBlockBody(b, t, k, data, crc, rest, prior);
    CrcComparisonIsWireOrder(crc, data);
  }

  /** A payload with one bit flipped in transit, followed by the CRC of the
      original payload, is reported as SD_CRC_ERROR. */
  lemma DataBlockDetectsFlippedBit(b: Bus, t: Tick, k: nat, data: seq<byte>, i: nat, j: nat, rest: seq<byte>, prior: seq<byte>)
    requires Clean(b, t) && |b.ticks| > k + 1
    requires |data| == |prior| < 0x10000 && i < |data| && j < 8
    requires b.rx == Repeat(0xFF, k) + [StartBlockToken] + FlipBit(data, i, j) + Crc16Wire(data) + rest
    ensures ReceiveDataBlock(b, prior).status == Code(CrcError)
    ensures ReceiveDataBlock(b, prior).value == FlipBit(data, i, j)
  {
    var bad := FlipBit(data, i, j);
    assert b.rx == Repeat(0xFF, k) + [StartBlockToken] + (bad + (Crc16Wire(data) + rest));
    DataBlockBody(b, t, k, bad, Crc16Wire(data), rest, prior);
    Crc16DetectsSingleBitFlip(data, i, j);
    Crc16ImageInjective(bad, data);
    CrcComparisonIsWireOrder(Crc16Wire(data), bad);
  }

  /** A first byte other than the start token ends the block with SD_ERROR
      after k + 1 receptions: no payload is read and the buffer is
      untouched. */
  lemma DataBlockRejectsToken(b: Bus, t: Tick, k: nat, token: byte, rest: seq<byte>, prior: seq<byte>)
    requires Clean(b, t) && |b.ticks| > k + 1
    requires |prior| < 0x10000
    requires token != 0xFF && token != StartBlockToken
    requires b.rx == Repeat(0xFF, k) + [token] + rest
    ensures ReceiveDataBlock(b, prior) == Got(Code(Error), prior,
      b.(rx := rest, ticks := b.ticks[k + 2..], trace := b.trace + Rxs(k + 1)))
  {
    WaitFindsAnswer(b, t, 0x00, 0xFF, k, token, rest);
  }

  /** A card that never sends anything makes the wait time out with the
      token still 0, which is reported as SD_ERROR and reads no payload. */
  lemma DataBlockTimeoutIsError(b: Bus, prior: seq<byte>)
    requires |prior| < 0x10000 && b.hal == []
    requires forall i | 0 <= i < |b.rx| :: b.rx[i] == 0xFF
    ensures ReceiveDataBlock(b, prior).status == Code(Error)
    ensures ReceiveDataBlock(b, prior).value == prior
  {
    WaitTimesOutOnSilentCard(b, 0x00, 0xFF);
  }

  // ------------------------------------------------- partial-block probe

  /** CMD9, SEND_CSD. */
  function SendCsd(): (c: Command)
    ensures |c.argument| == 4 && ParseFrame(c.Bytes()) == Some(Request(9, 0))
  {
    FrameDecodes(SendCsdIndex, 0);
    Cmd(SendCsdIndex, 0)
  }

  /** Chip select asserted, `frame` sent in one HAL call, bytes clocked in,
      chip select released: the shape of both probes. */
  lemma ExchangeOf(b: Bus, frame: seq<byte>, t: Done, inner: Bus)
    requires t == Transmit(Drive(b, true), frame)
    requires OnlyReceives(t.bus, inner)
    ensures Exchange(b, Drive(inner, false), frame)
  {
    var n := |inner.trace| - |t.bus.trace|;
    assert inner.trace == b.trace + [Select] + Txs(frame) + Rxs(n);
  }

  /** `is_partial_block_possible` as written: CMD9 is sent and the data
      block is awaited at once, without first reading the R1 byte that the
      card sends before it. The status is internal (the source returns only
      the boolean). */
  function PartialBlockProbeAsWritten(b: Bus): (r: Got<bool>)
    ensures r.status != 0 ==> !r.value
    ensures Exchange(b, r.bus, SendCsd().Bytes())
  {
    var t := Transmit(Drive(b, true), SendCsd().Bytes());
    var blk := ReceiveDataBlock(t.bus, Repeat(0x00, CsdSize));
    ExchangeOf(b, SendCsd().Bytes(), t, blk.bus);
    var status := t.status | blk.status;
    Got(status, status == 0 && PartialBlockAllowed(blk.value), Drive(blk.bus, false))
  }

  /** `is_partial_block_possible` with the R1 byte read before the data
      block; a card that rejects CMD9 gives false. */
  function PartialBlockProbe(b: Bus): (r: Got<bool>)
    ensures r.status != 0 ==> !r.value
    ensures Exchange(b, r.bus, SendCsd().Bytes())
  {
    var t := Transmit(Drive(b, true), SendCsd().Bytes());
    ProbeAfterR1(b, t, ReceiveCmdResponse(t.bus, [0x00]))
  }

  /** The part of the corrected probe after the R1 byte `r1` was read. */
  function ProbeAfterR1(b: Bus, t: Done, r1: Got<seq<byte>>): (r: Got<bool>)
    requires t == Transmit(Drive(b, true), SendCsd().Bytes())
    requires |r1.value| == 1 && OnlyReceives(t.bus, r1.bus)
    ensures r.status != 0 ==> !r.value
    ensures Exchange(b, r.bus, SendCsd().Bytes())
  {
    var status := t.status | r1.status;
    if status != 0 || r1.value[0] != R1Clear then
      ExchangeOf(b, SendCsd().Bytes(), t, r1.bus);
      Got(status, false, Drive(r1.bus, false))
    else
      var blk := ReceiveDataBlock(r1.bus, Repeat(0x00, CsdSize));
      OnlyReceivesTransitive(t.bus, r1.bus, blk.bus);
      ExchangeOf(b, SendCsd().Bytes(), t, blk.bus);
      var all := status | blk.status;
      Got(all, all == 0 && PartialBlockAllowed(blk.value), Drive(blk.bus, false))
  }

  /** A card that answers CMD9 as the standard prescribes: after `k` idle
      bytes the R1 byte 0x00, after `j` more the start token, the CSD and
      its CRC16. */
  predicate CsdAnswer(rx: seq<byte>, k: nat, j: nat, csd: seq<byte>, rest: seq<byte>)
  {
    |csd| == CsdSize
    && rx == Repeat(0xFF, k) + [R1Clear] + (Repeat(0xFF, j) + [StartBlockToken] + csd + Crc16Wire(csd) + rest)
  }

  /** As written, the probe takes the R1 byte 0x00 for the data token and
      reports partial blocks as impossible on every conforming card, whatever
      its CSD says. */
  lemma PartialBlockProbeAsWrittenMissesR1(b: Bus, t: Tick, k: nat, j: nat, csd: seq<byte>, rest: seq<byte>)
    requires Clean(b, t) && |b.ticks| > k + 1
    requires CsdAnswer(b.rx, k, j, csd, rest)
    ensures !PartialBlockProbeAsWritten(b).value
  {
    var tail := Repeat(0xFF, j) + [StartBlockToken] + csd + Crc16Wire(csd) + rest;
    var b1 := Transmit(Drive(b, true), SendCsd().Bytes()).bus;
    DataBlockRejectsToken(b1, t, k, R1Clear, tail, Repeat(0x00, CsdSize));
  }

  /** With the R1 byte read first, the probe reports exactly the CSD's
      READ_BL_PARTIAL bit on a conforming card. */
  lemma PartialBlockProbeReadsCsd(b: Bus, t: Tick, k: nat, j: nat, csd: seq<byte>, rest: seq<byte>)
    requires Clean(b, t) && |b.ticks| > k + j + 3
    requires CsdAnswer(b.rx, k, j, csd, rest)
    ensures PartialBlockProbe(b).status == 0
    ensures PartialBlockProbe(b).value == CsdBit(csd, 79)
  {
    var tr := Transmit(Drive(b, true), SendCsd().Bytes());
    var tail := Repeat(0xFF, j) + [StartBlockToken] + csd + Crc16Wire(csd) + rest;
    ResponseOnCleanBus(tr.bus, t, k, [R1Clear], tail, [0x00]);
    ProbeReadsBlock(b, tr, ReceiveCmdResponse(tr.bus, [0x00]), t, j, csd, rest);
  }

  /** The data-block half of `PartialBlockProbeReadsCsd`. */
  lemma ProbeReadsBlock(b: Bus, tr: Done, r1: Got<seq<byte>>, t: Tick, j: nat, csd: seq<byte>, rest: seq<byte>)
    requires tr == Transmit(Drive(b, true), SendCsd().Bytes()) && tr.status == 0
    requires r1.status == 0 && r1.value == [R1Clear] && OnlyReceives(tr.bus, r1.bus)
    requires Clean(r1.bus, t) && |r1.bus.ticks| > j + 1 && |csd| == CsdSize
    requires r1.bus.rx == Repeat(0xFF, j) + [StartBlockToken] + csd + Crc16Wire(csd) + rest
    ensures ProbeAfterR1(b, tr, r1).status == 0
    ensures ProbeAfterR1(b, tr, r1).value == CsdBit(csd, 79)
  {
    DataBlockOnCleanBus(r1.bus, t, j, csd, rest, Repeat(0x00, CsdSize));
    PartialBlockIsCsdBit79(csd);
  }

  /** CMD16, SET_BLOCKLEN. */
  function SetBlockLenCmd(length: bv32): (c: Command)
    ensures |c.argument| == 4 && ParseFrame(c.Bytes()) == Some(Request(16, length))
  {
    FrameDecodes(SetBlockLenIndex, length);
    Cmd(SetBlockLenIndex, length)
  }

  /** The largest block length the driver accepts. */
  const MaxBlockLength: bv32 := 512

  /** `is_partial_block_possible` in the chosen build. */
  function ProbeOf(build: Build, b: Bus): (r: Got<bool>)
    ensures r.status != 0 ==> !r.value
    ensures Exchange(b, r.bus, SendCsd().Bytes())
  {
    match build
    case AsWritten => PartialBlockProbeAsWritten(b)
    case Corrected => PartialBlockProbe(b)
  }

  /** `sd_card_set_block_len` in the chosen build: the CSD is probed first
      in every case; a refused probe or a length over 512 gives
      SD_INCORRECT_ARGUMENT without sending CMD16; otherwise CMD16 goes out
      and a non-zero R1 gives SD_TRANSMISSION_ERROR. */
  function SetBlockLen(build: Build, b: Bus, length: bv32): (r: Done)
    ensures !r.bus.selected
    ensures r.status == Code(IncorrectArgument) || r.status == Code(TransmissionError) || r.status < 4
    ensures length > MaxBlockLength ==> r.status == Code(IncorrectArgument)
    ensures !ProbeOf(build, b).value ==> r.status == Code(IncorrectArgument)
    ensures ProbeOf(build, b).value && length <= MaxBlockLength ==> r.status != Code(IncorrectArgument)
  {
    SetBlockLenAfterProbe(ProbeOf(build, b), length)
  }

  /** The part of `sd_card_set_block_len` after the probe returned. */
  function SetBlockLenAfterProbe(probe: Got<bool>, length: bv32): (r: Done)
    requires !probe.bus.selected
    ensures !r.bus.selected
    ensures r.status == Code(IncorrectArgument) || r.status == Code(TransmissionError) || r.status < 4
    ensures length > MaxBlockLength ==> r.status == Code(IncorrectArgument)
    ensures !probe.value ==> r.status == Code(IncorrectArgument)
    ensures probe.value && length <= MaxBlockLength ==> r.status != Code(IncorrectArgument)
    ensures r.status == Code(IncorrectArgument) ==> r.bus == probe.bus
    ensures r.status != Code(IncorrectArgument) ==> Exchange(probe.bus, r.bus, SetBlockLenCmd(length).Bytes())
  {
    if !probe.value || length > MaxBlockLength then
      Done(Code(IncorrectArgument), probe.bus)
    else
      var s := SendCmd(probe.bus, SetBlockLenCmd(length), [0x00]);
      if s.value[0] != R1Clear then Done(Code(TransmissionError), s.bus)
      else Done(s.status, s.bus)
  }

  /** Once the probe allowed it and the length fits, a card answering CMD16
      on a clean bus with `r1` after `k` idle bytes gives SD_OK exactly when
      `r1` is clear, and SD_TRANSMISSION_ERROR otherwise. */
  lemma SetBlockLenOnCleanBus(probe: Got<bool>, t: Tick, length: bv32, k: nat, r1: byte, rest: seq<byte>)
    requires !probe.bus.selected && probe.value && length <= MaxBlockLength
    requires Clean(probe.bus, t) && |probe.bus.ticks| > k + 1
    requires r1 != 0xFF && probe.bus.rx == Repeat(0xFF, k) + [r1] + rest
    ensures SetBlockLenAfterProbe(probe, length).status == if r1 == R1Clear then 0 else Code(TransmissionError)
  {
    SendCmdOnCleanBus(probe.bus, t, SetBlockLenCmd(length), k, [r1], rest, [0x00]);
  }

  /** CMD16 goes on the bus exactly when the result is not
      SD_INCORRECT_ARGUMENT; CMD9 always precedes it. */
  lemma SetBlockLenSends(build: Build, b: Bus, length: bv32)
    ensures var r := SetBlockLen(build, b, length);
      r.status == Code(IncorrectArgument) ==> Sent(r.bus.trace) == Sent(b.trace) + SendCsd().Bytes()
    ensures var r := SetBlockLen(build, b, length);
      r.status != Code(IncorrectArgument)
      ==> Sent(r.bus.trace) == Sent(b.trace) + SendCsd().Bytes() + SetBlockLenCmd(length).Bytes()
  {
    var probe := ProbeOf(build, b);
    var r := SetBlockLenAfterProbe(probe, length);
    ExchangeSends(b, probe.bus, SendCsd().Bytes());
    if r.status != Code(IncorrectArgument) {
      ExchangeSends(probe.bus, r.bus, SetBlockLenCmd(length).Bytes());
    }
  }

  /** On a card that answers CMD9 as the standard prescribes, the code as
      written refuses every block length with SD_INCORRECT_ARGUMENT and never
      sends CMD16, whatever the CSD says; the corrected code sends CMD16 for
      a length up to 512 when the CSD allows partial blocks. */
  lemma SetBlockLenAsWrittenRefuses(b: Bus, t: Tick, k: nat, j: nat, csd: seq<byte>, rest: seq<byte>, length: bv32)
    requires Clean(b, t) && |b.ticks| > k + j + 3
    requires CsdAnswer(b.rx, k, j, csd, rest)
    ensures SetBlockLen(AsWritten, b, length).status == Code(IncorrectArgument)
    ensures Sent(SetBlockLen(AsWritten, b, length).bus.trace) == Sent(b.trace) + SendCsd().Bytes()
    ensures CsdBit(csd, 79) && length <= MaxBlockLength ==>
      Sent(SetBlockLen(Corrected, b, length).bus.trace) == Sent(b.trace) + SendCsd().Bytes() + SetBlockLenCmd(length).Bytes()
  {
    PartialBlockProbeAsWrittenMissesR1(b, t, k, j, csd, rest);
    PartialBlockProbeReadsCsd(b, t, k, j, csd, rest);
    SetBlockLenSends(AsWritten, b, length);
    SetBlockLenSends(Corrected, b, length);
  }

  // ------------------------------------------------------ opening a transfer

  /** `b2` follows `b1` by selecting the card, transmitting `frame` and
      clocking bytes in, the card still selected. */
  predicate Opened(b1: Bus, b2: Bus, frame: seq<byte>)
  {
    && b2.selected
    && |b2.ticks| <= |b1.ticks|
    && |b2.trace| >= |b1.trace| + |frame| + 1
    && b2.trace == b1.trace + [Select] + Txs(frame) + Rxs(|b2.trace| - |b1.trace| - |frame| - 1)
  }

  /** The opening the block transfers share: chip select asserted, the
      command frame transmitted in one HAL call, its R1 read into a zeroed
      byte; an R1 other than 0 overrides the status with
      SD_TRANSMISSION_ERROR. The card stays selected. */
  function OpenTransfer(b: Bus, c: Command): (r: Got<byte>)
    requires |c.argument| == 4
    ensures r.status == Code(TransmissionError) || r.status < 4
    ensures r.value != R1Clear ==> r.status == Code(TransmissionError)
    ensures Opened(b, r.bus, c.Bytes())
  {
    var t := Transmit(Drive(b, true), c.Bytes());
    var resp := ReceiveCmdResponse(t.bus, [0x00]);
    HalOr(t.status, resp.status);
    var n := |resp.bus.trace| - |t.bus.trace|;
    assert b.trace + [Select] + Txs(c.Bytes()) + Rxs(n) == resp.bus.trace;
    if resp.value[0] != R1Clear then Got(Code(TransmissionError), resp.value[0], resp.bus)
    else Got(t.status | resp.status, resp.value[0], resp.bus)
  }

  /** On a clean bus the opening reads the card's R1 after `k` idle bytes:
      SD_OK exactly when it is clear. */
  lemma OpenOnCleanBus(b: Bus, t: Tick, c: Command, k: nat, r1: byte, rest: seq<byte>)
    requires |c.argument| == 4
    requires Clean(b, t) && |b.ticks| > k + 1
    requires r1 != 0xFF && b.rx == Repeat(0xFF, k) + [r1] + rest
    ensures OpenTransfer(b, c).status == if r1 == R1Clear then 0 else Code(TransmissionError)
    ensures OpenTransfer(b, c).value == r1
    ensures var o := OpenTransfer(b, c);
      o.bus.rx == rest && Clean(o.bus, t) && o.bus.ticks == b.ticks[k + 2..]
  {
    var b1 := Drive(b, true).(trace := b.trace + [Select] + Txs(c.Bytes()));
    ResponseOnCleanBus(b1, t, k, [r1], rest, [0x00]);
    assert ClockAt(b.ticks[k + 2..], t);
  }

  /** An opening puts exactly the command frame on the bus. */
  lemma OpenedSends(b1: Bus, b2: Bus, frame: seq<byte>)
    requires Opened(b1, b2, frame)
    ensures Sent(b2.trace) == Sent(b1.trace) + frame
  {
    SentTxRx(b1.trace + [Select], frame, |b2.trace| - |b1.trace| - |frame| - 1);
    SentChipSelect(b1.trace);
  }
}

/** Card initialisation (`sd_driver_init.c`): power-on clocks, CMD0 into SPI
    mode behind a latch, CMD8 deciding between the version 1 and version 2
    flows, CMD59, the OCR voltage test, the CMD55/ACMD41 loop and the
    capacity read, recorded in `sd_card_status`. Section 7.2.1 of the SD
    Physical Layer Simplified Specification describes the flow. */
module Init {
  import opened Codes
  import opened Crc
  import opened Transport
  import opened Frame
  import opened Secondary

  /** `sd_capacity`. */
  datatype Capacity = Undefined | Standard | HighOrExtended

  /** `sd_status`, the record `sd_card_reset` fills in. */
  datatype CardStatus = CardStatus(version: nat, capacity: Capacity, errorInInitialization: bool)

  /** The record's zero-initialised value. */
  const Unknown := CardStatus(0, Undefined, false)

  /** A status, the SPI-mode latch and the bus. */
  datatype Latched = Latched(status: Status, latched: bool, bus: Bus)

  /** A status, the card record and the bus. */
  datatype Outcome = Outcome(status: Status, card: CardStatus, bus: Bus)

  /** How long the card may take to enter SPI mode, in milliseconds. */
  const IdleTimeout: nat := 500

  /** How long the ACMD41 loop may take, in milliseconds. */
  const ReadyTimeout: nat := 1000

  /** The check pattern sent with CMD8 and expected back in R7. */
  const CheckPattern: byte := 0x55

  // -------------------------------------------------------------- commands

  function GoIdle(): (c: Command)
    ensures |c.argument| == 4 && ParseFrame(c.Bytes()) == Some(Request(0, 0))
  {
    FrameDecodes(GoIdleIndex, 0);
    Cmd(GoIdleIndex, 0)
  }

  /** CMD8 with the 2.7-3.6 V range (1 << 8) and the check pattern 0x55 in
      the low byte. */
  function SendIfCond(): (c: Command)
    ensures |c.argument| == 4 && ParseFrame(c.Bytes()) == Some(Request(8, 0x155))
    ensures c.argument[2] & 0x0F == 1 && c.argument[3] == CheckPattern
  {
    FrameDecodes(SendIfCondIndex, 0x155);
    Cmd(SendIfCondIndex, 0x155)
  }

  function CrcOnOffCmd(enable: bool): (c: Command)
    ensures |c.argument| == 4 && ParseFrame(c.Bytes()) == Some(Request(59, if enable then 1 else 0))
  {
    FrameDecodes(CrcOnOffIndex, if enable then 1 else 0);
    Cmd(CrcOnOffIndex, if enable then 1 else 0)
  }

  function ReadOcr(): (c: Command)
    ensures |c.argument| == 4 && ParseFrame(c.Bytes()) == Some(Request(58, 0))
  {
    FrameDecodes(ReadOcrIndex, 0);
    Cmd(ReadOcrIndex, 0)
  }

  function AppCmd(): (c: Command)
    ensures |c.argument| == 4 && ParseFrame(c.Bytes()) == Some(Request(55, 0))
  {
    FrameDecodes(AppCmdIndex, 0);
    Cmd(AppCmdIndex, 0)
  }

  function SendOpCond(): (c: Command)
    ensures |c.argument| == 4 && ParseFrame(c.Bytes()) == Some(Request(41, 0))
  {
    FrameDecodes(SendOpCondIndex, 0);
    Cmd(SendOpCondIndex, 0)
  }

  // -------------------------------------------------------------- power on

  /** Clock cycles the power-on sequence gives the card. */
  const PowerOnBytes: nat := 10

  /** `sd_card_power_on`: chip select released, ten 0xFF bytes each in its
      own HAL call, then one byte received. */
  function PowerOn(b: Bus): (r: Done)
    ensures r.status < 4
    ensures r.status == 0 <==> Quiet(b.hal, PowerOnBytes + 1)
    ensures !r.bus.selected
    ensures r.bus.trace == b.trace + [Deselect] + Txs(Repeat(0xFF, PowerOnBytes)) + [Rx]
    ensures r.bus.ticks == b.ticks
    ensures r.status == 0 ==> r.bus.rx == Skip(b.rx, 1)
    ensures b.hal == [] ==> r.bus.hal == []
  {
    var t := TransmitBytes(Drive(b, false), Repeat(0xFF, PowerOnBytes));
    var got := Receive(t.bus, 0xFF);
    HalOr(t.status, got.status);
    QuietSplit(b.hal, PowerOnBytes + 1);
    assert Skip(b.hal, PowerOnBytes) == Skip(Skip(b.hal, 1), PowerOnBytes - 1);
    Done(t.status | got.status, got.bus)
  }

  /** The power-on sequence clocks at least the 74 cycles the standard
      requires before CMD0. */
  lemma PowerOnClocksEnough(b: Bus)
    ensures |Sent(PowerOn(b).bus.trace)| - |Sent(b.trace)| == PowerOnBytes
    ensures 8 * PowerOnBytes >= 74
  {
    var r := PowerOn(b);
    SentAppend(b.trace + [Deselect] + Txs(Repeat(0xFF, PowerOnBytes)), [Rx]);
    SentAppend(b.trace + [Deselect], Txs(Repeat(0xFF, PowerOnBytes)));
    SentAppend(b.trace, [Deselect]);
    SentTxs(Repeat(0xFF, PowerOnBytes));
    assert [Rx][..0] == [] && [Deselect][..0] == [];
  }

  // ---------------------------------------------------------- enter SPI mode

  /** How the CMD0 loop ended. */
  datatype PollEnd = PollEnd(timedOut: bool, status: Status, bus: Bus)

  /** The do-while loop of `sd_card_enter_spi_mode`: receive a byte, then
      give up with a timeout if more than 500 ms passed, else go round again
      unless the byte was R1_IN_IDLE_STATE. */
  function IdlePoll(b: Bus, start: Clock, cur: byte, acc: Status): (r: PollEnd)
    requires acc < 4
    ensures r.status < 4
    ensures OnlyReceives(b, r.bus)
    decreases |b.ticks|
  {
    var got := Receive(b, cur);
    HalOr(acc, got.status);
    var (now, b1) := ReadTick(got.bus);
    if Expired(start, now, IdleTimeout) then
      PollEnd(true, acc | got.status, b1)
    else if got.value != Mask(InIdleState) then
      var r := IdlePoll(b1, start, got.value, acc | got.status);
      OnlyReceivesTransitive(b, b1, r.bus);
      r
    else
      PollEnd(false, acc | got.status, b1)
  }

  /** The part of `sd_card_enter_spi_mode` between selecting the card and
      the end of the loop: CMD0 sent, one byte received, the clock captured,
      the loop run. */
  function GoIdleExchange(b: Bus): (r: PollEnd)
    ensures r.status < 4
    ensures Opened(b, r.bus, GoIdle().Bytes())
  {
    var t := Transmit(Drive(b, true), GoIdle().Bytes());
    var first := Receive(t.bus, 0x00);
    HalOr(t.status, first.status);
    var (start, b1) := ReadTick(first.bus);
    var r := IdlePoll(b1, start, first.value, t.status | first.status);
    AppendRx(t.bus.trace, |r.bus.trace| - |b1.trace|);
    r
  }

  /** `sd_card_enter_spi_mode` as written: once the latch is set nothing
      happens; otherwise power on, CMD0, and wait for the idle R1. The
      timeout exit returns without releasing chip select. The latch is set
      only when the whole sequence ended with SD_OK. */
  function EnterSpiModeAsWritten(b: Bus, latched: bool): (r: Latched)
    ensures latched ==> r == Latched(0, true, b)
    ensures r.latched <==> r.status == 0
    ensures !latched && r.bus.selected ==> r.status == Code(Timeout)
  {
    if latched then Latched(0, true, b)
    else
      var p := PowerOn(b);
      if p.status != 0 then Latched(p.status, false, p.bus)
      else
        var e := GoIdleExchange(p.bus);
        if e.timedOut then Latched(Code(Timeout), false, e.bus)
        else Latched(e.status, e.status == 0, Drive(e.bus, false))
  }

  /** `sd_card_enter_spi_mode` with chip select released on the timeout
      exit as on every other. */
  function EnterSpiMode(b: Bus, latched: bool): (r: Latched)
    ensures latched ==> r == Latched(0, true, b)
    ensures r.latched <==> r.status == 0
    ensures !latched ==> !r.bus.selected
  {
    if latched then Latched(0, true, b)
    else
      var p := PowerOn(b);
      if p.status != 0 then Latched(p.status, false, p.bus)
      else
        var e := GoIdleExchange(p.bus);
        if e.timedOut then Latched(Code(Timeout), false, Drive(e.bus, false))
        else Latched(e.status, e.status == 0, Drive(e.bus, false))
  }

  /** `sd_card_enter_spi_mode` in the chosen build. Once latched nothing
      is touched; otherwise only the code as written can return with the
      card still selected, and only on the SD_TIMEOUT exit. */
  function EnterSpiModeOf(build: Build, b: Bus, latched: bool): (r: Latched)
    ensures latched ==> r == Latched(0, true, b)
    ensures r.latched <==> r.status == 0
    ensures !latched && r.bus.selected ==> build == AsWritten && r.status == Code(Timeout)
  {
    match build
    case AsWritten => EnterSpiModeAsWritten(b, latched)
    case Corrected => EnterSpiMode(b, latched)
  }

  /** A card that never leaves the idle level makes the CMD0 loop run until
      the clock gives out. */
  lemma {:induction false} IdlePollSilent(b: Bus, start: Clock, cur: byte, acc: Status)
    requires acc < 4 && b.hal == []
    requires forall i | 0 <= i < |b.rx| :: b.rx[i] == 0xFF
    ensures IdlePoll(b, start, cur, acc).timedOut
    decreases |b.ticks|
  {
    var got := Receive(b, cur);
    HalOr(acc, got.status);
    var (now, b1) := ReadTick(got.bus);
    if !Expired(start, now, IdleTimeout) {
      IdlePollSilent(b1, start, got.value, acc | got.status);
    }
  }

  /** On a clean bus with the clock standing still, `idle` bytes that are
      not R1_IN_IDLE_STATE followed by that byte end the CMD0 loop without a
      timeout and with SD_OK, after exactly one reception per byte. */
  lemma {:induction false} IdlePollFinds(b: Bus, t: Tick, cur: byte, idle: seq<byte>, rest: seq<byte>)
    requires Clean(b, t) && |b.ticks| > |idle|
    requires forall i | 0 <= i < |idle| :: idle[i] != Mask(InIdleState)
    requires b.rx == idle + [Mask(InIdleState)] + rest
    ensures IdlePoll(b, Reading(t), cur, 0)
         == PollEnd(false, 0, b.(rx := rest, ticks := b.ticks[|idle| + 1..], trace := b.trace + Rxs(|idle| + 1)))
    decreases |idle|
  {
    var got := Receive(b, cur);
    if |idle| == 0 {
      assert b.rx[1..] == rest;
    } else {
      var b1 := got.bus.(ticks := b.ticks[1..]);
      assert b1.rx == idle[1..] + [Mask(InIdleState)] + rest;
      IdlePollFinds(b1, t, got.value, idle[1..], rest);
      assert b.trace + [Rx] + Rxs(|idle|) == b.trace + Rxs(|idle| + 1);
      assert b.ticks[1..][|idle|..] == b.ticks[|idle| + 1..];
    }
  }

  /** The CMD0 exchange on a clean bus: the byte received right after the
      frame is discarded, and the loop then ends on the first
      R1_IN_IDLE_STATE with SD_OK. */
  lemma GoIdleOnCleanBus(b: Bus, t: Tick, first: byte, idle: seq<byte>, rest: seq<byte>)
    requires Clean(b, t) && |b.ticks| > |idle| + 1
    requires forall i | 0 <= i < |idle| :: idle[i] != Mask(InIdleState)
    requires b.rx == [first] + idle + [Mask(InIdleState)] + rest
    ensures !GoIdleExchange(b).timedOut
    ensures GoIdleExchange(b).status == 0
    ensures GoIdleExchange(b).bus.rx == rest
  {
    var tr := Transmit(Drive(b, true), GoIdle().Bytes());
    AfterGoIdleFrame(tr, t, first, idle, rest);
  }

  /** The loop part of `GoIdleOnCleanBus`, once the frame went out. */
  lemma AfterGoIdleFrame(tr: Done, t: Tick, first: byte, idle: seq<byte>, rest: seq<byte>)
    requires tr.status == 0 && Clean(tr.bus, t) && |tr.bus.ticks| > |idle| + 1
    requires forall i | 0 <= i < |idle| :: idle[i] != Mask(InIdleState)
    requires tr.bus.rx == [first] + idle + [Mask(InIdleState)] + rest
    ensures var got := Receive(tr.bus, 0x00);
      var (start, b1) := ReadTick(got.bus);
      var e := IdlePoll(b1, start, got.value, tr.status | got.status);
      !e.timedOut && e.status == 0 && e.bus.rx == rest
  {
    var got := Receive(tr.bus, 0x00);
    assert got.bus.rx == idle + [Mask(InIdleState)] + rest by {
      assert Skip(tr.bus.rx, 1) == tr.bus.rx[1..];
      assert tr.bus.rx[1..] == idle + [Mask(InIdleState)] + rest;
    }
    var b1 := got.bus.(ticks := Skip(got.bus.ticks, 1));
    assert Clean(b1, t);
    IdlePollFinds(b1, t, got.value, idle, rest);
  }

  /** A card that, after the power-on byte and the discarded byte, sends
      anything but R1_IN_IDLE_STATE for a while and then that byte puts the
      driver in SPI mode: SD_OK, the latch set and the card released, in
      either build. */
  lemma EnterSpiModeOnCleanBus(build: Build, b: Bus, t: Tick, p: byte, first: byte, idle: seq<byte>, rest: seq<byte>)
    requires Clean(b, t) && |b.ticks| > |idle| + 1
    requires forall i | 0 <= i < |idle| :: idle[i] != Mask(InIdleState)
    requires b.rx == [p, first] + idle + [Mask(InIdleState)] + rest
    ensures EnterSpiModeOf(build, b, false) == Latched(0, true, EnterSpiModeOf(build, b, false).bus)
    ensures !EnterSpiModeOf(build, b, false).bus.selected
    ensures EnterSpiModeOf(build, b, false).bus.rx == rest
  {
    var pw := PowerOn(b);
    assert pw.status == 0;
    assert pw.bus.rx == [first] + idle + [Mask(InIdleState)] + rest by {
      assert Skip(b.rx, 1) == b.rx[1..];
      assert b.rx[1..] == [first] + idle + [Mask(InIdleState)] + rest;
    }
    GoIdleOnCleanBus(pw.bus, t, first, idle, rest);
  }

  /** As written, a card that never answers CMD0 leaves chip select
      asserted after the SD_TIMEOUT return; the corrected version releases
      it. */
  lemma EnterSpiModeTimeoutLeavesSelected(b: Bus)
    requires b.hal == []
    requires forall i | 0 <= i < |b.rx| :: b.rx[i] == 0xFF
    ensures EnterSpiModeAsWritten(b, false).status == Code(Timeout)
    ensures EnterSpiModeAsWritten(b, false).bus.selected
    ensures EnterSpiMode(b, false).status == Code(Timeout)
    ensures !EnterSpiMode(b, false).bus.selected
  {
    var p := PowerOn(b);
    var t := Transmit(Drive(p.bus, true), GoIdle().Bytes());
    var first := Receive(t.bus, 0x00);
    var (start, b1) := ReadTick(first.bus);
    IdlePollSilent(b1, start, first.value, t.status | first.status);
    assert GoIdleExchange(p.bus).timedOut;
  }

  // ------------------------------------------------------------ CMD59

  /** `sd_card_crc_on_off`: CMD59 with argument 1 exactly when CRC checking
      is to be enabled; an R1 other than exactly R1_IN_IDLE_STATE gives
      SD_TRANSMISSION_ERROR. */
  function CrcOnOff(b: Bus, enable: bool): (r: Done)
    ensures Exchange(b, r.bus, CrcOnOffCmd(enable).Bytes())
    ensures r.status == Code(TransmissionError) || r.status < 4
  {
    var s := SendCmd(b, CrcOnOffCmd(enable), [0x00]);
    if s.value[0] != Mask(InIdleState) then Done(Code(TransmissionError), s.bus)
    else Done(s.status, s.bus)
  }

  /** On a clean bus a card answering CMD59 with the idle R1 gives SD_OK,
      and any other answer gives SD_TRANSMISSION_ERROR. */
  lemma CrcOnOffOnCleanBus(b: Bus, t: Tick, enable: bool, k: nat, r1: byte, rest: seq<byte>)
    requires Clean(b, t) && |b.ticks| > k + 1
    requires r1 != 0xFF && b.rx == Repeat(0xFF, k) + [r1] + rest
    ensures CrcOnOff(b, enable).status == if r1 == Mask(InIdleState) then 0 else Code(TransmissionError)
  {
    SendCmdOnCleanBus(b, t, CrcOnOffCmd(enable), k, [r1], rest, [0x00]);
  }

  // ------------------------------------------------------------ capacity

  /** Whether the card reports high or extended capacity, as written: the
      test looks at 0x02 of the first OCR byte. */
  function CapacityAsWritten(r3: seq<byte>): (c: Capacity)
    requires |r3| == R3Size
    ensures c != Undefined
  {
    if r3[1] & 0x02 != 0 then HighOrExtended else Standard
  }

  /** Whether the card reports high or extended capacity: CCS is bit 30 of
      the OCR (section 5.1 of the SD Physical Layer Simplified
      Specification), which is 0x40 of the first OCR byte. */
  function CardCapacity(r3: seq<byte>): (c: Capacity)
    requires |r3| == R3Size
    ensures c == HighOrExtended <==> OcrBit(r3, 30)
    ensures c != Undefined
  {
    if r3[1] & 0x40 != 0 then HighOrExtended else Standard
  }

  /** The test as written reads OCR bit 25, not CCS: a ready high-capacity
      card answering CMD58 with OCR 0xC0FF8000 is recorded as standard
      capacity. */
  lemma CapacityAsWrittenReadsBit25(r3: seq<byte>)
    requires |r3| == R3Size
    ensures CapacityAsWritten(r3) == HighOrExtended <==> OcrBit(r3, 25)
    ensures CapacityAsWritten([0x00, 0xC0, 0xFF, 0x80, 0x00]) == Standard
    ensures CardCapacity([0x00, 0xC0, 0xFF, 0x80, 0x00]) == HighOrExtended
  {
  }

  /** The capacity the chosen build records from the second OCR read: the
      code as written reports OCR bit 25, the corrected code CCS (bit 30). */
  function CapacityOf(build: Build, r3: seq<byte>): (c: Capacity)
    requires |r3| == R3Size
    ensures c != Undefined
    ensures build == AsWritten ==> (c == HighOrExtended <==> OcrBit(r3, 25))
    ensures build == Corrected ==> (c == HighOrExtended <==> OcrBit(r3, 30))
  {
    CapacityAsWrittenReadsBit25(r3);
    match build
    case AsWritten => CapacityAsWritten(r3)
    case Corrected => CardCapacity(r3)
  }

  // -------------------------------------------------------- v1 and v2 flows

  /** The CMD55 + ACMD41 pair, returning the R1 of ACMD41 and the OR of both
      statuses. */
  function OpCondRound(b: Bus): (r: Got<byte>)
    ensures r.status < 4
    ensures |r.bus.ticks| <= |b.ticks|
    ensures !r.bus.selected
    ensures Sent(r.bus.trace) == Sent(b.trace) + AppCmd().Bytes() + SendOpCond().Bytes()
  {
    var a := SendCmd(b, AppCmd(), [0x00]);
    var c := SendCmd(a.bus, SendOpCond(), [0x00]);
    ExchangeSends(b, a.bus, AppCmd().Bytes());
    ExchangeSends(a.bus, c.bus, SendOpCond().Bytes());
    HalOr(a.status, c.status);
    Got(a.status | c.status, c.value[0], c.bus)
  }

  /** How the ACMD41 loop ended: the card became ready (R1 clear), it
      refused the command (ILLEGAL_COMMAND, a test only the version 1 flow
      makes) or the 1000 ms budget ran out. */
  datatype LoopEnd = Ready | Refused | TimedOut

  datatype Rounds = Rounds(end: LoopEnd, status: Status, bus: Bus)

  /** The `while (true)` loops of `sd_card_v1_init_process` and
      `sd_card_v2_init_process`, the clock captured as `start`: CMD55 and
      ACMD41, then leave if the R1 is clear, if it carries ILLEGAL_COMMAND
      (when `refuseIllegal`), or if more than 1000 ms have passed. The
      statuses of every command are accumulated onto `acc`. */
  function OpCondLoop(b: Bus, start: Clock, acc: Status, refuseIllegal: bool): (r: Rounds)
    requires acc < 4
    ensures r.status < 4
    ensures !r.bus.selected
    ensures |r.bus.ticks| <= |b.ticks|
    ensures r.end.Refused? ==> refuseIllegal
    decreases |b.ticks|, 1
  {
    OpCondStep(OpCondRound(b), start, acc, refuseIllegal)
  }

  /** One pass of the loop body after the command pair. */
  function OpCondStep(round: Got<byte>, start: Clock, acc: Status, refuseIllegal: bool): (r: Rounds)
    requires acc < 4 && round.status < 4 && !round.bus.selected
    ensures r.status < 4
    ensures !r.bus.selected
    ensures |r.bus.ticks| <= |round.bus.ticks|
    ensures r.end.Refused? ==> refuseIllegal
    ensures round.value == R1Clear ==> r == Rounds(Ready, acc | round.status, round.bus)
    ensures round.value != R1Clear && refuseIllegal && Has(round.value, IllegalCommand) ==> r.end.Refused?
    decreases |round.bus.ticks|, 0
  {
    HalOr(acc, round.status);
    var acc' := acc | round.status;
    if round.value == R1Clear then Rounds(Ready, acc', round.bus)
    else if refuseIllegal && Has(round.value, IllegalCommand) then Rounds(Refused, acc', round.bus)
    else
      var (now, b1) := ReadTick(round.bus);
      if Expired(start, now, ReadyTimeout) then Rounds(TimedOut, acc', b1)
      else
        OpCondLoop(b1, start, acc', refuseIllegal)
  }

  // ------------------------------------------------------------- version 1

  /** `sd_card_v1_init_process`: CMD58 into a zeroed R3, then the voltage
      test (HAL_ERROR when it fails), then the ACMD41 loop. Only a ready card
      gets version 1 and standard capacity recorded. */
  function V1Init(b: Bus, card: CardStatus): (r: Outcome)
    ensures !r.bus.selected
    ensures r.status < 4 || r.status == Code(UnusableCard)
    ensures r.card == card.(version := 1, capacity := Standard) || (r.card == card && r.status != 0)
    ensures Settled(card, r.card, r.status)
  {
    V1AfterOcr(SendCmd(b, ReadOcr(), Repeat(0x00, R3Size)), card)
  }

  /** The version 1 flow once the OCR has been read. */
  function V1AfterOcr(ocr: Got<seq<byte>>, card: CardStatus): (r: Outcome)
    requires |ocr.value| == R3Size && ocr.status < 4 && !ocr.bus.selected
    ensures !r.bus.selected
    ensures r.status < 4 || r.status == Code(UnusableCard)
    ensures r.card == card.(version := 1, capacity := Standard) || (r.card == card && r.status != 0)
    ensures !VoltageAccepted(ocr.value) ==> r.status == Code(Error) && r.card == card && r.bus.trace == ocr.bus.trace
  {
    if !VoltageAccepted(ocr.value) then Outcome(Code(Error), card, ocr.bus)
    else
      var clock := ReadTick(ocr.bus);
      V1Finish(OpCondLoop(clock.1, clock.0, ocr.status, true), card)
  }

  /** The exits of the version 1 loop: a refusal gives SD_UNUSABLE_CARD and
      a timeout SD_TIMEOUT, each discarding the accumulated status. */
  function V1Finish(l: Rounds, card: CardStatus): (r: Outcome)
    requires l.status < 4 && !l.bus.selected
    ensures r.bus == l.bus
    ensures r.status < 4 || r.status == Code(UnusableCard)
    ensures r.status == 0 <==> l.end.Ready? && l.status == 0
    ensures l.end.Ready? ==> r.card == card.(version := 1, capacity := Standard)
    ensures !l.end.Ready? ==> r.card == card
    ensures l.end.Refused? ==> r.status == Code(UnusableCard)
    ensures l.end.TimedOut? ==> r.status == Code(Timeout)
  {
    match l.end
    case Ready => Outcome(l.status, card.(version := 1, capacity := Standard), l.bus)
    case Refused => Outcome(Code(UnusableCard), card, l.bus)
    case TimedOut => Outcome(Code(Timeout), card, l.bus)
  }

  // ------------------------------------------------------------- version 2

  /** `sd_card_v2_init_process`: CMD58 into a zeroed R3, the voltage test
      (SD_UNUSABLE_CARD when it fails), the ACMD41 loop without the
      ILLEGAL_COMMAND exit, then CMD58 again into the same buffer and the
      capacity taken from it as the chosen build reads it. */
  function V2Init(build: Build, b: Bus, card: CardStatus): (r: Outcome)
    ensures !r.bus.selected
    ensures r.status < 4 || r.status == Code(UnusableCard)
    ensures (r.card == card && r.status != 0) || r.card == card.(version := 2, capacity := r.card.capacity)
    ensures Settled(card, r.card, r.status)
  {
    V2AfterOcr(build, SendCmd(b, ReadOcr(), Repeat(0x00, R3Size)), card)
  }

  /** The version 2 flow once the OCR has been read. */
  function V2AfterOcr(build: Build, ocr: Got<seq<byte>>, card: CardStatus): (r: Outcome)
    requires |ocr.value| == R3Size && ocr.status < 4 && !ocr.bus.selected
    ensures !r.bus.selected
    ensures r.status < 4 || r.status == Code(UnusableCard)
    ensures (r.card == card && r.status != 0) || r.card == card.(version := 2, capacity := r.card.capacity)
    ensures r.card == card || r.card.capacity != Undefined
    ensures !VoltageAccepted(ocr.value) ==> r.status == Code(UnusableCard) && r.card == card && r.bus.trace == ocr.bus.trace
    ensures VoltageAccepted(ocr.value) && r.card != card ==>
      var l := OpCondLoop(ReadTick(ocr.bus).1, ReadTick(ocr.bus).0, ocr.status, false);
      l.end.Ready? && r.card.capacity == CapacityOf(build, SendCmd(l.bus, ReadOcr(), ocr.value).value)
  {
    if !VoltageAccepted(ocr.value) then Outcome(Code(UnusableCard), card, ocr.bus)
    else
      var clock := ReadTick(ocr.bus);
      V2Finish(build, OpCondLoop(clock.1, clock.0, ocr.status, false), ocr.value, card)
  }

  /** After the version 2 loop: on a timeout SD_TIMEOUT alone; once ready,
      the OCR read again (the buffer still holding the first OCR) and the
      record set to version 2 with the capacity the chosen build reads. */
  function V2Finish(build: Build, l: Rounds, ocr: seq<byte>, card: CardStatus): (r: Outcome)
    requires l.status < 4 && !l.end.Refused? && |ocr| == R3Size && !l.bus.selected
    ensures !r.bus.selected
    ensures r.status < 4
    ensures l.end.TimedOut? ==> r.status == Code(Timeout) && r.card == card && r.bus.trace == l.bus.trace
    ensures l.end.Ready? ==> r.card == card.(version := 2, capacity := r.card.capacity)
    ensures l.end.Ready? ==> r.card.capacity == CapacityOf(build, SendCmd(l.bus, ReadOcr(), ocr).value)
    ensures l.end.Ready? ==> Exchange(l.bus, r.bus, ReadOcr().Bytes())
    ensures r.status == 0 ==> l.status == 0 && l.end.Ready?
  {
    if l.end.TimedOut? then Outcome(Code(Timeout), card, l.bus)
    else V2Ready(build, l.status, SendCmd(l.bus, ReadOcr(), ocr), card)
  }

  /** The record of a ready version 2 card, from the second OCR read. A
      card reporting OCR 0xC0FF8000 (ready, high capacity, 2.7-3.6 V) is
      recorded as standard capacity by the code as written. */
  function V2Ready(build: Build, acc: Status, again: Got<seq<byte>>, card: CardStatus): (r: Outcome)
    requires acc < 4 && again.status < 4 && |again.value| == R3Size
    ensures r.status < 4
    ensures r.status == 0 <==> acc == 0 && again.status == 0
    ensures r.card == card.(version := 2, capacity := CapacityOf(build, again.value))
    ensures again.value == [0x00, 0xC0, 0xFF, 0x80, 0x00] ==>
      r.card.capacity == if build == AsWritten then Standard else HighOrExtended
    ensures r.bus == again.bus
  {
    HalOr(acc, again.status);
    AccumulatedOkIff(acc, again.status);
    CapacityAsWrittenReadsBit25(again.value);
    Outcome(acc | again.status, card.(capacity := CapacityOf(build, again.value), version := 2), again.bus)
  }

  // ------------------------------------------------------------------ reset

  /** Which flow the R7 answer to CMD8 selects. */
  datatype Generation = Version1 | Unusable | Version2

  /** ILLEGAL_COMMAND in the R1 part means a version 1 card; otherwise the
      echoed check pattern and the accepted-voltage field must read 0x55
      and 1. */
  function Cmd8Branch(r7: seq<byte>): (g: Generation)
    requires |r7| == R7Size
    ensures g == Version1 <==> Has(r7[0], IllegalCommand)
    ensures g == Version2 <==> !Has(r7[0], IllegalCommand) && R7Echo(r7) == CheckPattern && R7Voltage(r7) == 1
  {
    if Has(r7[0], IllegalCommand) then Version1
    else if !(R7Echo(r7) == CheckPattern && R7Voltage(r7) == 1) then Unusable
    else Version2
  }

  /** Read against the fields of R7: a card that knows CMD8 goes the version
      2 way exactly when it echoes the pattern and accepts 2.7-3.6 V, and
      one that does not know it goes the version 1 way whatever else it
      sends. */
  lemma Cmd8BranchOnFields(r1: byte, version: byte, voltage: byte, echo: byte, reserved: seq<byte>)
    requires version < 0x10 && voltage < 0x10 && |reserved| == 3
    ensures Has(r1, IllegalCommand) ==> Cmd8Branch(R7Layout(r1, version, voltage, echo, reserved)) == Version1
    ensures !Has(r1, IllegalCommand) ==>
      (Cmd8Branch(R7Layout(r1, version, voltage, echo, reserved)) == Version2 <==> echo == 0x55 && voltage == 1)
  {
    R7FieldsRoundTrip(r1, version, voltage, echo, reserved);
  }

  /** The driver's static state: the SPI-mode latch of
      `sd_card_enter_spi_mode` and the record `sd_card_status`. */
  datatype Driver = Driver(spiMode: bool, card: CardStatus)

  datatype ResetEnd = ResetEnd(status: Status, driver: Driver, bus: Bus)

  /** `end_of_initialization`: the record notes whether the status is
      non-zero. */
  function Conclude(status: Status, d: Driver, bus: Bus): (r: ResetEnd)
    ensures r.status == status && r.bus == bus && r.driver.spiMode == d.spiMode
    ensures r.driver.card == d.card.(errorInInitialization := status != 0)
  {
    ResetEnd(status, d.(card := d.card.(errorInInitialization := status != 0)), bus)
  }

  /** Two records agree on everything but the error flag. */
  predicate Unchanged(c1: CardStatus, c2: CardStatus)
  {
    c1.version == c2.version && c1.capacity == c2.capacity
  }

  /** `sd_card_reset` in the chosen build: enter SPI mode, send CMD8, switch
      CMD59 as requested, then run the flow the R7 answer selects, ORing
      every status. A failure to enter SPI mode is returned as it is, with
      nothing further sent; only the code as written can leave the card
      selected, on the CMD0 timeout. */
  function Reset(build: Build, b: Bus, crcEnable: bool, d: Driver): (r: ResetEnd)
    ensures r.driver.card.errorInInitialization <==> r.status != 0
    ensures d.spiMode ==> r.driver.spiMode
    ensures r.status == 0 ==> r.driver.spiMode
    ensures r.status == 0 ==> r.driver.card.version in {1, 2} && r.driver.card.capacity != Undefined
    ensures r.driver.card.version in {1, 2} || Unchanged(d.card, r.driver.card)
    ensures var e := EnterSpiModeOf(build, b, d.spiMode);
      e.status != 0 ==> r.status == e.status && r.bus == e.bus && Unchanged(d.card, r.driver.card)
    ensures !d.spiMode && r.bus.selected ==> build == AsWritten && r.status == Code(Timeout)
  {
    var e := EnterSpiModeOf(build, b, d.spiMode);
    if e.status != 0 then Conclude(e.status, d.(spiMode := e.latched), e.bus)
    else ResetAfterEnter(build, SendCmd(e.bus, SendIfCond(), Repeat(0x00, R7Size)), crcEnable, d.(spiMode := true))
  }

  /** What every exit of `sd_card_reset` after SPI mode was entered leaves:
      the error flag in step with the status, the latch set, the card
      released, and either a version with a capacity or, with a failing
      status, the record's version and capacity as they were. */
  predicate Concluded(d: Driver, r: ResetEnd)
  {
    && (r.driver.card.errorInInitialization <==> r.status != 0)
    && r.driver.spiMode && !r.bus.selected
    && (r.status == 0 ==> r.driver.card.version in {1, 2} && r.driver.card.capacity != Undefined)
    && (r.driver.card.version in {1, 2} || Unchanged(d.card, r.driver.card))
  }

  /** `sd_card_reset` after SPI mode was entered: a failed CMD8 exchange
      ends it; otherwise CMD59 and the branch on the R7 answer. */
  function ResetAfterEnter(build: Build, c8: Got<seq<byte>>, crcEnable: bool, d: Driver): (r: ResetEnd)
    requires |c8.value| == R7Size && c8.status < 4 && !c8.bus.selected && d.spiMode
    ensures Concluded(d, r)
    ensures c8.status != 0 ==> r.status == c8.status && r.bus.trace == c8.bus.trace && Unchanged(d.card, r.driver.card)
    ensures c8.status == 0 && Cmd8Branch(c8.value).Version1? ==> r.driver.card.version == 1 || r.status != 0
    ensures c8.status == 0 && Cmd8Branch(c8.value).Version2? ==> r.driver.card.version == 2 || r.status != 0
    ensures c8.status == 0 && Cmd8Branch(c8.value).Unusable? ==> r.status != 0 && Unchanged(d.card, r.driver.card)
  {
    if c8.status != 0 then Conclude(c8.status, d, c8.bus)
    else ResetAfterCmd8(build, Cmd8Branch(c8.value), CrcOnOff(c8.bus, crcEnable), d)
  }

  /** `sd_card_reset` after CMD59: the branch `g` the R7 answer selected.
      Nothing accumulated so far is lost on any branch. */
  function ResetAfterCmd8(build: Build, g: Generation, crc: Done, d: Driver): (r: ResetEnd)
    requires !crc.bus.selected && d.spiMode
    ensures Concluded(d, r)
    ensures r.status & crc.status == crc.status
    ensures g == Version1 ==>
      || (r.driver.card.version == 1 && r.driver.card.capacity == Standard)
      || (Unchanged(d.card, r.driver.card) && r.status != 0)
    ensures g == Version2 ==>
      || (r.driver.card.version == 2 && r.driver.card.capacity != Undefined)
      || (Unchanged(d.card, r.driver.card) && r.status != 0)
    ensures g == Unusable ==> r.status == crc.status | Code(UnusableCard) && Unchanged(d.card, r.driver.card)
    ensures g == Unusable ==> r.bus.trace == crc.bus.trace
  {
    match g
    case Version1 => ConcludeVersion1(crc, d)
    case Unusable => ConcludeUnusable(crc, d)
    case Version2 => ConcludeVersion2(build, crc, d)
  }

  /** The version 1 branch: the record ends with version 1 and standard
      capacity, or as it was with a failing status. */
  function ConcludeVersion1(crc: Done, d: Driver): (r: ResetEnd)
    requires !crc.bus.selected && d.spiMode
    ensures Concluded(d, r)
    ensures r.status & crc.status == crc.status
    ensures || (r.driver.card.version == 1 && r.driver.card.capacity == Standard)
            || (Unchanged(d.card, r.driver.card) && r.status != 0)
  {
    ConcludeFlow(crc.status, V1Init(crc.bus, d.card), d)
  }

  /** The version 2 branch: the record ends with version 2 and a capacity,
      or as it was with a failing status. */
  function ConcludeVersion2(build: Build, crc: Done, d: Driver): (r: ResetEnd)
    requires !crc.bus.selected && d.spiMode
    ensures Concluded(d, r)
    ensures r.status & crc.status == crc.status
    ensures || (r.driver.card.version == 2 && r.driver.card.capacity != Undefined)
            || (Unchanged(d.card, r.driver.card) && r.status != 0)
  {
    ConcludeFlow(crc.status, V2Init(build, crc.bus, d.card), d)
  }

  /** The end of `sd_card_reset` for a card whose R7 does not echo the
      pattern or does not accept the voltage: SD_UNUSABLE_CARD ORed onto the
      status, nothing more sent, the record kept. */
  function ConcludeUnusable(crc: Done, d: Driver): (r: ResetEnd)
    requires !crc.bus.selected && d.spiMode
    ensures Concluded(d, r)
    ensures Unchanged(d.card, r.driver.card)
    ensures r.status == crc.status | Code(UnusableCard) && r.status & crc.status == crc.status
    ensures r.bus == crc.bus
  {
    AccumulatedOkIff(crc.status, Code(UnusableCard));
    AccumulationKeepsBits(crc.status, Code(UnusableCard));
    Conclude(crc.status | Code(UnusableCard), d, crc.bus)
  }

  /** How a version flow leaves the record: untouched with a failing
      status, or with a version and a capacity. */
  predicate Settled(card: CardStatus, next: CardStatus, status: Status)
  {
    || (Unchanged(card, next) && status != 0)
    || (next.version in {1, 2} && next.capacity != Undefined)
  }

  /** The end of `sd_card_reset` after a version flow: its status ORed onto
      the one accumulated so far, its record kept. */
  function ConcludeFlow(acc: Status, v: Outcome, d: Driver): (r: ResetEnd)
    requires Settled(d.card, v.card, v.status) && !v.bus.selected && d.spiMode
    ensures Concluded(d, r)
    ensures Unchanged(v.card, r.driver.card)
    ensures r.status & acc == acc
    ensures v.status != 0 ==> r.status != 0
  {
    AccumulatedOkIff(acc, v.status);
    AccumulationKeepsBits(acc, v.status);
    Conclude(acc | v.status, d.(card := v.card), v.bus)
  }

  /** A card that never answers CMD0 makes the reset fail with SD_TIMEOUT
      and nothing after CMD0 sent; the code as written returns with the card
      still selected, the corrected code releases it. */
  lemma ResetTimeoutLeavesSelected(b: Bus, crcEnable: bool, d: Driver)
    requires !d.spiMode && b.hal == []
    requires forall i | 0 <= i < |b.rx| :: b.rx[i] == 0xFF
    ensures Reset(AsWritten, b, crcEnable, d).status == Code(Timeout)
    ensures Reset(AsWritten, b, crcEnable, d).bus.selected
    ensures Reset(Corrected, b, crcEnable, d).status == Code(Timeout)
    ensures !Reset(Corrected, b, crcEnable, d).bus.selected
  {
    EnterSpiModeTimeoutLeavesSelected(b);
    assert EnterSpiModeOf(AsWritten, b, false) == EnterSpiModeAsWritten(b, false);
    assert EnterSpiModeOf(Corrected, b, false) == EnterSpiMode(b, false);
  }
}

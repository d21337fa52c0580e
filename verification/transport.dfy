/** The bus the driver talks to, as a script. The HAL primitives the driver
    calls (`HAL_SPI_Transmit`, `HAL_SPI_TransmitReceive`, `HAL_GetTick`,
    `HAL_GPIO_WritePin` on the chip-select pin) are replaced by:
    - `rx`: the bytes the card shifts out, consumed one per successful
      exchange; once the script is exhausted the line reads 0xFF (the card
      no longer drives it);
    - `hal`: the return codes of successive SPI HAL calls; once exhausted
      every call returns HAL_OK;
    - `ticks`: successive readings of the millisecond clock; once exhausted
      the clock reads as past every budget, which is what bounds each
      polling loop;
    - `trace`: what the driver did, in order;
    - `selected`: the chip-select line (asserted = low). */
module Transport {
  import opened Codes

  datatype Event =
    | Select        // chip select driven low
    | Deselect      // chip select driven high
    | Tx(b: byte)   // a byte the driver transmits
    | Rx            // an exchange that clocks one byte in (0xFF goes out)

  /** A `HAL_StatusTypeDef`: HAL_OK, HAL_ERROR, HAL_BUSY or HAL_TIMEOUT. */
  type HalStatus = s: Status | s < 4

  datatype Bus = Bus(
    rx: seq<byte>,
    hal: seq<HalStatus>,
    ticks: seq<Tick>,
    trace: seq<Event>,
    selected: bool)

  /** A reading of the 32-bit millisecond counter. */
  type Tick = x: int | 0 <= x < 0x1_0000_0000

  /** What `HAL_GetTick` gave: a reading, or nothing once the clock script
      is exhausted. */
  datatype Clock = Exhausted | Reading(ms: Tick)

  /** Result of a step that only reports a status. */
  datatype Done = Done(status: Status, bus: Bus)

  /** Result of a step that also produces a value. */
  datatype Got<T> = Got(status: Status, value: T, bus: Bus)

  /** `s` without its first `n` elements (empty when `n` exceeds it). */
  function Skip<T>(s: seq<T>, n: nat): (r: seq<T>)
    ensures |r| == if n <= |s| then |s| - n else 0
  {
    if n <= |s| then s[n..] else []
  }

  /** The byte the card presents next. */
  function Line(rx: seq<byte>): byte
  {
    if |rx| == 0 then 0xFF else rx[0]
  }

  /** The next `n` bytes the card presents. */
  function Peek(rx: seq<byte>, n: nat): (r: seq<byte>)
    ensures |r| == n
    ensures forall i | 0 <= i < n :: r[i] == Line(Skip(rx, i))
  {
    seq(n, i requires 0 <= i < n => if i < |rx| then rx[i] else 0xFF)
  }

  /** Whether the next `n` HAL calls all return HAL_OK. */
  predicate Quiet(hal: seq<HalStatus>, n: nat)
  {
    forall i | 0 <= i < n && i < |hal| :: hal[i] == 0
  }

  function Txs(data: seq<byte>): (t: seq<Event>)
    ensures |t| == |data|
    ensures forall i | 0 <= i < |data| :: t[i] == Tx(data[i])
  {
    seq(|data|, i requires 0 <= i < |data| => Tx(data[i]))
  }

  function Rxs(n: nat): (t: seq<Event>)
    ensures |t| == n
    ensures forall i | 0 <= i < n :: t[i] == Rx
  {
    seq(n, i => Rx)
  }

  /** The bytes the driver put on the bus, in order; the 0xFF fillers of
      receptions are not counted. */
  function Sent(t: seq<Event>): seq<byte>
    decreases |t|
  {
    if |t| == 0 then []
    else if t[|t| - 1].Tx? then Sent(t[..|t| - 1]) + [t[|t| - 1].b]
    else Sent(t[..|t| - 1])
  }

  lemma {:induction false} SentAppend(a: seq<Event>, b: seq<Event>)
    ensures Sent(a + b) == Sent(a) + Sent(b)
    decreases |b|
  {
    if |b| == 0 {
      assert a + b == a;
    } else {
      assert (a + b)[..|a + b| - 1] == a + b[..|b| - 1];
      SentAppend(a, b[..|b| - 1]);
    }
  }

  lemma {:induction false} SentTxs(data: seq<byte>)
    ensures Sent(Txs(data)) == data
    decreases |data|
  {
    if |data| > 0 {
      assert Txs(data)[..|data| - 1] == Txs(data[..|data| - 1]);
      SentTxs(data[..|data| - 1]);
    }
  }

  lemma {:induction false} SentRxs(n: nat)
    ensures Sent(Rxs(n)) == []
    decreases n
  {
    if n > 0 {
      assert Rxs(n)[..n - 1] == Rxs(n - 1);
      SentRxs(n - 1);
    }
  }

  /** Transmissions and receptions after `p` put exactly the transmitted
      bytes on the bus. */
  lemma SentTxRx(p: seq<Event>, data: seq<byte>, n: nat)
    ensures Sent(p + Txs(data) + Rxs(n)) == Sent(p) + data
  {
    SentAppend(p + Txs(data), Rxs(n));
    SentAppend(p, Txs(data));
    SentTxs(data);
    SentRxs(n);
  }

  /** Chip-select changes put nothing on the bus. */
  lemma SentChipSelect(p: seq<Event>)
    ensures Sent(p + [Select]) == Sent(p) && Sent(p + [Deselect]) == Sent(p)
  {
    assert (p + [Select])[..|p|] == p;
    assert (p + [Deselect])[..|p|] == p;
  }

  /** The pieces of `a + x + y` are where their lengths put them. */
  lemma Pieces<T>(a: seq<T>, x: seq<T>, y: seq<T>)
    ensures (a + x + y)[|a|..|a| + |x|] == x
    ensures (a + x + y)[|a| + |x|..] == y
  {
  }

  lemma SeqAssoc<T>(a: seq<T>, b: seq<T>, c: seq<T>)
    ensures a + b + c == a + (b + c)
  {
  }

  lemma TxsAppend(p: seq<Event>, a: seq<byte>, c: seq<byte>)
    ensures p + Txs(a) + Txs(c) == p + Txs(a + c)
  {
    assert Txs(a) + Txs(c) == Txs(a + c);
  }

  lemma SkipSkip<T>(s: seq<T>, m: nat, n: nat)
    ensures Skip(Skip(s, m), n) == Skip(s, m + n)
  {
  }

  lemma QuietSplit(hal: seq<HalStatus>, n: nat)
    requires n > 0
    ensures Quiet(hal, n) <==> Quiet(hal, 1) && Quiet(Skip(hal, 1), n - 1)
  {
    if Quiet(hal, 1) && Quiet(Skip(hal, 1), n - 1) {
      forall i | 0 <= i < n && i < |hal| ensures hal[i] == 0 {
        if i > 0 {
          assert hal[i] == Skip(hal, 1)[i - 1];
        }
      }
    }
  }

  lemma QuietConcat(hal: seq<HalStatus>, m: nat, n: nat)
    ensures Quiet(hal, m + n) <==> Quiet(hal, m) && Quiet(Skip(hal, m), n)
  {
    if Quiet(hal, m) && Quiet(Skip(hal, m), n) {
      forall i | 0 <= i < m + n && i < |hal| ensures hal[i] == 0 {
        if i >= m {
          assert hal[i] == Skip(hal, m)[i - m];
        }
      }
    }
  }

  lemma PeekSplit(rx: seq<byte>, n: nat)
    requires n > 0
    ensures Peek(rx, n) == [Line(rx)] + Peek(Skip(rx, 1), n - 1)
  {
    var p := [Line(rx)] + Peek(Skip(rx, 1), n - 1);
    forall i | 0 <= i < n ensures Peek(rx, n)[i] == p[i] {
      if i > 0 {
        SkipSkip(rx, 1, i - 1);
      }
    }
  }

  /** Reading `|a|` bytes off a card that presents `a` then `c` gives `a`
      and leaves `c`. */
  lemma PeekPrefix(a: seq<byte>, c: seq<byte>)
    ensures Peek(a + c, |a|) == a
    ensures Skip(a + c, |a|) == c
  {
    assert (a + c)[|a|..] == c;
  }

  /** With no HAL failure, receiving `|a|` bytes from a card presenting `a`
      then `c` stores `a` and leaves `c`. */
  lemma ReceiveBytesWhole(b: Bus, prior: seq<byte>, a: seq<byte>, c: seq<byte>)
    requires b.hal == [] && b.rx == a + c && |a| == |prior|
    ensures ReceiveBytes(b, prior) == Got(0, a, b.(rx := c, trace := b.trace + Rxs(|a|)))
  {
    PeekPrefix(a, c);
    var r := ReceiveBytes(b, prior);
    assert Quiet(b.hal, |prior|);
    assert r.bus.hal == [];
  }

  lemma AppendRx(p: seq<Event>, m: nat)
    ensures p + [Rx] + Rxs(m) == p + Rxs(m + 1)
  {
    assert [Rx] + Rxs(m) == Rxs(m + 1);
  }

  lemma RxsSum(p: seq<Event>, m: nat, n: nat)
    ensures p + Rxs(m) + Rxs(n) == p + Rxs(m + n)
  {
    assert Rxs(m) + Rxs(n) == Rxs(m + n);
  }

  lemma RxsSum3(p: seq<Event>, l: nat, m: nat, n: nat)
    ensures p + Rxs(l) + Rxs(m) + Rxs(n) == p + Rxs(l + m + n)
  {
    assert Rxs(l) + Rxs(m) + Rxs(n) == Rxs(l + m + n);
  }

  /** OR of two HAL statuses is a HAL status, and HAL_OK only when both are. */
  lemma HalOr(a: Status, b: Status)
    requires a < 4 && b < 4
    ensures a | b < 4
    ensures a | b == 0 <==> a == 0 && b == 0
  {
  }

  // ------------------------------------------------------------ primitives

  /** SELECT_SD / DISELECT_SD. */
  function Drive(b: Bus, select: bool): (r: Bus)
    ensures r.selected == select
    ensures r.trace == b.trace + [if select then Select else Deselect]
    ensures r.rx == b.rx && r.hal == b.hal && r.ticks == b.ticks
  {
    b.(selected := select, trace := b.trace + [if select then Select else Deselect])
  }

  /** The return code of the next HAL call, and the script after it. */
  function HalCall(hal: seq<HalStatus>): (r: (HalStatus, seq<HalStatus>))
    ensures r.1 == Skip(hal, 1)
    ensures r.0 == 0 <==> Quiet(hal, 1)
  {
    if |hal| == 0 then (0, []) else (hal[0], hal[1..])
  }

  /** One `HAL_SPI_Transmit` call handing `data` to the bus. */
  function Transmit(b: Bus, data: seq<byte>): (r: Done)
    ensures r.status < 4
    ensures r.status == 0 <==> Quiet(b.hal, 1)
    ensures r.bus.hal == Skip(b.hal, 1)
    ensures r.bus.trace == b.trace + Txs(data)
    ensures r.bus.rx == b.rx && r.bus.ticks == b.ticks && r.bus.selected == b.selected
  {
    var (st, hal) := HalCall(b.hal);
    Done(st, b.(hal := hal, trace := b.trace + Txs(data)))
  }

  /** `sd_card_receive_byte`: one `HAL_SPI_TransmitReceive` that sends 0xFF
      and clocks in a byte. A failed call leaves the destination holding
      `prior` and consumes nothing of the card's script. */
  function Receive(b: Bus, prior: byte): (r: Got<byte>)
    ensures r.status < 4
    ensures r.status == 0 <==> Quiet(b.hal, 1)
    ensures r.status == 0 ==> r.value == Line(b.rx) && r.bus.rx == Skip(b.rx, 1)
    ensures r.status != 0 ==> r.value == prior && r.bus.rx == b.rx
    ensures r.bus.hal == Skip(b.hal, 1)
    ensures r.bus.trace == b.trace + [Rx]
    ensures r.bus.ticks == b.ticks && r.bus.selected == b.selected
  {
    var (st, hal) := HalCall(b.hal);
    if st == 0 then
      Got(0, Line(b.rx), b.(rx := Skip(b.rx, 1), hal := hal, trace := b.trace + [Rx]))
    else
      Got(st, prior, b.(hal := hal, trace := b.trace + [Rx]))
  }

  /** `sd_card_receive_bytes`: one `sd_card_receive_byte` per destination
      byte, statuses OR-ed. Each destination byte keeps its prior value when
      its own call fails. */
  function ReceiveBytes(b: Bus, prior: seq<byte>): (r: Got<seq<byte>>)
    ensures |r.value| == |prior|
    ensures r.status < 4
    ensures r.status == 0 <==> Quiet(b.hal, |prior|)
    ensures r.status == 0 ==> r.value == Peek(b.rx, |prior|) && r.bus.rx == Skip(b.rx, |prior|)
    ensures r.bus.hal == Skip(b.hal, |prior|)
    ensures r.bus.trace == b.trace + Rxs(|prior|)
    ensures r.bus.ticks == b.ticks && r.bus.selected == b.selected
    decreases |prior|
  {
    if |prior| == 0 then Got(0, [], b)
    else
      var first := Receive(b, prior[0]);
      var rest := ReceiveBytes(first.bus, prior[1..]);
      ReceiveBytesStep(b, prior[0], first, rest);
      Got(first.status | rest.status, [first.value] + rest.value, rest.bus)
  }

  /** What `ReceiveBytes` promises about `n` bytes received from `b`. */
  predicate ReceivedBytes(b: Bus, n: nat, r: Got<seq<byte>>)
  {
    && |r.value| == n
    && r.status < 4
    && (r.status == 0 <==> Quiet(b.hal, n))
    && (r.status == 0 ==> r.value == Peek(b.rx, n) && r.bus.rx == Skip(b.rx, n))
    && r.bus.hal == Skip(b.hal, n)
    && r.bus.trace == b.trace + Rxs(n)
    && r.bus.ticks == b.ticks && r.bus.selected == b.selected
  }

  /** One byte received, then `|rest.value|` more: together they are
      received as one run. */
  lemma ReceiveBytesStep(b: Bus, prior: byte, first: Got<byte>, rest: Got<seq<byte>>)
    requires first == Receive(b, prior)
    requires ReceivedBytes(first.bus, |rest.value|, rest)
    ensures ReceivedBytes(b, |rest.value| + 1, Got(first.status | rest.status, [first.value] + rest.value, rest.bus))
  {
    var n := |rest.value| + 1;
    QuietSplit(b.hal, n);
    SkipSkip(b.hal, 1, n - 1);
    SkipSkip(b.rx, 1, n - 1);
    HalOr(first.status, rest.status);
    PeekSplit(b.rx, n);
    assert [Rx] + Rxs(n - 1) == Rxs(n);
  }

  /** `sd_card_transmit_bytes`: one `HAL_SPI_Transmit` per byte, statuses
      OR-ed. */
  function TransmitBytes(b: Bus, data: seq<byte>): (r: Done)
    ensures r.status < 4
    ensures r.status == 0 <==> Quiet(b.hal, |data|)
    ensures r.bus.hal == Skip(b.hal, |data|)
    ensures r.bus.trace == b.trace + Txs(data)
    ensures r.bus.rx == b.rx && r.bus.ticks == b.ticks && r.bus.selected == b.selected
    decreases |data|
  {
    if |data| == 0 then Done(0, b)
    else
      var first := Transmit(b, [data[0]]);
      var rest := TransmitBytes(first.bus, data[1..]);
      QuietSplit(b.hal, |data|);
      SkipSkip(b.hal, 1, |data| - 1);
      HalOr(first.status, rest.status);
      assert Txs([data[0]]) + Txs(data[1..]) == Txs(data);
      Done(first.status | rest.status, rest.bus)
  }

  /** `HAL_GetTick`: the next clock reading. */
  function ReadTick(b: Bus): (r: (Clock, Bus))
    ensures r.0.Reading? <==> |b.ticks| > 0
    ensures r.0.Reading? ==> r.0.ms == b.ticks[0]
    ensures r.1 == b.(ticks := Skip(b.ticks, 1))
  {
    if |b.ticks| == 0 then (Exhausted, b) else (Reading(b.ticks[0]), b.(ticks := b.ticks[1..]))
  }

  /** `now - start` in the source's unsigned 32-bit arithmetic, which wraps
      around when the counter overflows between the two readings. */
  function Elapsed(start: Tick, now: Tick): (d: Tick)
    ensures start <= now ==> d == now - start
    ensures now < start ==> d == now - start + 0x1_0000_0000
  {
    (now - start) % 0x1_0000_0000
  }

  /** `now - start > budget`; an exhausted clock is past every budget. */
  predicate Expired(start: Clock, now: Clock, budget: nat)
  {
    start.Exhausted? || now.Exhausted? || Elapsed(start.ms, now.ms) > budget
  }

  /** A clock that reads `t` at every remaining reading. */
  predicate ClockAt(ticks: seq<Tick>, t: Tick)
  {
    forall i | 0 <= i < |ticks| :: ticks[i] == t
  }

  /** A bus on which no HAL call fails and the clock stands at `t`. */
  predicate Clean(b: Bus, t: Tick)
  {
    b.hal == [] && ClockAt(b.ticks, t)
  }

  /** `k` copies of `x`: a card holding the line at one level. */
  function Repeat(x: byte, k: nat): (s: seq<byte>)
    ensures |s| == k
    ensures forall i | 0 <= i < k :: s[i] == x
  {
    seq(k, i => x)
  }

  /** A card that answers at once sends no idle bytes first. */
  lemma AtOnce(idle: byte, x: byte, rest: seq<byte>)
    ensures Repeat(idle, 0) + [x] + rest == [x] + rest
  {
    assert Repeat(idle, 0) == [];
  }

  /** `b2` follows `b1` by exchanges that only clock bytes in: chip select
      is untouched, nothing is transmitted and the clock was only read. */
  predicate OnlyReceives(b1: Bus, b2: Bus)
  {
    && b2.selected == b1.selected
    && |b2.ticks| <= |b1.ticks|
    && |b1.trace| <= |b2.trace|
    && b2.trace == b1.trace + Rxs(|b2.trace| - |b1.trace|)
  }

  lemma OnlyReceivesTransitive(b1: Bus, b2: Bus, b3: Bus)
    requires OnlyReceives(b1, b2) && OnlyReceives(b2, b3)
    ensures OnlyReceives(b1, b3)
  {
    assert Rxs(|b2.trace| - |b1.trace|) + Rxs(|b3.trace| - |b2.trace|) == Rxs(|b3.trace| - |b1.trace|);
  }
}

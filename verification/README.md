# SD card SPI-mode protocol engine

A Dafny model of the protocol core of the STM32 SD card driver
`External/SDCard_Driver`. It covers:

- command framing: six-byte frames with a CRC7 trailer;
- waiting for the card to leave an idle line level;
- reading R1, R3 and R7 responses;
- the initialisation state machine (`sd_card_reset`): power-on clocks, CMD0
  behind a latch, CMD8, CMD59, the OCR voltage test, the CMD55/ACMD41 loop and
  the capacity read;
- data blocks with their start tokens and CRC16;
- single and multiple block reads and writes;
- block length negotiation with the CSD probe;
- erasing.

The HAL is not called. The bus is a value of type `Transport.Bus`, a script
that holds:

- the bytes the card will shift out (`rx`);
- the return codes of successive SPI HAL calls (`hal`);
- the successive readings of the millisecond clock (`ticks`);
- the trace of what the driver did: chip-select changes, transmitted bytes
  and receptions (`trace`);
- the chip-select line (`selected`).

An exhausted `rx` reads 0xFF, an exhausted `hal` returns HAL_OK, and an
exhausted clock reads as past every budget. The last rule is what makes every
polling loop terminate. Each driver function is a pure function from a bus
(and its arguments) to a status, a value and the bus after it.

Statuses are kept as the bit patterns the C code ORs together (`bv8`), since
the driver accumulates `sd_error` and `HAL_StatusTypeDef` values with `|`.
The static latch `sd_card_is_spi_mode` and the global record `sd_card_status`
are threaded through `Init.Reset` as an explicit `Init.Driver` value.

Two places where the code differs from a plain reading of the protocol are
modelled as the code has them:

- CMD8 goes out with argument 0x155 (`(1 << 8) | 0x55`, at
  `sd_driver_init.c:173`), not the 0x1AA of the standard's example. 0x1AA
  appears in the model only as the CRC7 check vector in `Frame.KnownFrames`
  and `Crc.Crc7TestVectors`.
- The partial-block test (`IS_PARTIAL_BLOCK_ALLOWED`) reads `csd[6] & 0x80`,
  which is bit 7 of byte 6, i.e. CSD bit 79 (READ_BL_PARTIAL).
  `Frame.PartialBlockIsCsdBit79` states what the mask reads.

Six defects of the source are listed under "## Findings". Each defective step
is modelled twice, as written and corrected. The flows built on those steps
(`Init.Reset` and its stages, `Secondary.SetBlockLen`, `Write.WriteData`,
`Write.WriteMultiple`) take a `Codes.Build` parameter, `AsWritten` or
`Corrected`, which selects the version of each step they run. Their contracts
hold for both versions. Where the versions differ, a contract names the
selected step (`Init.EnterSpiModeOf`, `Init.CapacityOf`, `Secondary.ProbeOf`,
`Write.CrcBytesOf`), and a lemma shows the two builds apart on the finding's
input (`Init.ResetTimeoutLeavesSelected`, `Init.V2Ready`,
`Secondary.SetBlockLenAsWrittenRefuses`, `Write.SwappedCrcExample`).

## Model

| member | source | states |
|---|---|---|
| Codes.Code | External/SDCard_Driver/Inc/sd_driver_secondary.h:48-58 | every `sd_error` value is below 8, and only SD_OK is 0 |
| Codes.CodeRoundTrip | External/SDCard_Driver/Inc/sd_driver_secondary.h:48-58 | the enumerators are exactly the values 0..7; reading a value back as an enumerator inverts `Code` |
| Codes.AccumulatedOkIff | External/SDCard_Driver/Src/sd_driver_secondary.c:29-34 | an OR-accumulated status is SD_OK exactly when every part was SD_OK |
| Codes.AccumulationKeepsBits | External/SDCard_Driver/Src/sd_driver_secondary.c:31-32 | accumulating never loses a bit already recorded |
| Codes.AccumulatedStaysCode | External/SDCard_Driver/Src/sd_driver_read.c:60-65 | the OR of two codes below 8 is below 8 |
| Codes.AccumulatedCodesAlias | External/SDCard_Driver/Inc/sd_driver_secondary.h:48-58 | the codes are not flags: SD_TIMEOUT with SD_UNUSABLE_CARD reads as SD_TRANSMISSION_ERROR, SD_ERROR with SD_BUSY as SD_TIMEOUT, SD_ERROR with SD_UNUSABLE_CARD as SD_CRC_ERROR |
| Codes.R1MasksAreDistinctBits | External/SDCard_Driver/Inc/sd_driver_secondary.h:74-84 | each R1 mask is one bit, no two flags share a bit, and bit 7 is never a flag |
| Crc.Crc7TestVectors | External/SDCard_Driver/Src/sd_driver_secondary.c:83-85 | the CRC7 trailer of CMD0 is 0x95 and that of CMD8 with 0x1AA is 0x87 |
| Crc.Crc16TestVectors | External/SDCard_Driver/Src/sd_driver_secondary.c:108-110 | CRC16 of "123456789" is 0x31C3 and of the byte 0x01 is 0x1021 |
| Crc.Crc16FromInjective | External/SDCard_Driver/Src/sd_driver_secondary.c:108-110 | two different starting registers never give the same CRC16 over the same bytes |
| Crc.Crc16FromAppend | External/SDCard_Driver/Src/sd_driver_secondary.c:108-110 | the CRC16 of a concatenation continues from the register after the prefix |
| Crc.Crc16DetectsSingleBitFlip | External/SDCard_Driver/Src/sd_driver_secondary.c:108-115 | inverting any single bit of a block changes its CRC16 |
| Crc.Crc16ImageInjective | External/SDCard_Driver/Src/sd_driver_write.c:17-19 | different CRC16 values have different two-byte images |
| Frame.ArgumentBytes | External/SDCard_Driver/Src/sd_driver_secondary.c:69-73 | the loop stores byte i of the argument at position 3 - i |
| Frame.ArgumentRoundTrip | External/SDCard_Driver/Src/sd_driver_secondary.c:69-73 | the argument travels most significant byte first: reading the four bytes big-endian gives it back, and every four bytes are some argument's encoding |
| Frame.CmdWithoutCrc | External/SDCard_Driver/Src/sd_driver_secondary.c:61-76 | the start byte is 0x40 OR the index, the argument reads back big-endian, the CRC byte is 0 |
| Frame.Cmd | External/SDCard_Driver/Src/sd_driver_secondary.c:78-88 | same start byte and argument, with the CRC7 trailer of the first five bytes as the sixth byte |
| Frame.StartByte | External/SDCard_Driver/Src/sd_driver_secondary.c:66 | for an index below 64 the start byte has top bits 01 and keeps the index in its low six bits |
| Frame.FrameDecodes | External/SDCard_Driver/Src/sd_driver_secondary.c:61-88 | every frame built for an index below 64 decodes, as a card reads it, to that index and argument |
| Frame.FrameEncodes | External/SDCard_Driver/Src/sd_driver_secondary.c:61-88 | conversely, every six bytes a card accepts are exactly the frame built for what they decode to |
| Frame.KnownFrames | External/SDCard_Driver/Src/sd_driver_secondary.c:78-88 | the frames of CMD0 and of CMD8 with 0x1AA are the standard's six-byte examples |
| Frame.R7FieldsRoundTrip | External/SDCard_Driver/Inc/sd_driver_secondary.h:29-33 | GET_VERSION_FROM_R7, GET_VOLTAGE_FROM_R7 and the echo byte read back the fields of an R7 laid out as the standard lays it out |
| Frame.VoltageAcceptedIsOcrWindows | External/SDCard_Driver/Src/sd_driver_init.c:94-96 | the byte masks of the voltage test mean: OCR bit 15 and one of OCR bits 16..20 |
| Frame.PartialBlockIsCsdBit79 | External/SDCard_Driver/Inc/sd_driver_secondary.h:43-44 | IS_PARTIAL_BLOCK_ALLOWED reads CSD bit 79, READ_BL_PARTIAL |
| Transport.Receive | External/SDCard_Driver/Src/sd_driver_secondary.c:11-21 | one exchange: on HAL_OK the byte on the line is stored and consumed; otherwise the destination keeps its old value |
| Transport.Drive | External/SDCard_Driver/Inc/sd_driver_secondary.h:23-27 | SELECT_SD and DISELECT_SD set the chip-select line and record the change; nothing else on the bus changes |
| Transport.Transmit | External/SDCard_Driver/Inc/sd_driver_secondary.h:37 | a transmit is one HAL call for the whole run of bytes: HAL_OK exactly when that call succeeds; the bytes are recorded in order; nothing is received and chip select is not touched |
| Transport.ReceiveBytes | External/SDCard_Driver/Src/sd_driver_secondary.c:23-35 | the status is HAL_OK exactly when every exchange was; then the bytes are the next ones on the line, in order; one reception per byte |
| Transport.ReceiveBytesWhole | External/SDCard_Driver/Src/sd_driver_secondary.c:23-35 | with no HAL failure, receiving as many bytes as `a` holds from a card presenting `a` then `c` gives `a` and leaves `c` |
| Transport.TransmitBytes | External/SDCard_Driver/Src/sd_driver_secondary.c:47-59 | one HAL call per byte: the bytes go out in order, and the status is HAL_OK exactly when every call was |
| Transport.HalOr | External/SDCard_Driver/Src/sd_driver_secondary.c:32 | the OR of two HAL statuses is a HAL status, and HAL_OK only when both are |
| Transport.Elapsed | External/SDCard_Driver/Src/sd_driver_secondary.c:133 | `now - start` in unsigned 32-bit arithmetic: the true difference, plus 2^32 when the counter wrapped |
| Secondary.Poll | External/SDCard_Driver/Src/sd_driver_secondary.c:131-137 | the loop ends with HAL_OK only on a byte other than the idle level; the idle level at the end means SD_TIMEOUT; it only clocks bytes in |
| Secondary.WaitResponse | External/SDCard_Driver/Src/sd_driver_secondary.c:122-140 | the same of the whole wait, which captures the clock first |
| Secondary.PollFinds | External/SDCard_Driver/Src/sd_driver_secondary.c:131-137 | on a clean bus with the clock standing, `k` idle bytes then `v` end the loop with `v` and HAL_OK after exactly k + 1 receptions |
| Secondary.WaitFindsAnswer | External/SDCard_Driver/Src/sd_driver_secondary.c:122-140 | the wait returns the first non-idle byte and consumes exactly the bytes up to it |
| Secondary.WaitTimesOutOnSilentCard | External/SDCard_Driver/Src/sd_driver_secondary.c:131-137 | a card that never leaves the idle level makes the wait end in HAL_TIMEOUT |
| Secondary.WaitChecksBudgetFirst | External/SDCard_Driver/Src/sd_driver_secondary.c:133-134 | the budget is checked before the first reception: an expired budget returns HAL_TIMEOUT with nothing received |
| Secondary.ReceiveCmdResponse | External/SDCard_Driver/Src/sd_driver_secondary.c:142-171 | the response keeps its size, a successful R1 is never 0xFF, and only receptions happen |
| Secondary.ResponseStopsAfterFailedWait | External/SDCard_Driver/Src/sd_driver_secondary.c:154-158 | when waiting for R1 fails, nothing more is received and the rest of the response keeps its old bytes |
| Secondary.ResponseOnCleanBus | External/SDCard_Driver/Src/sd_driver_secondary.c:142-171 | on a clean bus, an answer after `k` idle bytes is stored verbatim with HAL_OK |
| Secondary.SendCmd | External/SDCard_Driver/Inc/sd_driver_secondary.h:35-41 | SEND_CMD selects the card, sends the frame, only receives, then releases the card |
| Secondary.ExchangeSends | External/SDCard_Driver/Inc/sd_driver_secondary.h:35-41 | the bytes an exchange puts on the bus are exactly the frame |
| Secondary.SendCmdOnCleanBus | External/SDCard_Driver/Inc/sd_driver_secondary.h:35-41 | on a clean bus SEND_CMD yields the card's answer verbatim and releases the card |
| Secondary.ReceiveDataBlock | External/SDCard_Driver/Src/sd_driver_secondary.c:90-118 | the buffer keeps its size, the status is a HAL status or SD_CRC_ERROR, and only receptions happen |
| Secondary.CrcComparisonIsWireOrder | External/SDCard_Driver/Src/sd_driver_secondary.c:112-115 | the byte-swapped comparison accepts exactly the CRC16 sent high byte first |
| Secondary.DataBlockAccepts | External/SDCard_Driver/Src/sd_driver_secondary.c:101-117 | a block with token 0xFE and a matching CRC returns its payload with the OR of the three transfer statuses |
| Secondary.DataBlockOnCleanBus | External/SDCard_Driver/Src/sd_driver_secondary.c:90-118 | on a clean bus, token, payload and CRC16 after idle bytes give the payload with SD_OK |
| Secondary.DataBlockChecksCrc | External/SDCard_Driver/Src/sd_driver_secondary.c:108-117 | on a clean bus a block is accepted exactly when the two bytes after it are its CRC16, high byte first |
| Secondary.DataBlockDetectsFlippedBit | External/SDCard_Driver/Src/sd_driver_secondary.c:108-115 | a payload with one bit flipped in transit gives SD_CRC_ERROR |
| Secondary.DataBlockRejectsToken | External/SDCard_Driver/Src/sd_driver_secondary.c:101-103 | a first non-idle byte other than 0xFE gives SD_ERROR and receives nothing more |
| Secondary.DataBlockTimeoutIsError | External/SDCard_Driver/Src/sd_driver_secondary.c:101-103 | a silent card gives SD_ERROR, not SD_TIMEOUT, because the token test comes first |
| Secondary.SendCsd | External/SDCard_Driver/Src/sd_driver_secondary.c:177 | the frame decodes as CMD9 with argument 0 |
| Secondary.PartialBlockProbeAsWritten | External/SDCard_Driver/Src/sd_driver_secondary.c:173-195 | as written: never true on a failed status; CMD9 is the only byte run sent |
| Secondary.PartialBlockProbe | External/SDCard_Driver/Src/sd_driver_secondary.c:173-195 | corrected: the same, with the R1 byte read before the data block |
| Secondary.ProbeAfterR1 | External/SDCard_Driver/Src/sd_driver_secondary.c:188-194 | corrected, after the R1 byte: a failed status reports false, and the whole exchange puts only CMD9 on the bus |
| Secondary.ProbeOf | External/SDCard_Driver/Src/sd_driver_secondary.c:173-195 | in either build, a failed status reports false and only CMD9 goes out |
| Secondary.PartialBlockProbeAsWrittenMissesR1 | External/SDCard_Driver/Src/sd_driver_secondary.c:181-188 | as written, a card answering CMD9 as the standard prescribes is always reported as refusing partial blocks |
| Secondary.PartialBlockProbeReadsCsd | External/SDCard_Driver/Src/sd_driver_secondary.c:173-195 | corrected, the probe reports exactly CSD bit 79 of the card's answer, with SD_OK |
| Secondary.SetBlockLenCmd | External/SDCard_Driver/Src/sd_driver_secondary.c:202 | the frame decodes as CMD16 with the length |
| Secondary.SetBlockLen | External/SDCard_Driver/Src/sd_driver_secondary.c:197-215 | a length above 512, or a probe that reports false, gives SD_INCORRECT_ARGUMENT; a probe that reports true with a length up to 512 never does; the card ends released |
| Secondary.SetBlockLenAfterProbe | External/SDCard_Driver/Src/sd_driver_secondary.c:207-214 | the same two directions on the probe's answer; SD_INCORRECT_ARGUMENT leaves the bus untouched; any other result follows a CMD16 exchange |
| Secondary.SetBlockLenSends | External/SDCard_Driver/Src/sd_driver_secondary.c:197-215 | CMD9 always goes out; CMD16 follows exactly when the result is not SD_INCORRECT_ARGUMENT |
| Secondary.SetBlockLenOnCleanBus | External/SDCard_Driver/Src/sd_driver_secondary.c:210-214 | on a clean bus, once the probe allowed a length up to 512, the result is SD_OK when the card answers CMD16 with a clear R1 and SD_TRANSMISSION_ERROR otherwise |
| Secondary.SetBlockLenAsWrittenRefuses | External/SDCard_Driver/Src/sd_driver_secondary.c:181-188 | a card answering CMD9 as the standard prescribes: as written, every length is refused with SD_INCORRECT_ARGUMENT and CMD16 never goes out; corrected, a card with READ_BL_PARTIAL and a length up to 512 receives CMD16 |
| Secondary.OpenTransfer | External/SDCard_Driver/Src/sd_driver_read.c:16-25 | the shared opening of transfers: an R1 other than 0 gives SD_TRANSMISSION_ERROR; the card stays selected after the frame |
| Secondary.OpenOnCleanBus | External/SDCard_Driver/Src/sd_driver_read.c:16-25 | on a clean bus the opening gives SD_OK exactly when R1 is clear |
| Secondary.OpenedSends | External/SDCard_Driver/Src/sd_driver_read.c:16-20 | an opening puts exactly the command frame on the bus |
| Init.GoIdle | External/SDCard_Driver/Src/sd_driver_init.c:29 | the frame decodes as CMD0 with argument 0 |
| Init.SendIfCond | External/SDCard_Driver/Src/sd_driver_init.c:173 | the frame decodes as CMD8 with 0x155: voltage field 1, check pattern 0x55 |
| Init.CrcOnOffCmd | External/SDCard_Driver/Src/sd_driver_init.c:67 | CMD59 with argument 1 exactly when CRC checking is enabled |
| Init.ReadOcr | External/SDCard_Driver/Src/sd_driver_init.c:81 | the frame decodes as CMD58 |
| Init.AppCmd | External/SDCard_Driver/Src/sd_driver_init.c:82 | the frame decodes as CMD55 |
| Init.SendOpCond | External/SDCard_Driver/Src/sd_driver_init.c:83 | the frame decodes as ACMD41 with argument 0 |
| Init.PowerOn | External/SDCard_Driver/Src/sd_driver_init.c:10-24 | the card is released, ten 0xFF bytes go out one per HAL call, then one reception; HAL_OK exactly when all eleven calls were, and then one byte of the line is consumed |
| Init.PowerOnClocksEnough | External/SDCard_Driver/Src/sd_driver_init.c:17-19 | the power-on bytes give at least the 74 clock cycles the standard requires |
| Init.IdlePoll | External/SDCard_Driver/Src/sd_driver_init.c:45-51 | the CMD0 loop only clocks bytes in |
| Init.GoIdleExchange | External/SDCard_Driver/Src/sd_driver_init.c:39-51 | chip select asserted, CMD0 sent, then receptions only |
| Init.EnterSpiModeAsWritten | External/SDCard_Driver/Src/sd_driver_init.c:26-59 | as written: a set latch returns SD_OK with no bus activity; the latch is set exactly when the status is SD_OK; a card left selected means the CMD0 loop timed out |
| Init.EnterSpiMode | External/SDCard_Driver/Src/sd_driver_init.c:26-59 | corrected: the same, and whenever the latch was not already set the card ends released, the timeout path included |
| Init.EnterSpiModeOf | External/SDCard_Driver/Src/sd_driver_init.c:26-59 | in either build, a set latch returns SD_OK with no bus activity and the latch is set exactly on SD_OK; a card left selected happens only as written, with SD_TIMEOUT |
| Init.IdlePollSilent | External/SDCard_Driver/Src/sd_driver_init.c:45-51 | a card that never answers CMD0 makes the loop end by timeout |
| Init.IdlePollFinds | External/SDCard_Driver/Src/sd_driver_init.c:45-51 | on a clean bus with the clock standing, bytes other than "in idle state" followed by it end the loop without timeout, with SD_OK, after exactly that many receptions plus one |
| Init.GoIdleOnCleanBus | External/SDCard_Driver/Src/sd_driver_init.c:39-51 | on a clean bus a card that answers CMD0 with "in idle state" ends the exchange without timeout, with SD_OK, and consumes exactly up to that byte |
| Init.EnterSpiModeOnCleanBus | External/SDCard_Driver/Src/sd_driver_init.c:26-59 | on a clean bus, in either build, such a card latches SPI mode with SD_OK and ends released |
| Init.EnterSpiModeTimeoutLeavesSelected | External/SDCard_Driver/Src/sd_driver_init.c:49-53 | as written, a CMD0 timeout returns SD_TIMEOUT with the card still selected; corrected, it is released |
| Init.CrcOnOff | External/SDCard_Driver/Src/sd_driver_init.c:62-76 | one CMD59 exchange; the status is SD_TRANSMISSION_ERROR or a HAL status |
| Init.CrcOnOffOnCleanBus | External/SDCard_Driver/Src/sd_driver_init.c:71-73 | on a clean bus CMD59 gives SD_OK exactly when R1 is "in idle state" |
| Init.CapacityAsWritten | External/SDCard_Driver/Src/sd_driver_init.c:158-161 | as written: the capacity is never left undefined |
| Init.CardCapacity | External/SDCard_Driver/Src/sd_driver_init.c:158-161 | corrected: high or extended capacity exactly when OCR bit 30 (CCS) is set |
| Init.CapacityAsWrittenReadsBit25 | External/SDCard_Driver/Src/sd_driver_init.c:158 | as written, the test reads OCR bit 25; OCR 0xC0FF8000 is recorded as standard capacity |
| Init.CapacityOf | External/SDCard_Driver/Src/sd_driver_init.c:158-161 | the capacity is never undefined; as written it is high exactly when OCR bit 25 is set, corrected exactly when OCR bit 30 is |
| Init.OpCondRound | External/SDCard_Driver/Src/sd_driver_init.c:101-102 | CMD55 then ACMD41, each in its own exchange; the card ends released |
| Init.OpCondLoop | External/SDCard_Driver/Src/sd_driver_init.c:98-112 | the loop ends released; a refusal only in the version 1 loop |
| Init.OpCondStep | External/SDCard_Driver/Src/sd_driver_init.c:104-111 | a clear R1 ends the loop ready; ILLEGAL_COMMAND ends the version 1 loop refused |
| Init.V1Init | External/SDCard_Driver/Src/sd_driver_init.c:78-118 | either the record becomes version 1, standard capacity, or it is unchanged and the status is not SD_OK |
| Init.V1AfterOcr | External/SDCard_Driver/Src/sd_driver_init.c:94-117 | a rejected voltage gives SD_ERROR at once with the record unchanged |
| Init.V1Finish | External/SDCard_Driver/Src/sd_driver_init.c:104-117 | SD_OK exactly when the loop ended ready with SD_OK; a refusal gives SD_UNUSABLE_CARD, a timeout SD_TIMEOUT |
| Init.V2Init | External/SDCard_Driver/Src/sd_driver_init.c:120-165 | in either build, the record becomes version 2 or it is unchanged and the status is not SD_OK |
| Init.V2AfterOcr | External/SDCard_Driver/Src/sd_driver_init.c:138-164 | a rejected voltage gives SD_UNUSABLE_CARD at once; a recorded version 2 card went through a loop that ended ready, and its capacity is the selected build's reading of the second OCR |
| Init.V2Finish | External/SDCard_Driver/Src/sd_driver_init.c:148-164 | a timeout gives SD_TIMEOUT alone; once ready, CMD58 is exchanged again and the capacity is the selected build's reading of its OCR |
| Init.V2Ready | External/SDCard_Driver/Src/sd_driver_init.c:157-164 | the record is version 2 with the capacity the build reads from the second OCR; SD_OK exactly when both parts were; OCR `00 C0 FF 80 00` gives standard capacity as written and high capacity corrected |
| Init.Cmd8BranchOnFields | External/SDCard_Driver/Src/sd_driver_init.c:188-203 | ILLEGAL_COMMAND in R1 selects version 1; otherwise version 2 exactly when the echo is 0x55 and the voltage field is 1 |
| Init.Cmd8Branch | External/SDCard_Driver/Src/sd_driver_init.c:188-201 | version 1 exactly when R1 has ILLEGAL_COMMAND; version 2 exactly when it does not and the echo is 0x55 and the voltage field is 1 |
| Init.Conclude | External/SDCard_Driver/Src/sd_driver_init.c:205-207 | the record's error flag is set exactly when the status is not SD_OK; nothing else changes |
| Init.Reset | External/SDCard_Driver/Src/sd_driver_init.c:170-208 | the error flag matches the status; SD_OK means SPI mode latched, version 1 or 2 and a defined capacity; a failed entry into SPI mode is returned with its bus and the record unchanged; a card left selected happens only as written, on the CMD0 timeout |
| Init.ResetAfterEnter | External/SDCard_Driver/Src/sd_driver_init.c:181-207 | a failed CMD8 exchange ends the reset with its status and no further bus activity; otherwise ILLEGAL_COMMAND leads to version 1 or a failure, a good echo and voltage to version 2 or a failure, anything else to a failure with the record unchanged; the card ends released |
| Init.ResetAfterCmd8 | External/SDCard_Driver/Src/sd_driver_init.c:186-207 | no bit of the CMD59 status is lost; version 1 gives a version 1 standard-capacity record or a failure; version 2 a version 2 record with a defined capacity or a failure; a bad echo or voltage gives SD_UNUSABLE_CARD ORed onto the CMD59 status, with no further exchange and the record unchanged |
| Init.ConcludeFlow | External/SDCard_Driver/Src/sd_driver_init.c:189-207 | after either flow the error flag matches the status, SD_OK means a complete record, the flow's record is kept, and no earlier failure bit is lost |
| Init.ConcludeVersion1 | External/SDCard_Driver/Src/sd_driver_init.c:189-193 | a version 1 standard-capacity record or a failure with the record unchanged; no CMD59 status bit is lost; the card ends released |
| Init.ConcludeVersion2 | External/SDCard_Driver/Src/sd_driver_init.c:203-207 | a version 2 record with a defined capacity or a failure with the record unchanged; no CMD59 status bit is lost; the card ends released |
| Init.ConcludeUnusable | External/SDCard_Driver/Src/sd_driver_init.c:196-201 | SD_UNUSABLE_CARD ORed onto the CMD59 status, the bus as CMD59 left it, the record unchanged |
| Init.ResetTimeoutLeavesSelected | External/SDCard_Driver/Src/sd_driver_init.c:46-53 | a card that never answers CMD0: the reset returns SD_TIMEOUT in both builds, with the card still selected as written and released corrected |
| Read.ReadSingleCmd | External/SDCard_Driver/Src/sd_driver_read.c:13 | the frame decodes as CMD17 with the address |
| Read.ReadMultipleCmd | External/SDCard_Driver/Src/sd_driver_read.c:44 | the frame decodes as CMD18 with the address |
| Read.StopCmd | External/SDCard_Driver/Src/sd_driver_read.c:45 | the frame decodes as CMD12, built with the transfer's address |
| Read.ReadData | External/SDCard_Driver/Src/sd_driver_read.c:6-34 | the buffer keeps its size; the card ends released; the status is a HAL status, SD_CRC_ERROR or SD_TRANSMISSION_ERROR |
| Read.ReadAfterOpen | External/SDCard_Driver/Src/sd_driver_read.c:22-33 | a failed opening returns its status with the buffer untouched and the card released at once |
| Read.ReadDataSends | External/SDCard_Driver/Src/sd_driver_read.c:6-34 | reading transmits nothing but CMD17 |
| Read.ReadDataOnCleanBus | External/SDCard_Driver/Src/sd_driver_read.c:6-34 | on a clean bus a card that accepts CMD17 and sends a well-formed block is read with SD_OK |
| Read.ReadDataRefused | External/SDCard_Driver/Src/sd_driver_read.c:22-25 | any R1 other than 0 gives SD_TRANSMISSION_ERROR with the buffer untouched |
| Read.ReadBlocks | External/SDCard_Driver/Src/sd_driver_read.c:60-65 | every buffer keeps its size; no status bit already accumulated is lost; only receptions happen |
| Read.ReadBlocksAfter | External/SDCard_Driver/Src/sd_driver_read.c:60-65 | the same, one block into the loop |
| Read.ReadBlocksOnCleanBus | External/SDCard_Driver/Src/sd_driver_read.c:60-65 | on a clean bus a run of well-formed blocks is read back verbatim with the status unchanged |
| Read.BadBlockOnCleanBus | External/SDCard_Driver/Src/sd_driver_secondary.c:108-117 | on a clean bus a block whose two trailing bytes are not its CRC16 gives SD_CRC_ERROR with the payload delivered and exactly the block consumed |
| Read.ReadBlocksPastCrcError | External/SDCard_Driver/Src/sd_driver_read.c:60-65 | a block that fails its CRC does not stop the loop: every block is delivered verbatim and the status is the accumulated one with SD_CRC_ERROR added |
| Read.ReadMultiple | External/SDCard_Driver/Src/sd_driver_read.c:36-78 | the buffers keep their sizes; the card ends released; the status is below 8 |
| Read.ReadMultipleAfterOpen | External/SDCard_Driver/Src/sd_driver_read.c:55-77 | a failed opening returns its status with the buffers untouched and the card released at once |
| Read.ReadMultipleStop | External/SDCard_Driver/Src/sd_driver_read.c:67-77 | CMD12 goes out, receptions only follow, then the card is released; no earlier failure bit is lost |
| Read.ReadMultipleSends | External/SDCard_Driver/Src/sd_driver_read.c:36-78 | CMD12 is sent exactly when CMD18 was accepted, and nothing else is transmitted |
| Read.ReadMultipleOnCleanBus | External/SDCard_Driver/Src/sd_driver_read.c:36-78 | on a clean bus a card that accepts CMD18 and sends well-formed blocks is read verbatim with SD_OK |
| Read.StopOnCleanBus | External/SDCard_Driver/Src/sd_driver_read.c:67-73 | on a clean bus the stop sequence keeps SD_OK |
| Write.WriteSingleCmd | External/SDCard_Driver/Src/sd_driver_write.c:56 | the frame decodes as CMD24 with the address |
| Write.WriteMultipleCmd | External/SDCard_Driver/Src/sd_driver_write.c:88 | the frame decodes as CMD25 with the address |
| Write.DataResponseOf | External/SDCard_Driver/Src/sd_driver_write.c:30 | the data response a byte carries is the one whose mask equals its low nibble, and there is none when no mask does |
| Write.DataResponseRoundTrip | External/SDCard_Driver/Inc/sd_driver_secondary.h:67-72 | the upper bits of the response byte never change the data response read |
| Write.ResponseStatus | External/SDCard_Driver/Src/sd_driver_write.c:30-42 | the status after the switch is below 8 |
| Write.ResponseStatusOk | External/SDCard_Driver/Src/sd_driver_write.c:30-42 | SD_OK exactly when the card accepted the block and nothing failed before; CRC rejection gives SD_CRC_ERROR and write rejection SD_ERROR, whatever came before |
| Write.TransmitFramed | External/SDCard_Driver/Src/sd_driver_write.c:21-25 | token, payload and CRC go out in order; HAL_OK exactly when every call was |
| Write.AwaitDataResponse | External/SDCard_Driver/Src/sd_driver_write.c:27-42 | the status is the switch applied to the response byte and the OR of all transfer statuses |
| Write.SendDataBlock | External/SDCard_Driver/Src/sd_driver_write.c:6-45 | token, payload and the two CRC bytes are exactly what goes on the bus |
| Write.TransmitDataBlockAsWritten | External/SDCard_Driver/Src/sd_driver_write.c:17-25 | as written: the CRC goes out low byte first |
| Write.TransmitDataBlock | External/SDCard_Driver/Src/sd_driver_write.c:6-45 | corrected: the CRC goes out high byte first |
| Write.TransmitDataBlockOf | External/SDCard_Driver/Src/sd_driver_write.c:17-25 | in either build, the token, the payload and the CRC bytes of that build go out in order |
| Write.WrittenBlockReadsBack | External/SDCard_Driver/Src/sd_driver_write.c:17-25 | a block as the corrected writer sends it is accepted by the driver's own reader, payload verbatim |
| Write.WrittenAsWrittenFailsReadBack | External/SDCard_Driver/Src/sd_driver_write.c:23-25 | a block as written is accepted by the reader only when the two CRC bytes are equal |
| Write.SwappedCrcExample | External/SDCard_Driver/Src/sd_driver_write.c:23-25 | the block 0x01 has CRC 0x1021, whose two orders differ: the as-written build sends `21 10`, the corrected one `10 21` |
| Write.WriteData | External/SDCard_Driver/Src/sd_driver_write.c:49-78 | in either build the card ends released and the status is below 8 |
| Write.WriteAfterOpen | External/SDCard_Driver/Src/sd_driver_write.c:65-77 | a failed opening sends no block and returns its status; otherwise token 0xFE, the payload and the CRC bytes of the selected build go out |
| Write.WriteDataSends | External/SDCard_Driver/Src/sd_driver_write.c:49-78 | CMD24 always goes out; the block, with the CRC bytes of the selected build, follows exactly when the card accepted CMD24 |
| Write.WriteBlocks | External/SDCard_Driver/Src/sd_driver_write.c:104-110 | every block goes out with token 0xFC and the CRC bytes of the selected build, in order, whatever the earlier blocks' status |
| Write.WriteBlocksAfter | External/SDCard_Driver/Src/sd_driver_write.c:104-110 | the same, one block into the loop |
| Write.WriteBlocksKeepsFailures | External/SDCard_Driver/Src/sd_driver_write.c:104-113 | the loop never clears a status bit already accumulated |
| Write.WriteMultiple | External/SDCard_Driver/Src/sd_driver_write.c:80-124 | in either build the card ends released and the status is below 8 |
| Write.WriteMultipleAfterOpen | External/SDCard_Driver/Src/sd_driver_write.c:99-123 | a failed opening sends nothing more and returns its status; otherwise no failure bit of the block loop is lost |
| Write.WriteMultipleStop | External/SDCard_Driver/Src/sd_driver_write.c:112-123 | after a failure the card is released at once; otherwise the stop token 0xFD goes out |
| Write.WriteMultipleSends | External/SDCard_Driver/Src/sd_driver_write.c:80-124 | CMD25 always goes out; the blocks, with the CRC bytes of the selected build, follow exactly when it was accepted, and the stop token exactly when every block was accepted too |
| Erase.EraseStartCmd | External/SDCard_Driver/Src/sd_card_erase.c:15 | the frame decodes as CMD32 with the address |
| Erase.EraseEndCmd | External/SDCard_Driver/Src/sd_card_erase.c:16 | the frame decodes as CMD33 with the address |
| Erase.EraseCmd | External/SDCard_Driver/Src/sd_card_erase.c:28 | the frame decodes as CMD38 with argument 0 |
| Erase.MarkArea | External/SDCard_Driver/Src/sd_card_erase.c:20-21 | two SEND_CMD exchanges, CMD32 then CMD33; the card ends released |
| Erase.SetErasableAreaAsWritten | External/SDCard_Driver/Src/sd_card_erase.c:9-24 | as written: CMD32 and CMD33 both carry the start address |
| Erase.SetErasableArea | External/SDCard_Driver/Src/sd_card_erase.c:9-24 | corrected: CMD32 carries the start address and CMD33 the end address |
| Erase.SetErasableAreaAsWrittenMarksStart | External/SDCard_Driver/Src/sd_card_erase.c:16 | as written, the second frame decodes as CMD33 with the start address |
| Erase.SetErasableAreaAsWrittenIgnoresEnd | External/SDCard_Driver/Src/sd_card_erase.c:11-16 | as written, two calls differing only in the end address do exactly the same thing |
| Erase.SetErasableAreaMarksRange | External/SDCard_Driver/Src/sd_card_erase.c:15-21 | corrected, the two frames decode as CMD32 with the start and CMD33 with the end |
| Erase.MarkAreaIgnoresR1 | External/SDCard_Driver/Src/sd_card_erase.c:20-23 | on a clean bus the area is marked with SD_OK whatever R1 bytes the card answers, error flags included |
| Erase.EraseBody | External/SDCard_Driver/Src/sd_card_erase.c:36-44 | chip select asserted, CMD38 sent, then receptions only |
| Erase.EraseAsWritten | External/SDCard_Driver/Src/sd_card_erase.c:26-48 | as written: CMD38 is the only byte run sent |
| Erase.Erase | External/SDCard_Driver/Src/sd_card_erase.c:26-48 | corrected: the same, with the card released at the end |
| Erase.EraseAsWrittenLeavesSelected | External/SDCard_Driver/Src/sd_card_erase.c:45 | as written, the card is still selected on return on every path; the corrected erase differs only in that last chip-select call |
| Erase.EraseIgnoresR1 | External/SDCard_Driver/Src/sd_card_erase.c:36-47 | on a clean bus the erase reports SD_OK whatever R1 the card answers CMD38 with, once the busy level ends |

## Left out

- The HAL is not called. SPI transfers, GPIO writes and `HAL_GetTick` are
  script-driven (see above). Timing is a sequence of clock readings, so
  real durations, interrupts and DMA are not modelled.
- `HAL_SPI_Transmit` with `HAL_MAX_DELAY` (SEND_CMD) and with
  SD_TRANSMISSION_TIMEOUT both take the next HAL return code. The HAL's own
  timeouts are not modelled.
- The CRC library (`crc-buffer.h`) is not part of this model. CRC7 and CRC16
  are defined bit by bit as in section 4.5 of the SD Physical Layer
  Simplified Specification. `crc_buffer_calculate_crc_7` is taken to return
  the whole trailer byte (CRC7 in bits 7..1, end bit 1). `crc_16_result` is
  taken to hold the CRC16 as a 16-bit value in little-endian memory. That
  memory layout matters only for the byte-order finding.
- `Core/Src/main.c`, `sdcard_driver.c` and `sdcard_driver.h` are not part of
  this model. The other headers only declare what is modelled here.
  `sd_card_get_csd` is declared but has no definition, so it is not
  modelled.
- Buffers are sequences. Pointer arithmetic over a caller's buffer
  (`data + i * block_length`) becomes a sequence of block buffers.
- Buffer sizes are limited to below 65536 (`|prior| < 0x10000`,
  `BlockSized`), because `data_size` is a `uint16_t`. The `uint32_t`
  `block_length` is narrowed into it silently in the source; that narrowing
  is not modelled.
- The R2 layout (`sd_r2_response`) and the version nibble of R7 are declared
  but not used by any flow. They appear only in `Frame.R7FieldsRoundTrip`.
- `0xff << shift` for `shift = 24` shifts into the sign bit of an `int`,
  which is undefined behaviour in C. The model takes the evident meaning:
  byte `i` of the argument.
- `sd_card_status` is a global and `sd_card_is_spi_mode` a function-level
  static. Both are threaded through `Init.Reset` as `Init.Driver`, not as
  mutable state.
- Read.ReadMultiple: states the status as below 8 and the buffers by size.
  The contents on a clean bus are stated by `Read.ReadMultipleOnCleanBus`
  for cards that answer at once, not for every timing.
- Write.WriteData: states the status only as below 8. What is sent is stated
  by `Write.WriteDataSends`. The status on a clean bus is not stated, because
  it depends on the data-response byte as in `Write.ResponseStatusOk`.
- Write.WriteMultiple: states the status only as below 8. What is sent is
  stated by `Write.WriteMultipleSends`.
- Read.ReadDataOnCleanBus: states the resulting trace only through `rx`. The
  exact trace length is stated one level down, in
  `Secondary.DataBlockOnCleanBus`.
- Init.Reset: does not state the status of a successful reset on a clean bus
  end to end. It is stated per stage: `Init.EnterSpiModeOnCleanBus`,
  `Init.CrcOnOffOnCleanBus`, `Init.V1Finish`, `Init.V2Finish`, `Init.V2Ready`.
- Init.OpCondLoop: does not prove that the loop ends ready for a card that
  eventually clears R1. Its termination rests on the finite clock script.

## Findings

| source | as written | input that shows it | evidently intended | confidence | as-written member | corrected member |
|---|---|---|---|---|---|---|
| External/SDCard_Driver/Src/sd_driver_init.c:158 | CCS is tested as `ocr_register_content[0] & 0x2`, i.e. OCR bit 25 | a ready SDHC card answering CMD58 with R3 `00 C0 FF 80 00` (OCR 0xC0FF8000) is recorded as standard capacity | test `& 0x40`, OCR bit 30 (CCS) | high; not executed | Init.CapacityAsWrittenReadsBit25 | Init.CardCapacity |
| External/SDCard_Driver/Src/sd_card_erase.c:16 | CMD33 is built from `start_address`; `end_address` is never used | any call with start != end marks only the block at start | CMD33 carries `end_address` | high; not executed | Erase.SetErasableAreaAsWrittenMarksStart | Erase.SetErasableAreaMarksRange |
| External/SDCard_Driver/Src/sd_card_erase.c:45 | `SELECT_SD()` at the end of `sd_card_erase` | every call: the card is still selected on return | `DISELECT_SD()` | high; not executed | Erase.EraseAsWrittenLeavesSelected | Erase.Erase |
| External/SDCard_Driver/Src/sd_driver_init.c:49-50 | a CMD0 timeout returns SD_TIMEOUT before `DISELECT_SD()` | a card that never answers CMD0 (line stays 0xFF) | release the card on the timeout path too | medium; not executed | Init.EnterSpiModeTimeoutLeavesSelected | Init.EnterSpiMode |
| External/SDCard_Driver/Src/sd_driver_secondary.c:181-188 | after CMD9 the data-block reader is called directly; the R1 byte 0x00 is taken as the token and fails the 0xFE test | a card answering R1 `00`, then `FE`, 16 CSD bytes and their CRC: the probe reports false, so every `sd_card_set_block_len` call fails | read R1 first, then the data block | high; not executed | Secondary.PartialBlockProbeAsWrittenMissesR1 | Secondary.PartialBlockProbeReadsCsd |
| External/SDCard_Driver/Src/sd_driver_write.c:23-25 | the CRC16 goes out as the bytes of `crc_16_result` in memory, while the reader at sd_driver_secondary.c:112-115 accepts only the swapped order | the block `01` has CRC16 0x1021; as written it goes out `21 10`, and the driver's own reader rejects it | send the CRC high byte first, as the reader expects | medium (depends on the CRC library's layout); not executed | Write.WrittenAsWrittenFailsReadBack | Write.WrittenBlockReadsBack |

/** Status codes, R1 flags and data-response tokens of the SD card driver
    (the enumerations of `sd_driver_secondary.h`), and the rules by which the
    driver combines status values with bitwise OR. */
module Codes {

  /** One byte on the SPI bus. */
  type byte = bv8

  /** The value held by an `sd_error` (or `HAL_StatusTypeDef`) variable. The
      driver accumulates these with `|`, so a status is kept as its bits. */
  type Status = bv8

  datatype Option<+T> = None | Some(value: T)

  /** Which version of the driver a composed flow runs: the code as it is
      written, or the code with the defects listed under "Findings" in the
      README corrected. Each defective step exists in both versions, and the
      flows built on it take the choice as a parameter. */
  datatype Build = AsWritten | Corrected

  /** The `sd_error` enumeration. */
  datatype SdError =
    | Ok
    | Error
    | Busy
    | Timeout
    | UnusableCard
    | CrcError
    | IncorrectArgument
    | TransmissionError

  /** Numeric value of each `sd_error` enumerator. The HAL status values
      HAL_OK, HAL_ERROR, HAL_BUSY and HAL_TIMEOUT are 0..3 and coincide with
      Ok, Error, Busy and Timeout. */
  function Code(e: SdError): (c: Status)
    ensures c < 8
    ensures c == 0 <==> e == Ok
  {
    match e
    case Ok => 0x00
    case Error => 0x01
    case Busy => 0x02
    case Timeout => 0x03
    case UnusableCard => 0x04
    case CrcError => 0x05
    case IncorrectArgument => 0x06
    case TransmissionError => 0x07
  }

  /** Reads a status value back as an enumerator; only 0..7 name one. */
  function FromCode(c: Status): (r: Option<SdError>)
  {
    if c == 0x00 then Some(Ok)
    else if c == 0x01 then Some(Error)
    else if c == 0x02 then Some(Busy)
    else if c == 0x03 then Some(Timeout)
    else if c == 0x04 then Some(UnusableCard)
    else if c == 0x05 then Some(CrcError)
    else if c == 0x06 then Some(IncorrectArgument)
    else if c == 0x07 then Some(TransmissionError)
    else None
  }

  /** The enumerators are the consecutive values 0..7 and nothing else:
      `Code` and `FromCode` are inverse bijections between them and 0..7. */
  lemma CodeRoundTrip(e: SdError, c: Status)
    ensures FromCode(Code(e)) == Some(e)
    ensures FromCode(c).Some? <==> c < 8
    ensures FromCode(c).Some? ==> Code(FromCode(c).value) == c
  {
  }

  /** An OR-accumulated status is Ok exactly when every part was Ok. */
  lemma AccumulatedOkIff(a: Status, b: Status)
    ensures a | b == Code(Ok) <==> a == Code(Ok) && b == Code(Ok)
  {
  }

  /** Accumulating never loses a bit already recorded. */
  lemma AccumulationKeepsBits(acc: Status, s: Status)
    ensures (acc | s) & acc == acc
    ensures (acc | s) & s == s
  {
  }

  /** A status that kept every bit of `acc | s` kept every bit of `acc`. */
  lemma KeptBitsOfPart(r: Status, acc: Status, s: Status)
    requires r & (acc | s) == acc | s
    ensures r & acc == acc
  {
  }

  /** Accumulating codes stays among the eight codes. */
  lemma AccumulatedStaysCode(a: Status, b: Status)
    requires a < 8 && b < 8
    ensures a | b < 8
  {
  }

  /** OR of two codes is again one of the eight codes, but the codes are not
      flags: a combination can read as a third, unrelated code. */
  lemma AccumulatedCodesAlias(a: SdError, b: SdError)
    ensures FromCode(Code(a) | Code(b)).Some?
    ensures Code(Timeout) | Code(UnusableCard) == Code(TransmissionError)
    ensures Code(Error) | Code(Busy) == Code(Timeout)
    ensures Code(Error) | Code(UnusableCard) == Code(CrcError)
  {
  }

  /** The bits of the R1 response byte (`sd_r1_error_mask`). */
  datatype R1Flag =
    | InIdleState
    | EraseReset
    | IllegalCommand
    | ComCrcError
    | EraseSequenceError
    | AddressError
    | ParameterError

  /** `R1_CLEAR_FLAGS`: an R1 byte with no flag set. */
  const R1Clear: byte := 0x00

  function Mask(f: R1Flag): (m: byte)
    ensures 0x01 <= m <= 0x40
  {
    match f
    case InIdleState => 0x01
    case EraseReset => 0x02
    case IllegalCommand => 0x04
    case ComCrcError => 0x08
    case EraseSequenceError => 0x10
    case AddressError => 0x20
    case ParameterError => 0x40
  }

  /** Each mask is a single bit between 0x01 and 0x40, and different flags
      never share a bit; bit 7 of R1 is never a flag. */
  lemma R1MasksAreDistinctBits(f: R1Flag, g: R1Flag)
    ensures Mask(f) != 0 && Mask(f) & (Mask(f) - 1) == 0
    ensures Mask(f) & 0x80 == 0
    ensures f != g <==> Mask(f) & Mask(g) == 0
  {
  }

  /** Whether flag `f` is set in an R1 byte. */
  predicate Has(r1: byte, f: R1Flag)
  {
    r1 & Mask(f) != 0
  }

  /** The data-response tokens of a block write (`sd_data_response_mask`),
      compared against the low nibble of the response byte. */
  datatype DataResponse = Accepted | CrcRejected | WriteRejected

  function ResponseNibble(d: DataResponse): (n: byte)
    ensures n < 0x10 && n & 1 == 1
  {
    match d
    case Accepted => 0x5
    case CrcRejected => 0xB
    case WriteRejected => 0xD
  }

  /** Start and stop tokens of a data block. */
  const StartBlockToken: byte := 0xFE
  const StartMultiWriteToken: byte := 0xFC
  const StopMultiWriteToken: byte := 0xFD
}

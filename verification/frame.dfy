/** Command framing (section 7.3.1.1 of the SD Physical Layer Simplified
    Specification): a start byte 0x40 | index, the 32-bit argument most
    significant byte first, and the CRC7 trailer. Also the field layout of the
    R7 and R3 responses and of the CSD register that the driver reads. */
module Frame {
  import opened Codes
  import opened Crc

  /** `sd_command`: start byte, four argument bytes, CRC byte, laid out in
      that order (the order in which they are transmitted). */
  datatype Command = Command(start: byte, argument: seq<byte>, crc: byte)
  {
    function Bytes(): (f: seq<byte>)
      ensures |f| == |argument| + 2
      ensures f[0] == start && f[|f| - 1] == crc
      ensures f[1..|f| - 1] == argument
    {
      [start] + argument + [crc]
    }
  }

  /** Byte `k` (0 = least significant) of a 32-bit word. */
  function WordByte(w: bv32, k: nat): byte
    requires k < 4
  {
    if k == 0 then (w & 0xFF) as byte
    else if k == 1 then ((w >> 8) & 0xFF) as byte
    else if k == 2 then ((w >> 16) & 0xFF) as byte
    else ((w >> 24) & 0xFF) as byte
  }

  /** The loop of `sd_card_get_cmd_without_crc` that stores the argument
      byte by byte, byte `3 - i` taking bits 8i..8i+7. */
  function ArgumentBytes(arg: bv32): (a: seq<byte>)
    ensures |a| == 4
    ensures forall i | 0 <= i < 4 :: a[3 - i] == WordByte(arg, i)
  {
    [WordByte(arg, 3), WordByte(arg, 2), WordByte(arg, 1), WordByte(arg, 0)]
  }

  /** Reads four bytes as a big-endian word. */
  function BigEndian(a: seq<byte>): bv32
    requires |a| == 4
  {
    ((a[0] as bv32) << 24) | ((a[1] as bv32) << 16) | ((a[2] as bv32) << 8) | (a[3] as bv32)
  }

  /** The argument travels most significant byte first: reading the four
      stored bytes back big-endian gives the argument, and every four bytes
      are the image of exactly one argument. */
  lemma ArgumentRoundTrip(arg: bv32, a: seq<byte>)
    requires |a| == 4
    ensures BigEndian(ArgumentBytes(arg)) == arg
    ensures ArgumentBytes(BigEndian(a)) == a
  {
  }

  /** `sd_card_get_cmd_without_crc`: the frame with a zero CRC byte. */
  function CmdWithoutCrc(index: byte, arg: bv32): (c: Command)
    ensures c.start == 0x40 | index
    ensures |c.argument| == 4 && BigEndian(c.argument) == arg
    ensures c.crc == 0
  {
    ArgumentRoundTrip(arg, [0, 0, 0, 0]);
    Command(0x40 | index, ArgumentBytes(arg), 0)
  }

  /** `sd_card_get_cmd`: the same frame with the CRC7 trailer computed over
      the first five bytes (all but the CRC byte). */
  function Cmd(index: byte, arg: bv32): (c: Command)
    ensures c.start == CmdWithoutCrc(index, arg).start
    ensures c.argument == CmdWithoutCrc(index, arg).argument
    ensures c.crc == Crc7Trailer(c.Bytes()[..5])
    ensures |c.Bytes()| == 6
  {
    var c := CmdWithoutCrc(index, arg);
    c.(crc := Crc7Trailer(c.Bytes()[..5]))
  }

  /** A command as the card sees it. */
  datatype Request = Request(index: byte, argument: bv32)

  /** How a card decodes six bytes: a start byte whose top bits are 01, a
      big-endian argument and a CRC7 trailer that must match. */
  function ParseFrame(f: seq<byte>): (r: Option<Request>)
    ensures r.Some? ==> r.value.index < 0x40
  {
    if |f| != 6 || f[0] & 0xC0 != 0x40 || f[5] != Crc7Trailer(f[..5]) then None
    else Some(Request(f[0] & 0x3F, BigEndian(f[1..5])))
  }

  /** The start byte keeps the index in its low six bits and marks the
      frame with the bit pattern 01 on top. */
  lemma StartByte(index: byte)
    requires index < 0x40
    ensures (0x40 | index) & 0xC0 == 0x40
    ensures (0x40 | index) & 0x3F == index
  {
  }

  /** The command indexes the driver sends (CMDn is index n). Commands are
      built from these named indexes, so a frame's CRC7 is worked out only
      where a proof asks for it. */
  const GoIdleIndex: byte := 0
  const SendIfCondIndex: byte := 8
  const SendCsdIndex: byte := 9
  const StopTransmissionIndex: byte := 12
  const SetBlockLenIndex: byte := 16
  const ReadSingleBlockIndex: byte := 17
  const ReadMultipleBlockIndex: byte := 18
  const WriteBlockIndex: byte := 24
  const WriteMultipleBlockIndex: byte := 25
  const EraseStartIndex: byte := 32
  const EraseEndIndex: byte := 33
  const EraseIndex: byte := 38
  const SendOpCondIndex: byte := 41
  const AppCmdIndex: byte := 55
  const ReadOcrIndex: byte := 58
  const CrcOnOffIndex: byte := 59

  /** Every frame the driver builds for a command index below 64 decodes to
      that index and argument. */
  lemma FrameDecodes(index: byte, arg: bv32)
    requires index < 0x40
    ensures ParseFrame(Cmd(index, arg).Bytes()) == Some(Request(index, arg))
  {
    var c := Cmd(index, arg);
    var f := c.Bytes();
    StartByte(index);
    assert f[1..5] == c.argument;
    assert f[5] == Crc7Trailer(f[..5]);
  }

  /** Every six bytes a card accepts are the frame the driver builds for the
      request they decode to. */
  lemma FrameEncodes(f: seq<byte>)
    requires ParseFrame(f).Some?
    ensures Cmd(ParseFrame(f).value.index, ParseFrame(f).value.argument).Bytes() == f
  {
    var q := ParseFrame(f).value;
    var c := Cmd(q.index, q.argument);
    StartByteRecovered(f[0]);
    ArgumentRoundTrip(q.argument, f[1..5]);
    assert c.Bytes()[..5] == f[..5];
    assert c.Bytes() == c.Bytes()[..5] + [c.crc];
    assert f == f[..5] + [f[5]];
  }

  /** A start byte with top bits 01 is rebuilt from its low six bits. */
  lemma StartByteRecovered(s: byte)
    requires s & 0xC0 == 0x40
    ensures 0x40 | (s & 0x3F) == s
  {
  }

  /** The six bytes of a frame, given its start byte and the four bytes its
      argument is stored as. */
  lemma CmdLayout(index: byte, arg: bv32, s: byte, a0: byte, a1: byte, a2: byte, a3: byte)
    requires s == 0x40 | index && BigEndian([a0, a1, a2, a3]) == arg
    ensures Cmd(index, arg).Bytes() == [s, a0, a1, a2, a3, Crc7Trailer([s, a0, a1, a2, a3])]
  {
    ArgumentRoundTrip(arg, [a0, a1, a2, a3]);
    assert Cmd(index, arg).Bytes()[..5] == [s, a0, a1, a2, a3];
  }

  /** The frames of CMD0 and CMD8 with argument 0x1AA end in the CRC bytes
      the standard quotes for them. */
  lemma KnownFrames()
    ensures Cmd(0, 0).Bytes() == [0x40, 0x00, 0x00, 0x00, 0x00, 0x95]
    ensures Cmd(8, 0x1AA).Bytes() == [0x48, 0x00, 0x00, 0x01, 0xAA, 0x87]
  {
    Crc7TestVectors();
    CmdLayout(0, 0, 0x40, 0x00, 0x00, 0x00, 0x00);
    CmdLayout(8, 0x1AA, 0x48, 0x00, 0x00, 0x01, 0xAA);
  }

  // ------------------------------------------------------------ registers

  /** Sizes of the responses the driver reads through SEND_CMD: R1 alone,
      R3 (R1 and the four OCR bytes) and R7 (R1 and four bytes); and of the
      CSD register. */
  const R1Size: nat := 1
  const R3Size: nat := 5
  const R7Size: nat := 5
  const CsdSize: nat := 16

  /** GET_VERSION_FROM_R7: the high nibble of the byte after R1. */
  function R7Version(r7: seq<byte>): (v: byte)
    requires |r7| == R7Size
    ensures v < 0x10
  {
    (r7[1] & 0xF0) >> 4
  }

  /** GET_VOLTAGE_FROM_R7: the low nibble of the byte at offset 3. */
  function R7Voltage(r7: seq<byte>): (v: byte)
    requires |r7| == R7Size
    ensures v < 0x10
  {
    r7[3] & 0x0F
  }

  /** The echo of the check pattern, the last byte of R7. */
  function R7Echo(r7: seq<byte>): byte
    requires |r7| == R7Size
  {
    r7[4]
  }

  /** An R7 response laid out from its fields (section 7.3.2.6 of the SD
      Physical Layer Simplified Specification), with arbitrary reserved
      bits. */
  function R7Layout(r1: byte, version: byte, voltage: byte, echo: byte, reserved: seq<byte>): (r7: seq<byte>)
    requires version < 0x10 && voltage < 0x10 && |reserved| == 3
    ensures |r7| == R7Size
  {
    [r1, (version << 4) | (reserved[0] & 0x0F), reserved[1], (reserved[2] & 0xF0) | voltage, echo]
  }

  /** The R7 accessors read back the fields of the standard's layout,
      whatever the reserved bits hold. */
  lemma R7FieldsRoundTrip(r1: byte, version: byte, voltage: byte, echo: byte, reserved: seq<byte>)
    requires version < 0x10 && voltage < 0x10 && |reserved| == 3
    ensures R7Layout(r1, version, voltage, echo, reserved)[0] == r1
    ensures R7Version(R7Layout(r1, version, voltage, echo, reserved)) == version
    ensures R7Voltage(R7Layout(r1, version, voltage, echo, reserved)) == voltage
    ensures R7Echo(R7Layout(r1, version, voltage, echo, reserved)) == echo
  {
    var r7 := R7Layout(r1, version, voltage, echo, reserved);
    assert r7[1] == (version << 4) | (reserved[0] & 0x0F);
    assert ((version << 4) | (reserved[0] & 0x0F)) & 0xF0 == version << 4;
    assert ((reserved[2] & 0xF0) | voltage) & 0x0F == voltage;
  }

  /** Bit `n` of the 32-bit OCR carried in bytes 1..4 of an R3 response,
      most significant byte first. */
  predicate OcrBit(r3: seq<byte>, n: nat)
    requires |r3| == R3Size && n < 32
  {
    BitOf(r3[4 - n / 8], n % 8)
  }

  /** The voltage test of the v1 and v2 initialisation: some window among
      OCR bits 16..20 and the window of bit 15. */
  predicate VoltageAccepted(r3: seq<byte>)
    requires |r3| == R3Size
  {
    r3[2] & 0x1F != 0 && r3[3] & 0x80 != 0
  }

  lemma VoltageAcceptedIsOcrWindows(r3: seq<byte>)
    requires |r3| == R3Size
    ensures VoltageAccepted(r3)
        <==> OcrBit(r3, 15) && (OcrBit(r3, 16) || OcrBit(r3, 17) || OcrBit(r3, 18) || OcrBit(r3, 19) || OcrBit(r3, 20))
  {
  }

  /** Bit `n` of the 128-bit CSD register received most significant byte
      first. */
  predicate CsdBit(csd: seq<byte>, n: nat)
    requires |csd| == CsdSize && n < 128
  {
    BitOf(csd[15 - n / 8], n % 8)
  }

  /** IS_PARTIAL_BLOCK_ALLOWED, the test `is_partial_block_possible` makes. */
  predicate PartialBlockAllowed(csd: seq<byte>)
    requires |csd| == CsdSize
  {
    csd[6] & 0x80 != 0
  }

  /** The test reads CSD bit 79, READ_BL_PARTIAL (section 5.3 of the SD
      Physical Layer Simplified Specification). */
  lemma PartialBlockIsCsdBit79(csd: seq<byte>)
    requires |csd| == CsdSize
    ensures PartialBlockAllowed(csd) <==> CsdBit(csd, 79)
  {
  }
}

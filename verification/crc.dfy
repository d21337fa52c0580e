/** The two checksums of SD SPI mode (section 4.5 of the SD Physical Layer
    Simplified Specification): CRC7 with generator x^7 + x^3 + 1 over a
    command, and CRC16-CCITT with generator x^16 + x^12 + x^5 + 1 over a data
    block. Both shift bits in most significant bit first from a zero register.
    The driver obtains them from a CRC library that is not part of this model;
    these are the definitions the standard gives. */
module Crc {
  import opened Codes

  /** The single-bit mask of bit `i` (bit 0 is the least significant). */
  function BitMask(i: nat): (m: byte)
    requires i < 8
  {
    if i == 0 then 0x01 else if i == 1 then 0x02 else if i == 2 then 0x04
    else if i == 3 then 0x08 else if i == 4 then 0x10 else if i == 5 then 0x20
    else if i == 6 then 0x40 else 0x80
  }

  /** Bit `i` of `b`. */
  function BitOf(b: byte, i: nat): bool
    requires i < 8
  {
    (b >> i) & 1 == 1
  }

  // ---------------------------------------------------------------- CRC7

  /** Shifts one message bit into the 7-bit CRC7 register. */
  function Crc7Bit(reg: bv8, bit: bool): (r: bv8)
    ensures r < 0x80
  {
    var feedback := (reg & 0x40 != 0) != bit;
    ((reg + reg) & 0x7F) ^ (if feedback then 0x09 else 0x00)
  }

  /** Shifts bits n-1 down to 0 of `b` into the register. */
  function Crc7Feed(reg: bv8, b: byte, n: nat): bv8
    requires n <= 8
    decreases n
  {
    if n == 0 then reg else Crc7Feed(Crc7Bit(reg, BitOf(b, n - 1)), b, n - 1)
  }

  function Crc7From(reg: bv8, s: seq<byte>): bv8
    decreases |s|
  {
    if |s| == 0 then reg else Crc7From(Crc7Feed(reg, s[0], 8), s[1..])
  }

  /** The last byte of a command frame: the CRC7 of `s` in bits 7..1 and the
      end bit 1 in bit 0. The driver stores the library's result directly in
      `crc_block`, so the library returns this whole byte. */
  function Crc7Trailer(s: seq<byte>): (t: byte)
    ensures t & 1 == 1
  {
    var c := Crc7From(0, s);
    (c + c) | 1
  }

  // --------------------------------------------------------------- CRC16

  /** Whether the register's top bit and the incoming bit differ, which is
      when the generator is subtracted. */
  function Crc16Feedback(reg: bv16, bit: bool): bool
  {
    (reg & 0x8000 != 0) != bit
  }

  /** Shifts one message bit into the CRC16-CCITT register. */
  function Crc16Bit(reg: bv16, bit: bool): bv16
  {
    (reg + reg) ^ (if Crc16Feedback(reg, bit) then 0x1021 else 0x0000)
  }

  function Crc16Feed(reg: bv16, b: byte, n: nat): bv16
    requires n <= 8
    decreases n
  {
    if n == 0 then reg else Crc16Feed(Crc16Bit(reg, BitOf(b, n - 1)), b, n - 1)
  }

  function Crc16From(reg: bv16, s: seq<byte>): bv16
    decreases |s|
  {
    if |s| == 0 then reg else Crc16From(Crc16Feed(reg, s[0], 8), s[1..])
  }

  function Crc16(s: seq<byte>): bv16
  {
    Crc16From(0, s)
  }

  /** The two bytes of the `crc_16_result` the library returns, in memory
      order (`i8[0]`, `i8[1]`). The layout of that type belongs to the CRC
      library; it is taken to be a 16-bit value on a little-endian core, so
      `i8[0]` is the low byte. */
  function Crc16Image(s: seq<byte>): (img: seq<byte>)
    ensures |img| == 2
  {
    var c := Crc16(s);
    [(c & 0x00FF) as byte, ((c & 0xFF00) / 0x100) as byte]
  }

  /** The CRC16 trailer in the order the standard puts it on the wire: high
      byte first. */
  function Crc16Wire(s: seq<byte>): (w: seq<byte>)
    ensures |w| == 2
  {
    var img := Crc16Image(s);
    [img[1], img[0]]
  }

  // ------------------------------------------- single-bit errors are caught

  /** `s` with bit `k` of byte `i` inverted. */
  function FlipBit(s: seq<byte>, i: nat, k: nat): (r: seq<byte>)
    requires i < |s| && k < 8
    ensures |r| == |s|
    ensures r[i] != s[i]
    ensures forall j | 0 <= j < |s| && j != i :: r[j] == s[j]
  {
    s[i := s[i] ^ BitMask(k)]
  }

  lemma FlipChangesOneBit(x: byte, k: nat, j: nat)
    requires k < 8 && j < 8
    ensures BitOf(x ^ BitMask(k), j) == (BitOf(x, j) != (j == k))
  {
    assert BitMask(k) == 1 << k;
    assert BitOf(x ^ BitMask(k), j) == ((x >> j) & 1 != (BitMask(k) >> j) & 1);
  }

  lemma DoubleInjective(r1: bv16, r2: bv16)
    requires r1 != r2 && r1 & 0x8000 == r2 & 0x8000
    ensures r1 + r1 != r2 + r2
  {
  }

  lemma Crc16BitInjectiveSet(r1: bv16, r2: bv16, bit: bool)
    requires r1 != r2 && Crc16Feedback(r1, bit) && Crc16Feedback(r2, bit)
    ensures Crc16Bit(r1, bit) != Crc16Bit(r2, bit)
  {
    DoubleInjective(r1, r2);
  }

  lemma Crc16BitInjectiveClear(r1: bv16, r2: bv16, bit: bool)
    requires r1 != r2 && !Crc16Feedback(r1, bit) && !Crc16Feedback(r2, bit)
    ensures Crc16Bit(r1, bit) != Crc16Bit(r2, bit)
  {
    DoubleInjective(r1, r2);
  }

  /** With and without the generator the low bit differs. */
  lemma Crc16BitParity(r1: bv16, r2: bv16, bit1: bool, bit2: bool)
    requires Crc16Feedback(r1, bit1) && !Crc16Feedback(r2, bit2)
    ensures Crc16Bit(r1, bit1) != Crc16Bit(r2, bit2)
  {
  }

  /** One register step is injective in the register: distinct registers stay
      distinct, because the generator has a constant term. */
  lemma Crc16BitInjective(r1: bv16, r2: bv16, bit: bool)
    requires r1 != r2
    ensures Crc16Bit(r1, bit) != Crc16Bit(r2, bit)
  {
    if Crc16Feedback(r1, bit) && Crc16Feedback(r2, bit) {
      Crc16BitInjectiveSet(r1, r2, bit);
    } else if !Crc16Feedback(r1, bit) && !Crc16Feedback(r2, bit) {
      Crc16BitInjectiveClear(r1, r2, bit);
    } else if Crc16Feedback(r1, bit) {
      Crc16BitParity(r1, r2, bit, bit);
    } else {
      Crc16BitParity(r2, r1, bit, bit);
    }
  }

  /** From one register, two different message bits give different registers. */
  lemma Crc16BitSeparates(r: bv16, bit: bool)
    ensures Crc16Bit(r, bit) != Crc16Bit(r, !bit)
  {
    if Crc16Feedback(r, bit) {
      Crc16BitParity(r, r, bit, !bit);
    } else {
      Crc16BitParity(r, r, !bit, bit);
    }
  }

  lemma {:induction false} Crc16FeedInjective(r1: bv16, r2: bv16, x: byte, y: byte, n: nat)
    requires n <= 8 && r1 != r2
    requires forall j | 0 <= j < n :: BitOf(x, j) == BitOf(y, j)
    ensures Crc16Feed(r1, x, n) != Crc16Feed(r2, y, n)
    decreases n
  {
    if n > 0 {
      Crc16BitInjective(r1, r2, BitOf(x, n - 1));
      Crc16FeedInjective(Crc16Bit(r1, BitOf(x, n - 1)), Crc16Bit(r2, BitOf(y, n - 1)), x, y, n - 1);
    }
  }

  lemma {:induction false} Crc16FeedSeparates(r: bv16, x: byte, k: nat, n: nat)
    requires k < n <= 8
    ensures Crc16Feed(r, x, n) != Crc16Feed(r, x ^ BitMask(k), n)
    decreases n
  {
    var y := x ^ BitMask(k);
    FlipChangesOneBit(x, k, n - 1);
    if n - 1 == k {
      Crc16BitSeparates(r, BitOf(x, k));
      forall j | 0 <= j < n - 1
        ensures BitOf(x, j) == BitOf(y, j)
      {
        FlipChangesOneBit(x, k, j);
      }
      Crc16FeedInjective(Crc16Bit(r, BitOf(x, k)), Crc16Bit(r, BitOf(y, k)), x, y, n - 1);
    } else {
      Crc16FeedSeparates(Crc16Bit(r, BitOf(x, n - 1)), x, k, n - 1);
    }
  }

  lemma {:induction false} Crc16FromInjective(r1: bv16, r2: bv16, s: seq<byte>)
    requires r1 != r2
    ensures Crc16From(r1, s) != Crc16From(r2, s)
    decreases |s|
  {
    if |s| > 0 {
      Crc16FeedInjective(r1, r2, s[0], s[0], 8);
      Crc16FromInjective(Crc16Feed(r1, s[0], 8), Crc16Feed(r2, s[0], 8), s[1..]);
    }
  }

  lemma {:induction false} Crc16FromAppend(r: bv16, a: seq<byte>, b: seq<byte>)
    ensures Crc16From(r, a + b) == Crc16From(Crc16From(r, a), b)
    decreases |a|
  {
    if |a| > 0 {
      assert (a + b)[1..] == a[1..] + b;
      Crc16FromAppend(Crc16Feed(r, a[0], 8), a[1..], b);
    } else {
      assert a + b == b;
    }
  }

  /** Inverting any single bit of a block changes its CRC16, so the data-block
      check never misses a one-bit transmission error. */
  lemma Crc16DetectsSingleBitFlip(s: seq<byte>, i: nat, k: nat)
    requires i < |s| && k < 8
    ensures Crc16(FlipBit(s, i, k)) != Crc16(s)
  {
    var t := FlipBit(s, i, k);
    assert s == s[..i] + ([s[i]] + s[i + 1..]);
    assert t == s[..i] + ([t[i]] + s[i + 1..]);
    Crc16FromAppend(0, s[..i], [s[i]] + s[i + 1..]);
    Crc16FromAppend(0, s[..i], [t[i]] + s[i + 1..]);
    var r := Crc16From(0, s[..i]);
    assert ([s[i]] + s[i + 1..])[1..] == s[i + 1..];
    assert ([t[i]] + s[i + 1..])[1..] == s[i + 1..];
    Crc16FeedSeparates(r, s[i], k, 8);
    Crc16FromInjective(Crc16Feed(r, s[i], 8), Crc16Feed(r, t[i], 8), s[i + 1..]);
  }

  /** Different CRC16 values have different byte images. */
  lemma Crc16ImageInjective(s: seq<byte>, t: seq<byte>)
    requires Crc16(s) != Crc16(t)
    ensures Crc16Image(s) != Crc16Image(t)
  {
  }

  /** The canonical CRC7 check values of the SD specification: CMD0 with
      argument 0 ends in 0x95 and CMD8 with argument 0x1AA ends in 0x87. */
  lemma Crc7TestVectors()
    ensures Crc7Trailer([0x40, 0x00, 0x00, 0x00, 0x00]) == 0x95
    ensures Crc7Trailer([0x48, 0x00, 0x00, 0x01, 0xAA]) == 0x87
  {
    assert Crc7Feed(0x00, 0x40, 8) == 0x64;
    assert Crc7Feed(0x64, 0x00, 8) == 0x6D;
    assert Crc7Feed(0x6D, 0x00, 8) == 0x66;
    assert Crc7Feed(0x66, 0x00, 8) == 0x49;
    assert Crc7Feed(0x49, 0x00, 8) == 0x4A;
    assert Crc7From(0, [0x40, 0x00, 0x00, 0x00, 0x00]) == 0x4A;
    assert Crc7Feed(0x00, 0x48, 8) == 0x2C;
    assert Crc7Feed(0x2C, 0x00, 8) == 0x35;
    assert Crc7Feed(0x35, 0x00, 8) == 0x0C;
    assert Crc7Feed(0x0C, 0x01, 8) == 0x58;
    assert Crc7Feed(0x58, 0xAA, 8) == 0x43;
    assert Crc7From(0, [0x48, 0x00, 0x00, 0x01, 0xAA]) == 0x43;
  }

  /** The CRC16-CCITT check values with a zero initial register (the
      variant the SD Physical Layer Simplified Specification uses): the
      ASCII string "123456789" gives 0x31C3 and the single byte 0x01 gives
      the generator 0x1021 itself. */
  lemma Crc16TestVectors()
    ensures Crc16([0x31, 0x32, 0x33, 0x34, 0x35, 0x36, 0x37, 0x38, 0x39]) == 0x31C3
    ensures Crc16([0x01]) == 0x1021
  {
    assert Crc16Feed(0x0000, 0x31, 8) == 0x2672;
    assert Crc16Feed(0x2672, 0x32, 8) == 0x20B5;
    assert Crc16Feed(0x20B5, 0x33, 8) == 0x9752;
    assert Crc16Feed(0x9752, 0x34, 8) == 0xD789;
    assert Crc16Feed(0xD789, 0x35, 8) == 0x546C;
    assert Crc16Feed(0x546C, 0x36, 8) == 0x20E4;
    assert Crc16Feed(0x20E4, 0x37, 8) == 0x86D6;
    assert Crc16Feed(0x86D6, 0x38, 8) == 0x9015;
    assert Crc16Feed(0x9015, 0x39, 8) == 0x31C3;
    assert Crc16Feed(0x0000, 0x01, 8) == 0x1021;
  }
}

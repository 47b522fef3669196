/** The Toyota encoder of encoders/devices/toyota.py: a nine-byte frame with
    pressure and temperature split across byte boundaries, an inverted
    pressure copy and a CRC-8 with initial value 0x80, sent after a 16-bit
    preamble and a "01" start marker in differential Manchester code. */
module Toyota {
  import opened Results
  import opened PyInt
  import opened BitUtils
  import BitwiseCrc

  /** The keys of the `fields` dictionary that `create_packet` reads; the
      pressure and temperature are integers (see `PressureRaw`). */
  datatype Fields = Fields(id: int, pressure: int, tempC: int)

  const PreambleBytes: seq<int> := [0x55, 0x3C]

  /** `PREAMBLE`: the bits of 0x55 0x3C. */
  const Preamble: string := BytesToBits(PreambleBytes)

  /** The fixed `status` value of byte 6. */
  const Status := 1

  /** `int((pressure_raw + 7.0) * 4)`: exact for an integral pressure. */
  function PressureRaw(pressure: int): int {
    4 * (pressure + 7)
  }

  /** `int(temp_c + 40.0)`: exact for an integral temperature. */
  function TempRaw(tempC: int): int {
    tempC + 40
  }

  /** `x & 0x80` for a non-negative `x`: bit 7 kept in place. */
  function Bit7(x: nat): int {
    x / 128 % 2 * 128
  }

  /** Bytes 0 to 7: the id big-endian; byte 4 is `(1 & 0x80) | (pr >> 1 & 0x7F)`
      whose first operand is 0; byte 5 is `((pr & 1) << 7) | (tr >> 1 & 0x7F)`;
      byte 6 is `((tr & 1) << 7) | (status & 0x7F)`; byte 7 is `pr ^ 0xFF`
      with no mask. The `|` operands never share a bit, so each is a sum. */
  function Header(f: Fields): seq<int> {
    var pr := PressureRaw(f.pressure);
    var tr := TempRaw(f.tempC);
    [ Lo(f.id / 16777216), Lo(f.id / 65536), Lo(f.id / 256), Lo(f.id),
      Bit7(1) + pr / 2 % 128,
      pr % 2 * 128 + tr / 2 % 128,
      tr % 2 * 128 + Status % 128,
      Xor(pr, 0xFF) ]
  }

  /** The list `b` of `create_packet`: the header and, in slot 8,
      `crc8(b, nbytes=8, polynomial=0x07, init=0x80)`. */
  function Frame(f: Fields): (r: seq<int>)
    ensures |r| == 9 && r[..8] == Header(f)
  {
    var b := Header(f) + [0];
    b[8 := BitwiseCrc.Crc8(b, 8, 0x07, 0x80)]
  }

  /** `create_packet(fields)`: "01" and the differential Manchester code of
      the frame's bits. `diffManchester` stands for
      `differential_manchester_encode`, which encoders/manchester.py does not
      define. */
  function CreatePacket(f: Fields, diffManchester: string -> string): string {
    "01" + diffManchester(BytesToBits(Frame(f)))
  }

  /** `encode_message(...)`: `pressure_raw` is `int(pressure_kpa)`, taken
      here as the integer it produces; `flags` is put into the dictionary
      but `create_packet` never reads it. */
  function EncodeMessage(sensorId: int, pressure: int, temperatureC: int, flags: Option<int>,
                         diffManchester: string -> string): string
  {
    Preamble + CreatePacket(Fields(sensorId, pressure, temperatureC), diffManchester)
  }

  // ---------------------------------------------------------------------

  lemma PreambleShape()
    ensures |Preamble| == 16 && IsBinary(Preamble)
  {
    BytesToBitsShape(PreambleBytes);
  }

  /** The frame is the header followed by the CRC-8 of the header. */
  lemma FrameLayout(f: Fields)
    ensures Frame(f) == Header(f) + [BitwiseCrc.Crc8(Header(f), 8, 0x07, 0x80)]
  {
    var h := Header(f);
    assert Prefix(h + [0], 8) == Prefix(h, 8);
    BitwiseCrc.CrcReadsPrefix(h + [0], h, 8, 0x07, 0x80);
  }

  /** The fields can be read back across the byte boundaries: the pressure's
      low byte from byte 4's low seven bits and byte 5's top bit, the
      temperature's low byte from byte 5's low seven bits and byte 6's top
      bit. Byte 4's top bit is never set, since `1 & 0x80` is 0, and byte 6's
      low seven bits always hold the status 1. Bytes 0 to 3 are the id's low
      32 bits big-endian, and byte 8 is the CRC of bytes 0 to 7. */
  lemma FrameFields(f: Fields)
    ensures var r := Frame(f);
      && r[0] * 16777216 + r[1] * 65536 + r[2] * 256 + r[3] == f.id % 4294967296
      && 0 <= r[4] < 128
      && r[4] % 128 * 2 + r[5] / 128 == Lo(PressureRaw(f.pressure))
      && r[5] % 128 * 2 + r[6] / 128 == Lo(TempRaw(f.tempC))
      && r[6] % 128 == Status
      && r[8] == BitwiseCrc.Crc8(r[..8], 8, 0x07, 0x80)
  {
    FrameLayout(f);
    HeaderId(f);
    HeaderSplit(f);
  }

  /** Bytes 0 to 3 of the header are the id's low 32 bits, big-endian. */
  lemma HeaderId(f: Fields)
    ensures var h := Header(f);
      h[0] * 16777216 + h[1] * 65536 + h[2] * 256 + h[3] == f.id % 4294967296
  {
    Bytes32(f.id);
  }

  /** Bytes 4 to 6 of the header carry the pressure and temperature across
      the byte boundaries. */
  lemma HeaderSplit(f: Fields)
    ensures var h, pr, tr := Header(f), PressureRaw(f.pressure), TempRaw(f.tempC);
      && 0 <= h[4] < 128
      && h[4] % 128 * 2 + h[5] / 128 == Lo(pr)
      && h[5] % 128 * 2 + h[6] / 128 == Lo(tr)
      && h[6] % 128 == Status
  {
    var h := Header(f);
    var pr, tr := PressureRaw(f.pressure), TempRaw(f.tempC);
    assert 0 <= h[4] < 128 && h[4] % 128 * 2 + h[5] / 128 == Lo(pr) by {
      assert Bit7(1) == 0;
      var a := pr / 2 % 128;
      assert h[4] == a && 0 <= a < 128;
      assert a % 128 == a;
      SplitAcross(pr, tr);
    }
    assert h[5] % 128 * 2 + h[6] / 128 == Lo(tr) && h[6] % 128 == Status by {
      SplitAcross(pr, tr);
      SplitAcross(tr, 2);
    }
  }

  /** `x` split as its bits 1..7 in one byte and bit 0 on top of the next,
      whose low seven bits take bits 1..7 of `y`. */
  lemma SplitAcross(x: int, y: int)
    ensures var next := x % 2 * 128 + y / 2 % 128;
      && next / 128 == x % 2 && next % 128 == y / 2 % 128
      && x / 2 % 128 * 2 + x % 2 == Lo(x)
  {
    DivModUnique(x % 2 * 128 + y / 2 % 128, 128, x % 2, y / 2 % 128);
    ModSplit(x, 128);
  }

  /** The CRC over all nine bytes is 0, for this initial value too. */
  lemma FrameChecksum(f: Fields)
    ensures BitwiseCrc.Crc8(Frame(f), 9, 0x07, 0x80) == 0
  {
    var r := Frame(f);
    FrameFields(f);
    assert Prefix(r[..8], 8) == r[..8];
    BitwiseCrc.CrcResidue(r[..8], 0x07, 0x80);
    assert r[..8] + [r[8]] == r;
  }

  /** Byte 7, `pressure_raw ^ 0xFF` without a mask, is a byte exactly when
      `pressure_raw` is, that is for pressures -7 to 56; it is then the
      complement of the pressure byte. A larger value widens it and a
      negative one makes it negative. */
  lemma InvertedPressure(f: Fields)
    ensures var pr, b7 := PressureRaw(f.pressure), Frame(f)[7];
      && (0 <= b7 < 256 <==> 0 <= pr < 256)
      && (0 <= pr < 256 <==> -7 <= f.pressure <= 56)
      && (0 <= pr < 256 ==> b7 == 255 - pr)
      && (pr >= 256 ==> b7 >= 256)
      && (pr < 0 ==> b7 < 0)
  {
    var pr := PressureRaw(f.pressure);
    Pow2Byte();
    XorSign(pr, 0xFF);
    if pr >= 256 {
      XorAbove(pr, 0xFF, 8);
    } else if pr >= 0 {
      XorOnes(pr, 8);
    }
  }

  /** Bytes 0 to 6 and 8 are always bytes, so the frame is a frame of bytes
      exactly when the pressure is in -7..56. */
  lemma FrameBytes(f: Fields)
    ensures AllBytes(Frame(f)) <==> -7 <= f.pressure <= 56
  {
    var r := Frame(f);
    FrameFields(f);
    InvertedPressure(f);
    BitwiseCrc.CrcIsByte(Header(f) + [0], 8, 0x07, 0x80);
    assert 0 <= r[7] < 256 <==> -7 <= f.pressure <= 56;
  }

  /** A whole-kPa pressure makes `pressure_raw` a multiple of four, so byte
      5's top bit, which carries the pressure's lowest bit, is never set
      either. */
  lemma WholeKpa(f: Fields)
    ensures PressureRaw(f.pressure) % 4 == 0
    ensures Frame(f)[5] < 128
  {
    ModShift(0, f.pressure + 7, 4);
    ModShift(0, 2 * (f.pressure + 7), 2);
  }

  /** The message is the 16-bit preamble, the start marker "01" and the
      differential Manchester code of the frame's bits; `flags` changes
      nothing. */
  lemma MessageShape(sensorId: int, pressure: int, temperatureC: int, flags: Option<int>, other: Option<int>,
                     diffManchester: string -> string)
    ensures var m := EncodeMessage(sensorId, pressure, temperatureC, flags, diffManchester);
      && m == EncodeMessage(sensorId, pressure, temperatureC, other, diffManchester)
      && m[..16] == Preamble && m[16..18] == "01"
      && m[18..] == diffManchester(BytesToBits(Frame(Fields(sensorId, pressure, temperatureC))))
  {
    var tail := diffManchester(BytesToBits(Frame(Fields(sensorId, pressure, temperatureC))));
    PreambleShape();
    Split3(Preamble, "01", tail);
  }
}

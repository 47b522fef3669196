/** The Mazda encoder of encoders/devices/mazda.py: a nine-byte frame closed
    by an XOR checksum, sent Manchester-coded and inverted after a 24-bit
    preamble. */
module Mazda {
  import opened Results
  import opened PyInt
  import opened BitUtils
  import Framing
  import Manchester

  /** The keys of the `fields` dictionary that `create_packet` reads. */
  datatype Fields = Fields(id: int, flags: int, pressureRaw: int, tempC: int, unknown: int)

  const PreambleBytes: seq<int> := [0x55, 0x55, 0x56]

  /** `PREAMBLE`: the bits of 0x55 0x55 0x56. */
  const Preamble: string := BytesToBits(PreambleBytes)

  /** The defaults `encode_message` substitutes for `flags` and `extra`. */
  const DefaultFlags := 80
  const DefaultExtra := 1

  /** `xor_bytes(bs)`, which utils/bitutils.py does not define; modelled as
      the XOR of all elements, starting from 0. */
  function XorAll(bs: seq<int>): int
    decreases |bs|
  {
    if bs == [] then 0 else Xor(XorAll(bs[..|bs| - 1]), bs[|bs| - 1])
  }

  /** Bytes 0 to 7: the sensor id big-endian, then the masked flags, the
      scaled pressure, the offset temperature and `unknown`. `scale` is the
      conversion `int(pressure_raw / 1.38)`, whose float arithmetic is not
      modelled. */
  function Header(f: Fields, scale: int -> int): seq<int> {
    [ Lo(f.id / 16777216), Lo(f.id / 65536), Lo(f.id / 256), Lo(f.id),
      Lo(f.flags), Lo(scale(f.pressureRaw)), Lo(f.tempC + 50), Lo(f.unknown) ]
  }

  /** The list `b` of `create_packet`: the header and, in slot 8,
      `xor_bytes(b[0:8])`. */
  function Frame(f: Fields, scale: int -> int): (r: seq<int>)
    ensures |r| == 9 && r[..8] == Header(f, scale)
  {
    var b := Header(f, scale) + [0];
    b[8 := XorAll(b[0..8])]
  }

  /** `create_packet(fields)`: the Manchester line bits of the frame. */
  function CreatePacket(f: Fields, scale: int -> int): Result<string> {
    Framing.EncodeFrame(Frame(f, scale))
  }

  /** The fields `encode_message` builds; `pressure_raw` is `int(pressure_kpa)`,
      taken here as the integer it produces. */
  function MessageFields(sensorId: int, pressureRaw: int, temperatureC: int, flags: Option<int>, extra: Option<int>): Fields {
    Fields(sensorId, flags.GetOr(DefaultFlags), pressureRaw, temperatureC, extra.GetOr(DefaultExtra))
  }

  /** `encode_message(...)`: the preamble and the inverted line bits. */
  function EncodeMessage(sensorId: int, pressureRaw: int, temperatureC: int,
                         flags: Option<int>, extra: Option<int>, scale: int -> int): Result<string>
  {
    Framing.Transmit(Preamble, Frame(MessageFields(sensorId, pressureRaw, temperatureC, flags, extra), scale))
  }

  // ---------------------------------------------------------------------

  lemma PreambleShape()
    ensures |Preamble| == 24 && IsBinary(Preamble)
  {
    BytesToBitsShape(PreambleBytes);
  }

  /** The XOR of bytes is a byte. */
  lemma {:induction false} XorAllByte(bs: seq<int>)
    requires AllBytes(bs)
    ensures 0 <= XorAll(bs) < 256
    decreases |bs|
  {
    if bs != [] {
      XorAllByte(bs[..|bs| - 1]);
      XorBytes(XorAll(bs[..|bs| - 1]), bs[|bs| - 1]);
    }
  }

  /** Appending the XOR of a list makes the XOR of the whole 0. */
  lemma XorAllClosed(bs: seq<int>)
    ensures XorAll(bs + [XorAll(bs)]) == 0
  {
    assert (bs + [XorAll(bs)])[..|bs|] == bs;
    XorSelf(XorAll(bs));
  }

  /** Every field can be read back: the low 32 bits of the id from bytes 0 to
      3 (big-endian), the masked flags, scaled pressure and `unknown`, the
      temperature from byte 2's offset; byte 8 is the XOR of bytes 0 to 7 and
      the XOR of all nine bytes is 0. */
  lemma FrameFields(f: Fields, scale: int -> int)
    ensures var r := Frame(f, scale);
      && r[0] * 16777216 + r[1] * 65536 + r[2] * 256 + r[3] == f.id % 4294967296
      && r[4] == Lo(f.flags)
      && r[5] == Lo(scale(f.pressureRaw))
      && Lo(r[6] - 50) == Lo(f.tempC)
      && r[7] == Lo(f.unknown)
      && r[8] == XorAll(r[..8])
      && XorAll(r) == 0
  {
    var h := Header(f, scale);
    assert Frame(f, scale) == h + [XorAll(h)];
    assert h[0] * 16777216 + h[1] * 65536 + h[2] * 256 + h[3] == f.id % 4294967296 by {
      Bytes32(f.id);
    }
    assert Lo(h[6] - 50) == Lo(f.tempC) by {
      LoOffset(f.tempC, 50);
    }
    XorAllClosed(h);
  }

  /** Every byte is masked, so the frame is always nine bytes. */
  lemma FrameBytes(f: Fields, scale: int -> int)
    ensures AllBytes(Frame(f, scale))
  {
    XorAllByte(Header(f, scale));
  }

  /** `encode_message` never raises and always gives 168 bits, whatever the
      inputs; a receiver that drops the preamble, inverts and
      Manchester-decodes gets the frame's bits back, and `bits_to_bytes`
      turns them into the frame. */
  lemma MessageLength(sensorId: int, pressureRaw: int, temperatureC: int,
                      flags: Option<int>, extra: Option<int>, scale: int -> int)
    ensures var m := EncodeMessage(sensorId, pressureRaw, temperatureC, flags, extra, scale);
      var frame := Frame(MessageFields(sensorId, pressureRaw, temperatureC, flags, extra), scale);
      && m.Ok?
      && |m.value| == 168
      && Manchester.Decode(Invert(m.value[24..]), 0, 0) == Ok((BytesToBits(frame), 144))
      && BitsToBytes(BytesToBits(frame)) == Ok(frame)
  {
    var frame := Frame(MessageFields(sensorId, pressureRaw, temperatureC, flags, extra), scale);
    FrameBytes(MessageFields(sensorId, pressureRaw, temperatureC, flags, extra), scale);
    PreambleShape();
    Framing.TransmitLength(Preamble, frame);
    Framing.ReceiveFrame(Preamble, frame);
    BytesRoundTrip(frame);
  }

  /** Byte 5 depends on the pressure alone: two readings with the same
      pressure agree there, whatever their other fields. */
  lemma PressureByte(f: Fields, g: Fields, scale: int -> int)
    requires f.pressureRaw == g.pressureRaw
    ensures Frame(f, scale)[5] == Frame(g, scale)[5]
    ensures Frame(f, scale)[5] == Lo(scale(f.pressureRaw))
  {
  }
}

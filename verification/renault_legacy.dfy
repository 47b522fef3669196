/** The older Renault encoder of encoders/renault.py: the same nine-byte
    layout with bytes 6 and 7 fixed to 0xFF, stored in a `bytearray` (so an
    out-of-range byte 0 raises), checked with the table-driven CRC-8 of
    modulation/utils.py, and preceded by a preamble of integer bits. */
module RenaultLegacy {
  import opened Results
  import opened PyInt
  import opened BitUtils
  import BitwiseCrc
  import TableCrc
  import Renault

  const PreambleBytes: seq<int> := [0xAA, 0xAA, 0xAA, 0xA9]

  /** The default `flags` of `create_packet` and `encode_message`. */
  const DefaultFlags := 0xD0

  /** Byte 0 before it is stored: `(flags << 2) | pressure_msb`. The two
      operands share no bit, so the `|` is a sum. */
  function Byte0(pressureRaw: int, flags: int): int {
    flags * 4 + pressureRaw / 256 % 4
  }

  /** Bytes 0 to 7 of the packet. */
  function Header(sensorId: int, pressureRaw: int, temperatureC: int, flags: int): seq<int> {
    [ Byte0(pressureRaw, flags), Lo(pressureRaw), Lo(temperatureC + 30),
      Lo(sensorId), Lo(sensorId / 256), Lo(sensorId / 65536), 0xFF, 0xFF ]
  }

  /** `create_packet(...)`: `pressure_raw` is `int(pressure_kpa / 0.75)` and
      the temperature `int(temperature_c + 30)`, taken here as the integers
      they produce. Storing byte 0 into the `bytearray` raises ValueError
      unless it is in 0..255, which happens exactly when `flags` is in
      0..63; byte 8 is `crc8(packet[:8])` with polynomial 0x07 and initial
      value 0. */
  function CreatePacket(sensorId: int, pressureRaw: int, temperatureC: int, flags: int): (r: Result<seq<int>>)
    ensures r.Ok? <==> 0 <= flags < 64
    ensures r.Err? ==> r.error == ValueError
    ensures r.Ok? ==> |r.value| == 9 && AllBytes(r.value) && r.value[..8] == Header(sensorId, pressureRaw, temperatureC, flags)
  {
    var b0 := Byte0(pressureRaw, flags);
    if !(0 <= b0 < 256) then Err(ValueError)
    else
      var header := Header(sensorId, pressureRaw, temperatureC, flags);
      TableCrc.TableMatchesBitwise(header, 0x07, 0x00);
      BitwiseCrc.CrcIsByte(header, 8, 0x07, 0x00);
      match TableCrc.Crc8(header, 0x07, 0x00)
      case Ok(crc) => Ok(header + [crc])
      case Err(e) => Err(e)
  }

  /** `(byte >> i) & 1` for `i` from 7 down to 0: the bits of `b`, most
      significant first, as integers. */
  function ByteBits(b: int): seq<int> {
    [b / 128 % 2, b / 64 % 2, b / 32 % 2, b / 16 % 2, b / 8 % 2, b / 4 % 2, b / 2 % 2, b % 2]
  }

  /** The loop of `encode_message` that expands bytes into a list of bits. */
  function ExpandBits(bs: seq<int>): (r: seq<int>)
    ensures |r| == 8 * |bs|
    ensures forall i :: 0 <= i < |r| ==> r[i] == 0 || r[i] == 1
    decreases |bs|
  {
    if bs == [] then [] else ByteBits(bs[0]) + ExpandBits(bs[1..])
  }

  /** `preamble_bits`. */
  const Preamble: seq<int> := ExpandBits(PreambleBytes)

  /** `encode_message(...)`: the preamble bits and the packet as coded by
      `manchester`, which stands for `ManchesterTPMSEncoder.manchester_encode`
      (encoders/base.py does not define that class). An error of
      `create_packet` propagates. */
  function EncodeMessage(sensorId: int, pressureRaw: int, temperatureC: int, flags: int,
                         manchester: seq<int> -> seq<int>): Result<seq<int>>
  {
    var packet :- CreatePacket(sensorId, pressureRaw, temperatureC, flags);
    Ok(Preamble + manchester(packet))
  }

  // ---------------------------------------------------------------------

  /** With its defaults `create_packet` cannot succeed: 0xD0 shifted left by
      two is 832, which no `bytearray` element can hold. */
  lemma DefaultFlagsRaise(sensorId: int, pressureRaw: int, temperatureC: int)
    ensures CreatePacket(sensorId, pressureRaw, temperatureC, DefaultFlags) == Err(ValueError)
    ensures Byte0(pressureRaw, DefaultFlags) >= 832
  {
  }

  /** Whenever it succeeds, the older encoder builds exactly the frame of the
      current one (encoders/devices/renault.py) with `unknown` set to
      0xFFFF: the same byte layout and the same CRC, computed by the table
      instead of bit by bit. */
  lemma MatchesCurrent(sensorId: int, pressureRaw: int, temperatureC: int, flags: int)
    requires 0 <= flags < 64
    ensures CreatePacket(sensorId, pressureRaw, temperatureC, flags)
      == Ok(Renault.Frame(Renault.Fields(flags, sensorId, pressureRaw, temperatureC, 0xFFFF)))
  {
    var f := Renault.Fields(flags, sensorId, pressureRaw, temperatureC, 0xFFFF);
    var header := Header(sensorId, pressureRaw, temperatureC, flags);
    assert Renault.Header(f) == header by {
      assert Lo(flags) == flags;
    }
    Renault.FrameLayout(f);
    assert CreatePacket(sensorId, pressureRaw, temperatureC, flags)
        == Ok(header + [BitwiseCrc.Crc8(header, 8, 0x07, 0x00)]) by {
      TableCrc.TableMatchesBitwise(header, 0x07, 0x00);
    }
  }

  /** What the older layout adds to the current one (whose fields
      `MatchesCurrent` and `Renault.FrameFields` read back): `flags` comes
      back whole from byte 0, bytes 6 and 7 are the 0xFF fillers, byte 8 is
      the table CRC of bytes 0 to 7, and the CRC over all nine bytes is 0. */
  lemma PacketFields(sensorId: int, pressureRaw: int, temperatureC: int, flags: int)
    requires 0 <= flags < 64
    ensures var r := CreatePacket(sensorId, pressureRaw, temperatureC, flags).value;
      && r[0] / 4 == flags
      && r[6] == 0xFF && r[7] == 0xFF
      && TableCrc.Crc8(r[..8], 0x07, 0x00) == Ok(r[8])
      && BitwiseCrc.Crc8(r, 9, 0x07, 0x00) == 0
  {
    var f := Renault.Fields(flags, sensorId, pressureRaw, temperatureC, 0xFFFF);
    var r := CreatePacket(sensorId, pressureRaw, temperatureC, flags).value;
    MatchesCurrent(sensorId, pressureRaw, temperatureC, flags);
    assert r[0] / 4 == flags by {
      Renault.FrameFields(f);
    }
    assert TableCrc.Crc8(r[..8], 0x07, 0x00) == Ok(r[8]) by {
      Renault.FrameLayout(f);
      assert r[..8] == Renault.Header(f);
      TableCrc.TableMatchesBitwise(r[..8], 0x07, 0x00);
    }
    Renault.FrameChecksum(f);
  }

  /** The bits of a byte, read as characters, are its 8-bit numeral. */
  lemma ByteBitsFixed(b: int)
    ensures forall i :: 0 <= i < 8 ==> Fixed(b, 8)[i] == BitChar(ByteBits(b)[i])
  {
    assert Pow2(1) == 2 && Pow2(2) == 4 && Pow2(3) == 8 && Pow2(4) == 16;
    assert Pow2(5) == 32 && Pow2(6) == 64 && Pow2(7) == 128;
    forall i | 0 <= i < 8
      ensures Fixed(b, 8)[i] == BitChar(ByteBits(b)[i])
    {
      FixedAt(b, 8, i);
    }
  }

  /** The integer bits agree, position by position, with the string that
      `bytes_to_bits` of utils/bitutils.py makes from the same bytes. */
  lemma {:induction false} ExpandMatchesBits(bs: seq<int>)
    requires AllBytes(bs)
    ensures |ExpandBits(bs)| == 8 * |bs| == |BytesToBits(bs)|
    ensures forall j :: 0 <= j < 8 * |bs| ==> BytesToBits(bs)[j] == BitChar(ExpandBits(bs)[j])
    decreases |bs|
  {
    if bs != [] {
      ExpandMatchesBits(bs[1..]);
      ByteBitsFixed(bs[0]);
      FormatByte(bs[0]);
      assert BytesToBits(bs) == Fixed(bs[0], 8) + BytesToBits(bs[1..]);
      BytesToBitsShape(bs[1..]);
    }
  }

  /** Two bit lists of the same length that differ in every position. */
  predicate Complementary(x: seq<int>, y: seq<int>) {
    |x| == |y| && forall i :: 0 <= i < |x| ==> x[i] == 1 - y[i]
  }

  /** The bytes of both preambles have complementary bits. */
  lemma ByteComplement(a: int, b: int)
    requires (a == 0xAA && b == 0x55) || (a == 0xA9 && b == 0x56)
    ensures Complementary(ByteBits(a), ByteBits(b))
  {
    if a == 0xAA {
      assert ByteBits(a) == [1, 0, 1, 0, 1, 0, 1, 0];
      assert ByteBits(b) == [0, 1, 0, 1, 0, 1, 0, 1];
    } else {
      assert ByteBits(a) == [1, 0, 1, 0, 1, 0, 0, 1];
      assert ByteBits(b) == [0, 1, 0, 1, 0, 1, 1, 0];
    }
  }

  /** Expanding byte lists whose bytes are pairwise complementary gives
      complementary bit lists. */
  lemma {:induction false} ExpandComplement(xs: seq<int>, ys: seq<int>)
    requires |xs| == |ys|
    requires forall i :: 0 <= i < |xs| ==> Complementary(ByteBits(xs[i]), ByteBits(ys[i]))
    ensures Complementary(ExpandBits(xs), ExpandBits(ys))
    decreases |xs|
  {
    if xs != [] {
      ExpandComplement(xs[1..], ys[1..]);
      var hx, hy := ByteBits(xs[0]), ByteBits(ys[0]);
      var tx, ty := ExpandBits(xs[1..]), ExpandBits(ys[1..]);
      assert Complementary(hx, hy);
      forall j | 0 <= j < |hx + tx|
        ensures (hx + tx)[j] == 1 - (hy + ty)[j]
      {
        if j >= 8 {
          assert (hx + tx)[j] == tx[j - 8] && (hy + ty)[j] == ty[j - 8];
        }
      }
    }
  }

  /** Byte by byte, the two preambles are complements. */
  lemma PreamblePairs()
    ensures |PreambleBytes| == |Renault.PreambleBytes|
    ensures forall i :: 0 <= i < |PreambleBytes| ==> Complementary(ByteBits(PreambleBytes[i]), ByteBits(Renault.PreambleBytes[i]))
  {
    forall i | 0 <= i < |PreambleBytes|
      ensures Complementary(ByteBits(PreambleBytes[i]), ByteBits(Renault.PreambleBytes[i]))
    {
      assert (PreambleBytes[i] == 0xAA && Renault.PreambleBytes[i] == 0x55)
          || (PreambleBytes[i] == 0xA9 && Renault.PreambleBytes[i] == 0x56);
      ByteComplement(PreambleBytes[i], Renault.PreambleBytes[i]);
    }
  }

  /** Expanding bytes complementary to `ys` gives the inverse of
      `bytes_to_bits(ys)`. */
  lemma ExpandInverts(xs: seq<int>, ys: seq<int>)
    requires |xs| == |ys| && AllBytes(ys)
    requires forall i :: 0 <= i < |xs| ==> Complementary(ByteBits(xs[i]), ByteBits(ys[i]))
    ensures |ExpandBits(xs)| == 8 * |xs| == |BytesToBits(ys)|
    ensures forall j :: 0 <= j < 8 * |xs| ==> (ExpandBits(xs)[j] == 1 <==> BytesToBits(ys)[j] == '0')
  {
    ExpandComplement(xs, ys);
    ExpandMatchesBits(ys);
    forall j | 0 <= j < 8 * |xs|
      ensures ExpandBits(xs)[j] == 1 <==> BytesToBits(ys)[j] == '0'
    {
      var x, y := ExpandBits(xs)[j], ExpandBits(ys)[j];
      assert x == 1 - y && BytesToBits(ys)[j] == BitChar(y);
    }
  }

  /** The preamble is 32 bits, MSB first, and is bit for bit the complement
      of the current encoder's preamble 0x55 0x55 0x55 0x56. */
  lemma PreambleComplement()
    ensures |Preamble| == 32
    ensures forall j :: 0 <= j < 32 ==> (Preamble[j] == 1 <==> Renault.Preamble[j] == '0')
  {
    PreamblePairs();
    ExpandInverts(PreambleBytes, Renault.PreambleBytes);
  }

  /** `encode_message` raises exactly when `create_packet` does; otherwise
      the message is the 32 preamble bits followed by the coded packet. */
  lemma MessageShape(sensorId: int, pressureRaw: int, temperatureC: int, flags: int,
                     manchester: seq<int> -> seq<int>)
    ensures var m := EncodeMessage(sensorId, pressureRaw, temperatureC, flags, manchester);
      && (m.Ok? <==> 0 <= flags < 64)
      && (m.Err? ==> m.error == ValueError)
      && (m.Ok? ==> (m.value[..32] == Preamble
                     && m.value[32..] == manchester(CreatePacket(sensorId, pressureRaw, temperatureC, flags).value)))
  {
    PreambleComplement();
  }
}

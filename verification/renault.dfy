/** The Renault encoder of encoders/devices/renault.py: a nine-byte frame
    closed by a CRC-8, the extended frame of any length of nine bytes or
    more, and the helpers that relate frame lengths to bit counts and
    durations. Pressure and temperature arrive as the integers the float
    conversions produce. */
module Renault {
  import opened Results
  import opened PyInt
  import opened BitUtils
  import BitwiseCrc
  import TableCrc
  import Framing
  import Manchester

  /** The keys of the `fields` dictionary that `create_packet` reads. */
  datatype Fields = Fields(flags: int, id: int, pressureRaw: int, tempC: int, unknown: int)

  const PreambleBytes: seq<int> := [0x55, 0x55, 0x55, 0x56]

  /** `PREAMBLE`: the bits of 0x55 0x55 0x55 0x56. */
  const Preamble: string := BytesToBits(PreambleBytes)

  /** `BIT_DURATION`, in microseconds. */
  const BitDuration := 52

  /** The defaults `encode_message` substitutes for `flags` and `extra`. */
  const DefaultFlags := 54
  const DefaultExtra := 48153

  /** Bytes 0 to 7. Byte 0 is `(flags & 0xFF) << 2 | (pressure_raw >> 8) & 0x03`
      with no mask after the shift, so it reaches 1023; the two fields do not
      overlap, so the `|` is a sum. The sensor id and `unknown` go in
      little-endian. */
  function Header(f: Fields): seq<int> {
    [ Lo(f.flags) * 4 + f.pressureRaw / 256 % 4,
      Lo(f.pressureRaw),
      Lo(f.tempC + 30),
      Lo(f.id), Lo(f.id / 256), Lo(f.id / 65536),
      Lo(f.unknown), Lo(f.unknown / 256) ]
  }

  /** The list `b` of `create_packet`: the header in a nine-element list
      whose last slot becomes `crc8(b, 8, polynomial=0x07, init=0x00)`. */
  function Frame(f: Fields): (r: seq<int>)
    ensures |r| == 9 && r[..8] == Header(f)
  {
    var b := Header(f) + [0];
    b[8 := BitwiseCrc.Crc8(b, 8, 0x07, 0x00)]
  }

  /** `create_packet(fields)`: the Manchester line bits of the frame. */
  function CreatePacket(f: Fields): Result<string> {
    Framing.EncodeFrame(Frame(f))
  }

  /** The `padding_method` of the extended frame. `Random(draw)` stands for
      Python's generator: `draw(seed, k)` is the `k`-th `randint(0, 255)`
      after `random.seed(seed)`. `Other` is any unrecognised name, which adds
      no padding. */
  datatype Padding = Repeat | Zero | Random(draw: (int, nat) -> int) | Custom | Other

  /** The `repeat` loop: chunks of `min(8, remaining)` bytes of `b[:8]`. */
  function RepeatFill(original: seq<int>, n: nat): (r: seq<int>)
    requires |original| == 8
    ensures |r| == n
    decreases n
  {
    if n == 0 then []
    else
      var k := if n < 8 then n else 8;
      original[..k] + RepeatFill(original, n - k)
  }

  /** The `zero` loop. */
  function ZeroFill(n: nat): (r: seq<int>)
    ensures |r| == n
  {
    if n == 0 then [] else [0x00] + ZeroFill(n - 1)
  }

  /** The `random` loop, from draw number `k` on. */
  function RandomFill(draw: (int, nat) -> int, seed: int, k: nat, n: nat): (r: seq<int>)
    ensures |r| == n
    decreases n
  {
    if n == 0 then [] else [draw(seed, k)] + RandomFill(draw, seed, k + 1, n - 1)
  }

  /** The `custom` loop: ZeroDivisionError from `custom_idx % len(custom_data)`
      as soon as a byte is needed from an empty list. */
  function CustomFill(data: seq<int>, n: nat): (r: Result<seq<int>>)
    ensures r.Ok? <==> n == 0 || data != []
    ensures r.Err? ==> r.error == ZeroDivisionError
    ensures r.Ok? ==> |r.value| == n
  {
    if n > 0 && data == [] then Err(ZeroDivisionError) else Ok(CustomCycle(data, 0, n))
  }

  /** The bytes the `custom` loop appends from `custom_idx = k` on. */
  function CustomCycle(data: seq<int>, k: nat, n: nat): (r: seq<int>)
    requires n == 0 || data != []
    ensures |r| == n
    decreases n
  {
    if n == 0 then [] else [data[k % |data|]] + CustomCycle(data, k + 1, n - 1)
  }

  /** The `n` padding bytes the chosen method appends; `seed` is the sensor
      id and `custom` the `padding_data` in effect. */
  function Pad(padding: Padding, original: seq<int>, seed: int, custom: seq<int>, n: nat): (r: Result<seq<int>>)
    requires |original| == 8
    ensures r.Err? <==> padding.Custom? && custom == [] && n > 0
    ensures r.Err? ==> r.error == ZeroDivisionError
    ensures r.Ok? ==> |r.value| == if padding.Other? then 0 else n
  {
    match padding
    case Repeat => Ok(RepeatFill(original, n))
    case Zero => Ok(ZeroFill(n))
    case Random(draw) => Ok(RandomFill(draw, seed, 0, n))
    case Custom => CustomFill(custom, n)
    case Other => Ok([])
  }

  /** The list `extended_packet` of `create_extended_packet`: ValueError
      below nine bytes; otherwise the frame (its CRC included), padding while
      the length is below `target_length - 1`, and a CRC of everything so far
      only if that leaves exactly one byte to go. `padding_data` defaults to
      `[0x00]` when the key is absent. */
  function ExtendedFrame(f: Fields, padding: Padding, paddingData: Option<seq<int>>, target: int): (r: Result<seq<int>>)
    ensures r.Err? <==> target < 9 || (padding.Custom? && paddingData.GetOr([0x00]) == [] && target > 10)
    ensures r.Err? ==> r.error == if target < 9 then ValueError else ZeroDivisionError
  {
    if target < 9 then Err(ValueError)
    else
      var b := Frame(f);
      var pad :- Pad(padding, b[..8], f.id, paddingData.GetOr([0x00]), if target > 10 then target - 10 else 0);
      var ext := b + pad;
      Ok(if |ext| == target - 1 then ext + [BitwiseCrc.Crc8(ext, |ext|, 0x07, 0x00)] else ext)
  }

  /** `create_extended_packet(fields, target_length)`. */
  function CreateExtendedPacket(f: Fields, padding: Padding, paddingData: Option<seq<int>>, target: int): Result<string> {
    var frame :- ExtendedFrame(f, padding, paddingData, target);
    Framing.EncodeFrame(frame)
  }

  /** The fields `encode_message` and `encode_extended_message` build. */
  function MessageFields(sensorId: int, pressureRaw: int, temperatureC: int, flags: Option<int>, extra: Option<int>): Fields {
    Fields(flags.GetOr(DefaultFlags), sensorId, pressureRaw, temperatureC, extra.GetOr(DefaultExtra))
  }

  /** `encode_extended_message(...)`: `padding_data or [0x00]` replaces both
      a missing and an empty list; then the preamble and the inverted line
      bits. */
  function EncodeExtendedMessage(sensorId: int, pressureRaw: int, temperatureC: int, target: int,
                                 flags: Option<int>, extra: Option<int>,
                                 padding: Padding, paddingData: Option<seq<int>>): Result<string>
  {
    var data := if paddingData.None? || paddingData.value == [] then [0x00] else paddingData.value;
    var frame :- ExtendedFrame(MessageFields(sensorId, pressureRaw, temperatureC, flags, extra), padding, Some(data), target);
    Framing.Transmit(Preamble, frame)
  }

  /** `encode_message(...)`: a target length hands over to the extended
      path; otherwise the preamble and the inverted line bits of the frame. */
  function EncodeMessage(sensorId: int, pressureRaw: int, temperatureC: int,
                         flags: Option<int>, extra: Option<int>, targetLength: Option<int>,
                         padding: Padding, paddingData: Option<seq<int>>): Result<string>
  {
    if targetLength.Some? then
      EncodeExtendedMessage(sensorId, pressureRaw, temperatureC, targetLength.value, flags, extra, padding, paddingData)
    else
      Framing.Transmit(Preamble, Frame(MessageFields(sensorId, pressureRaw, temperatureC, flags, extra)))
  }

  /** The dictionary `get_packet_length_info` returns. */
  datatype LengthInfo =
    | TooShort
    | Info(totalBits: int, preambleBits: int, packetBits: int, packetBytes: int, isExtended: bool, extensionBytes: int)

  /** `get_packet_length_info(bit_sequence)`. */
  function GetPacketLengthInfo(message: string): LengthInfo {
    if |message| <= |Preamble| then TooShort
    else
      var packetBits := |message| - |Preamble|;
      var packetBytes := packetBits / 16;
      Info(|message|, |Preamble|, packetBits, packetBytes, packetBytes > 9,
           if packetBytes - 9 > 0 then packetBytes - 9 else 0)
  }

  /** Python's `int(x)` on a float: truncation toward zero. */
  function Trunc(x: real): int {
    if x >= 0.0 then x.Floor else -((-x).Floor)
  }

  /** `calculate_target_length_for_duration(duration_ms, bit_duration_us)`,
      in exact real arithmetic; a zero bit duration raises
      ZeroDivisionError. */
  function TargetLengthForDuration(durationMs: real, bitDurationUs: int): Result<int> {
    if bitDurationUs == 0 then Err(ZeroDivisionError)
    else
      var packetBytesNeeded := (durationMs * 1000.0 / bitDurationUs as real - 32.0) / 16.0;
      var n := Trunc(packetBytesNeeded) + 1;
      Ok(if n > 9 then n else 9)
  }

  // ---------------------------------------------------------------------
  // The nine-byte frame.

  lemma PreambleShape()
    ensures |Preamble| == 32 && IsBinary(Preamble)
  {
    BytesToBitsShape(PreambleBytes);
  }

  /** The frame is the header followed by the CRC-8 of the header: writing
      the CRC into the ninth slot reads only the eight bytes before it. */
  lemma FrameLayout(f: Fields)
    ensures Frame(f) == Header(f) + [BitwiseCrc.Crc8(Header(f), 8, 0x07, 0x00)]
  {
    var h := Header(f);
    assert Prefix(h + [0], 8) == Prefix(h, 8);
    BitwiseCrc.CrcReadsPrefix(h + [0], h, 8, 0x07, 0x00);
  }

  /** Every field can be read back from the frame: the flags from the high
      part of byte 0, the 10-bit pressure from byte 0's low bits and byte 1,
      the temperature from byte 2, the low 24 bits of the id and the low 16
      bits of `unknown` from their little-endian bytes; byte 8 is the CRC of
      bytes 0 to 7. */
  lemma FrameFields(f: Fields)
    ensures var r := Frame(f);
      && r[0] / 4 == Lo(f.flags)
      && r[0] % 4 * 256 + r[1] == f.pressureRaw % 1024
      && Lo(r[2] - 30) == Lo(f.tempC)
      && r[3] + 256 * r[4] + 65536 * r[5] == f.id % 16777216
      && r[6] + 256 * r[7] == f.unknown % 65536
      && r[8] == BitwiseCrc.Crc8(r[..8], 8, 0x07, 0x00)
  {
    var h := Header(f);
    FrameLayout(f);
    assert h[0] / 4 == Lo(f.flags) && h[0] % 4 * 256 + h[1] == f.pressureRaw % 1024 by {
      DivModUnique(h[0], 4, Lo(f.flags), f.pressureRaw / 256 % 4);
      ModMul(f.pressureRaw, 256, 4);
    }
    assert Lo(h[2] - 30) == Lo(f.tempC) by {
      LoOffset(f.tempC, 30);
    }
    assert h[3] + 256 * h[4] + 65536 * h[5] == f.id % 16777216 by {
      Bytes24(f.id);
    }
    assert h[6] + 256 * h[7] == f.unknown % 65536 by {
      ModMul(f.unknown, 256, 256);
    }
  }

  /** No frame byte is negative; all of them are bytes exactly when
      `flags & 0xFF` is below 64, and byte 0 is the only one that can
      exceed 255. */
  lemma FrameBytes(f: Fields)
    ensures NonNegative(Frame(f))
    ensures AllBytes(Frame(f)) <==> Lo(f.flags) < 64
    ensures forall i :: 1 <= i < 9 ==> 0 <= Frame(f)[i] < 256
  {
    BitwiseCrc.CrcIsByte(Header(f) + [0], 8, 0x07, 0x00);
  }

  /** The frame passes its own check: the CRC over all nine bytes is 0, and
      when every byte is a byte the table-driven `tpms_crc8.validate` of
      modulation/utils.py accepts bytes 0 to 7 against byte 8. */
  lemma FrameChecksum(f: Fields)
    ensures BitwiseCrc.Crc8(Frame(f), 9, 0x07, 0x00) == 0
    ensures Lo(f.flags) < 64 ==> TableCrc.TpmsCrc8.Validate(Frame(f)[..8], Frame(f)[8]) == Ok(true)
  {
    var r := Frame(f);
    FrameFields(f);
    assert Prefix(r[..8], 8) == r[..8];
    BitwiseCrc.CrcResidue(r[..8], 0x07, 0x00);
    assert r[..8] + [r[8]] == r;
    if Lo(f.flags) < 64 {
      FrameBytes(f);
      TableCrc.TableMatchesBitwise(r[..8], 0x07, 0x00);
    }
  }

  /** `create_packet` never raises, and its line bits are 144 long exactly
      when `flags & 0xFF` is below 64; a larger value widens byte 0. */
  lemma CreatePacketLength(f: Fields)
    ensures CreatePacket(f).Ok?
    ensures |CreatePacket(f).value| >= 144
    ensures |CreatePacket(f).value| == 144 <==> Lo(f.flags) < 64
  {
    FrameBytes(f);
    BitsLength(Frame(f));
  }

  /** Without a target length `encode_message` never raises; the message is
      176 bits exactly when `flags & 0xFF` is below 64, as with the default
      flags 54. */
  lemma MessageLength(sensorId: int, pressureRaw: int, temperatureC: int,
                      flags: Option<int>, extra: Option<int>, padding: Padding, paddingData: Option<seq<int>>)
    ensures var m := EncodeMessage(sensorId, pressureRaw, temperatureC, flags, extra, None, padding, paddingData);
      && m.Ok?
      && |m.value| >= 176
      && (|m.value| == 176 <==> Lo(flags.GetOr(DefaultFlags)) < 64)
    ensures flags.None? ==> |EncodeMessage(sensorId, pressureRaw, temperatureC, flags, extra, None, padding, paddingData).value| == 176
  {
    var f := MessageFields(sensorId, pressureRaw, temperatureC, flags, extra);
    FrameBytes(f);
    PreambleShape();
    Framing.TransmitWidens(Preamble, Frame(f));
    if flags.None? {
      LoByte(DefaultFlags);
    }
  }

  /** A receiver that drops the 32 preamble bits, inverts, Manchester-decodes
      and packs the bits gets the frame back, whenever its bytes are bytes. */
  lemma ReceiveMessage(sensorId: int, pressureRaw: int, temperatureC: int,
                       flags: Option<int>, extra: Option<int>, padding: Padding, paddingData: Option<seq<int>>)
    requires Lo(flags.GetOr(DefaultFlags)) < 64
    ensures var m := EncodeMessage(sensorId, pressureRaw, temperatureC, flags, extra, None, padding, paddingData);
      var frame := Frame(MessageFields(sensorId, pressureRaw, temperatureC, flags, extra));
      && m.Ok?
      && Manchester.Decode(Invert(m.value[32..]), 0, 0) == Ok((BytesToBits(frame), 144))
      && BitsToBytes(BytesToBits(frame)) == Ok(frame)
  {
    var frame := Frame(MessageFields(sensorId, pressureRaw, temperatureC, flags, extra));
    FrameBytes(MessageFields(sensorId, pressureRaw, temperatureC, flags, extra));
    PreambleShape();
    Framing.ReceiveFrame(Preamble, frame);
    BytesRoundTrip(frame);
  }

  // ---------------------------------------------------------------------
  // The extended frame.

  /** Repeat padding: byte `k` of the padding is `b[k % 8]`. */
  lemma {:induction false} RepeatFillAt(original: seq<int>, n: nat)
    requires |original| == 8
    ensures forall k :: 0 <= k < n ==> RepeatFill(original, n)[k] == original[k % 8]
    decreases n
  {
    if n > 0 {
      var k := if n < 8 then n else 8;
      var r, rest := RepeatFill(original, n), RepeatFill(original, n - k);
      assert r == original[..k] + rest;
      RepeatFillAt(original, n - k);
      forall i | 0 <= i < n
        ensures r[i] == original[i % 8]
      {
        if i >= k {
          assert k == 8 && r[i] == rest[i - 8];
          ModShift(i - 8, 1, 8);
        }
      }
    }
  }

  lemma {:induction false} ZeroFillAt(n: nat)
    ensures forall k :: 0 <= k < n ==> ZeroFill(n)[k] == 0
    decreases n
  {
    if n > 0 {
      ZeroFillAt(n - 1);
    }
  }

  /** Random padding: byte `k` is the `k`-th draw after seeding with the id. */
  lemma {:induction false} RandomFillAt(draw: (int, nat) -> int, seed: int, j: nat, n: nat)
    ensures forall k :: 0 <= k < n ==> RandomFill(draw, seed, j, n)[k] == draw(seed, j + k)
    decreases n
  {
    if n > 0 {
      RandomFillAt(draw, seed, j + 1, n - 1);
      forall k | 0 < k < n
        ensures RandomFill(draw, seed, j, n)[k] == draw(seed, j + k)
      {
        assert RandomFill(draw, seed, j, n)[k] == RandomFill(draw, seed, j + 1, n - 1)[k - 1];
      }
    }
  }

  /** Custom padding: byte `k` is `custom_data[k % len(custom_data)]`. */
  lemma {:induction false} CustomCycleAt(data: seq<int>, j: nat, n: nat)
    requires data != []
    ensures forall k :: 0 <= k < n ==> CustomCycle(data, j, n)[k] == data[(j + k) % |data|]
    decreases n
  {
    if n > 0 {
      CustomCycleAt(data, j + 1, n - 1);
      forall k | 0 < k < n
        ensures CustomCycle(data, j, n)[k] == data[(j + k) % |data|]
      {
        assert CustomCycle(data, j, n)[k] == CustomCycle(data, j + 1, n - 1)[k - 1];
      }
    }
  }

  /** Targets of nine and ten bytes never pad: nine gives the plain frame,
      ten appends the CRC of the nine bytes, which is 0. */
  lemma SmallTargets(f: Fields, padding: Padding, paddingData: Option<seq<int>>, target: int)
    requires 9 <= target <= 10
    ensures ExtendedFrame(f, padding, paddingData, target) == Ok(if target == 10 then Frame(f) + [0] else Frame(f))
  {
    var b := Frame(f);
    var pad := Pad(padding, b[..8], f.id, paddingData.GetOr([0x00]), 0).value;
    assert b + pad == b;
    FrameChecksum(f);
  }

  /** `r` is a closed extension of the nine-byte frame `b`: it has `target`
      bytes, starts with `b`, and ends in the CRC of all the bytes before it,
      so its own CRC is 0. */
  predicate ClosedExtension(b: seq<int>, r: seq<int>, target: int) {
    && |b| == 9 && target >= 9 && |r| == target
    && r[..9] == b
    && r[target - 1] == BitwiseCrc.Crc8(r[..target - 1], target - 1, 0x07, 0x00)
    && BitwiseCrc.Crc8(r, target, 0x07, 0x00) == 0
  }

  /** The nine-byte frame is itself closed. */
  lemma NineClosed(f: Fields)
    ensures ClosedExtension(Frame(f), Frame(f), 9)
  {
    FrameFields(f);
    FrameChecksum(f);
  }

  /** Appending the CRC of a list of nine bytes or more closes it. */
  lemma CrcClosed(ext: seq<int>, r: seq<int>)
    requires |ext| >= 9 && r == ext + [BitwiseCrc.Crc8(ext, |ext|, 0x07, 0x00)]
    ensures ClosedExtension(ext[..9], r, |ext| + 1)
  {
    assert r[..|ext|] == ext;
    assert r[..9] == ext[..9];
    BitwiseCrc.CrcResidue(ext, 0x07, 0x00);
  }

  /** Above ten bytes, the frame and `target - 10` padding bytes leave
      exactly one byte to go, so the CRC of both is appended. */
  lemma PaddedFrame(f: Fields, padding: Padding, paddingData: Option<seq<int>>, target: int, ext: seq<int>)
    requires target > 10 && !padding.Other?
    requires !(padding.Custom? && paddingData.GetOr([0x00]) == [])
    requires ext == Frame(f) + Pad(padding, Frame(f)[..8], f.id, paddingData.GetOr([0x00]), target - 10).value
    ensures |ext| == target - 1 && ext[..9] == Frame(f)
    ensures ExtendedFrame(f, padding, paddingData, target) == Ok(ext + [BitwiseCrc.Crc8(ext, |ext|, 0x07, 0x00)])
  {
    assert ext[..9] == Frame(f);
  }

  /** For a target of nine bytes or more and a known padding method that does
      not raise, the extended frame is a closed extension of the nine-byte
      frame: exactly `target` bytes, the frame first and the CRC of
      everything before it last. */
  lemma ExtendedShape(f: Fields, padding: Padding, paddingData: Option<seq<int>>, target: int)
    requires target >= 9 && !padding.Other?
    requires !(padding.Custom? && paddingData.GetOr([0x00]) == [] && target > 10)
    ensures ExtendedFrame(f, padding, paddingData, target).Ok?
    ensures ClosedExtension(Frame(f), ExtendedFrame(f, padding, paddingData, target).value, target)
  {
    var b := Frame(f);
    if target == 9 {
      SmallTargets(f, padding, paddingData, 9);
      NineClosed(f);
    } else if target == 10 {
      SmallTargets(f, padding, paddingData, 10);
      FrameChecksum(f);
      assert b[..9] == b;
      CrcClosed(b, b + [0]);
    } else {
      var ext := b + Pad(padding, b[..8], f.id, paddingData.GetOr([0x00]), target - 10).value;
      PaddedFrame(f, padding, paddingData, target, ext);
      CrcClosed(ext, ext + [BitwiseCrc.Crc8(ext, |ext|, 0x07, 0x00)]);
    }
  }

  /** What the padding bytes `9 .. target - 2` hold, method by method. */
  lemma ExtendedPadding(f: Fields, padding: Padding, paddingData: Option<seq<int>>, target: int, k: int)
    requires target > 10 && 0 <= k < target - 10
    requires !(padding.Custom? && paddingData.GetOr([0x00]) == [])
    ensures ExtendedFrame(f, padding, paddingData, target).Ok?
    ensures var r := ExtendedFrame(f, padding, paddingData, target).value;
      match padding
      case Repeat => r[9 + k] == Frame(f)[k % 8]
      case Zero => r[9 + k] == 0
      case Random(draw) => r[9 + k] == draw(f.id, k)
      case Custom => r[9 + k] == paddingData.GetOr([0x00])[k % |paddingData.GetOr([0x00])|]
      case Other => |r| == 9
  {
    var b := Frame(f);
    var n := target - 10;
    match padding
    case Repeat => RepeatFillAt(b[..8], n);
    case Zero => ZeroFillAt(n);
    case Random(draw) => RandomFillAt(draw, f.id, 0, n);
    case Custom => CustomCycleAt(paddingData.GetOr([0x00]), 0, n);
    case Other =>
  }

  /** An unrecognised padding method pads nothing: the frame stays at nine
      bytes, except that a target of ten appends the CRC of the nine bytes,
      which is 0. */
  lemma OtherPadding(f: Fields, paddingData: Option<seq<int>>, target: int)
    requires target >= 9
    ensures ExtendedFrame(f, Other, paddingData, target) == Ok(if target == 10 then Frame(f) + [0] else Frame(f))
  {
    if target <= 10 {
      SmallTargets(f, Other, paddingData, target);
    } else {
      assert Frame(f) + [] == Frame(f);
    }
  }

  /** A target of nine bytes gives the same message as no target at all. */
  lemma NineIsBaseline(sensorId: int, pressureRaw: int, temperatureC: int,
                       flags: Option<int>, extra: Option<int>, padding: Padding, paddingData: Option<seq<int>>)
    ensures EncodeMessage(sensorId, pressureRaw, temperatureC, flags, extra, Some(9), padding, paddingData)
         == EncodeMessage(sensorId, pressureRaw, temperatureC, flags, extra, None, padding, paddingData)
  {
    var data := if paddingData.None? || paddingData.value == [] then [0x00] else paddingData.value;
    SmallTargets(MessageFields(sensorId, pressureRaw, temperatureC, flags, extra), padding, Some(data), 9);
  }

  /** Through `encode_extended_message` every error is ValueError: a target
      below nine bytes always raises it, and a negative padding value (custom
      or drawn) can raise it from the line coder. The custom list is never
      empty there, so the padding never divides by zero. */
  lemma ExtendedMessageErrors(sensorId: int, pressureRaw: int, temperatureC: int, target: int,
                              flags: Option<int>, extra: Option<int>, padding: Padding, paddingData: Option<seq<int>>)
    ensures var m := EncodeExtendedMessage(sensorId, pressureRaw, temperatureC, target, flags, extra, padding, paddingData);
      && (target < 9 ==> m == Err(ValueError))
      && (m.Err? ==> m.error == ValueError)
  {
  }

  /** A frame's bytes are all bytes when its padding is: repeat and zero
      padding always, random padding when the draws are bytes, custom padding
      when the list holds bytes. */
  ghost predicate PaddingIsBytes(padding: Padding, data: seq<int>) {
    match padding
    case Random(draw) => forall seed, k :: 0 <= draw(seed, k) < 256
    case Custom => AllBytes(data)
    case _ => true
  }

  /** Padding of bytes: repeat and zero padding always, random and custom
      padding when the draws or the list are bytes. */
  lemma PadBytes(padding: Padding, original: seq<int>, seed: int, data: seq<int>, n: nat)
    requires |original| == 8 && AllBytes(original)
    requires data != [] && PaddingIsBytes(padding, data)
    ensures Pad(padding, original, seed, data, n).Ok?
    ensures AllBytes(Pad(padding, original, seed, data, n).value)
  {
    match padding
    case Repeat => RepeatFillAt(original, n);
    case Zero => ZeroFillAt(n);
    case Random(draw) => RandomFillAt(draw, seed, 0, n);
    case Custom => CustomCycleAt(data, 0, n);
    case Other =>
  }

  lemma ExtendedBytes(f: Fields, padding: Padding, data: seq<int>, target: int)
    requires target >= 9 && !padding.Other? && Lo(f.flags) < 64
    requires data != [] && PaddingIsBytes(padding, data)
    ensures ExtendedFrame(f, padding, Some(data), target).Ok?
    ensures AllBytes(ExtendedFrame(f, padding, Some(data), target).value)
  {
    var b := Frame(f);
    if target == 9 {
      SmallTargets(f, padding, Some(data), target);
      FrameBytes(f);
    } else if target == 10 {
      SmallTargets(f, padding, Some(data), target);
      assert AllBytes(b + [0]) by {
        FrameBytes(f);
      }
    } else {
      PaddedBytes(f, padding, data, target);
    }
  }

  lemma PaddedBytes(f: Fields, padding: Padding, data: seq<int>, target: int)
    requires target > 10 && !padding.Other? && Lo(f.flags) < 64
    requires data != [] && PaddingIsBytes(padding, data)
    ensures ExtendedFrame(f, padding, Some(data), target).Ok?
    ensures AllBytes(ExtendedFrame(f, padding, Some(data), target).value)
  {
    var b := Frame(f);
    FrameBytes(f);
    assert AllBytes(b[..8]);
    var pad := Pad(padding, b[..8], f.id, data, target - 10).value;
    PadBytes(padding, b[..8], f.id, data, target - 10);
    var ext := b + pad;
    assert AllBytes(ext);
    PaddedFrame(f, padding, Some(data), target, ext);
    BitwiseCrc.CrcIsByte(ext, |ext|, 0x07, 0x00);
    assert AllBytes(ext + [BitwiseCrc.Crc8(ext, |ext|, 0x07, 0x00)]);
  }

  /** An extended message of `target` bytes whose bytes are all bytes is
      `32 + 16 * target` bits, and `get_packet_length_info` reports `target`
      packet bytes, extended exactly when `target` exceeds nine. */
  lemma ExtendedMessageLength(sensorId: int, pressureRaw: int, temperatureC: int, target: int,
                              flags: Option<int>, extra: Option<int>, padding: Padding, paddingData: Option<seq<int>>)
    requires target >= 9 && !padding.Other?
    requires Lo(flags.GetOr(DefaultFlags)) < 64
    requires PaddingIsBytes(padding, if paddingData.None? || paddingData.value == [] then [0x00] else paddingData.value)
    ensures var m := EncodeExtendedMessage(sensorId, pressureRaw, temperatureC, target, flags, extra, padding, paddingData);
      && m.Ok?
      && |m.value| == 32 + 16 * target
      && GetPacketLengthInfo(m.value) == Info(32 + 16 * target, 32, 16 * target, target, target > 9, target - 9)
  {
    var data := if paddingData.None? || paddingData.value == [] then [0x00] else paddingData.value;
    var f := MessageFields(sensorId, pressureRaw, temperatureC, flags, extra);
    var frame := ExtendedFrame(f, padding, Some(data), target).value;
    ExtendedBytes(f, padding, data, target);
    ExtendedShape(f, padding, Some(data), target);
    PreambleShape();
    Framing.TransmitLength(Preamble, frame);
    LengthInfoOf(Framing.Transmit(Preamble, frame).value, target);
  }

  /** A message of `32 + 16 * n` bits, `n` positive, reports `n` packet bytes, of which
      those past nine are the extension. */
  lemma LengthInfoOf(message: string, n: int)
    requires n > 0 && |message| == 32 + 16 * n
    ensures GetPacketLengthInfo(message) == Info(32 + 16 * n, 32, 16 * n, n, n > 9, if n > 9 then n - 9 else 0)
  {
    PreambleShape();
    DivModUnique(16 * n, 16, n, 0);
  }

  /** `get_packet_length_info` on any bit sequence: at most 32 bits is an
      error; otherwise every 16 bits after the preamble count one byte, and
      the bytes past nine are the extension. */
  lemma LengthInfoLaw(message: string)
    ensures GetPacketLengthInfo(message).TooShort? <==> |message| <= 32
    ensures GetPacketLengthInfo(message).Info? ==>
      var info := GetPacketLengthInfo(message);
      && 16 * info.packetBytes <= |message| - 32 < 16 * info.packetBytes + 16
      && info.extensionBytes >= 0
      && (info.isExtended <==> info.extensionBytes > 0)
      && (info.isExtended ==> info.packetBytes == 9 + info.extensionBytes)
  {
    PreambleShape();
  }

  // ---------------------------------------------------------------------
  // Target length for a duration.

  /** `int(x)` truncates toward zero: the floor of a non-negative value and
      the ceiling of a negative one, symmetric about zero. */
  lemma TruncBounds(x: real)
    ensures x >= 0.0 ==> Trunc(x) as real <= x < Trunc(x) as real + 1.0
    ensures x < 0.0 ==> x <= Trunc(x) as real < x + 1.0 && Trunc(x) <= 0
    ensures Trunc(-x) == -Trunc(x)
  {
  }

  /** The length returned is at least nine bytes; a message of that many
      bytes lasts longer than the requested duration, and when the length is
      above the minimum, one byte fewer would not. */
  lemma TargetLengthLaw(durationMs: real, bitDurationUs: int)
    requires bitDurationUs > 0
    ensures TargetLengthForDuration(durationMs, bitDurationUs).Ok?
    ensures var n := TargetLengthForDuration(durationMs, bitDurationUs).value;
      && n >= 9
      && (32.0 + 16.0 * n as real) * bitDurationUs as real > durationMs * 1000.0
      && (n > 9 ==> (32.0 + 16.0 * (n - 1) as real) * bitDurationUs as real <= durationMs * 1000.0)
  {
    var bd := bitDurationUs as real;
    var bits := durationMs * 1000.0 / bd;
    var x := (bits - 32.0) / 16.0;
    var n := TargetLengthForDuration(durationMs, bitDurationUs).value;
    TruncBounds(x);
    assert x < n as real;
    AboveQuotient(32.0 + 16.0 * n as real, durationMs * 1000.0, bd);
    if n > 9 {
      assert (n - 1) as real <= x;
      AtMostQuotient(32.0 + 16.0 * (n - 1) as real, durationMs * 1000.0, bd);
    }
  }

  lemma PositiveProduct(a: real, b: real)
    requires a > 0.0 && b > 0.0
    ensures a * b > 0.0
  {
  }

  lemma NonNegativeProduct(a: real, b: real)
    requires a >= 0.0 && b > 0.0
    ensures a * b >= 0.0
  {
  }

  lemma AboveQuotient(a: real, b: real, c: real)
    requires c > 0.0 && a > b / c
    ensures a * c > b
  {
    var q := b / c;
    assert q * c == b;
    PositiveProduct(a - q, c);
    assert a * c == (a - q) * c + q * c;
  }

  lemma AtMostQuotient(a: real, b: real, c: real)
    requires c > 0.0 && a <= b / c
    ensures a * c <= b
  {
    var q := b / c;
    assert q * c == b;
    NonNegativeProduct(q - a, c);
    assert a * c == q * c - (q - a) * c;
  }

  /** Zero as a bit duration raises ZeroDivisionError. */
  lemma TargetLengthZero(durationMs: real)
    ensures TargetLengthForDuration(durationMs, 0) == Err(ZeroDivisionError)
  {
  }
}

# TPMS frame encoders in Dafny

This project models the encoding core of `tpms-tools`, a toolkit that builds
tyre-pressure-monitoring-system (TPMS) radio frames. It proves properties of
that model. The modelled parts are:

- the two CRC-8 implementations:
  - the bitwise `crc8` of `utils/crc8.py` (module `BitwiseCrc`);
  - the table-driven `crc8` and the `CRC8` calculator class of
    `modulation/utils.py` (module `TableCrc`);
- the bit-string helpers of `utils/bitutils.py` (module `BitUtils`);
- Manchester encoding and decoding (module `Manchester`);
- the PCM pulse encoder and decoder (module `Pcm`);
- the frame builders:
  - Renault, the current encoder (module `Renault`);
  - Mazda (module `Mazda`);
  - Toyota (module `Toyota`);
  - the older Renault encoder of `encoders/renault.py` (module
    `RenaultLegacy`).

Module `Framing` holds the tail the Manchester devices share. It turns the
bytes into bits, Manchester-codes them and puts the preamble in front of the
inverted line bits.

Module `PyInt` models the parts of Python integers that the encoders depend
on:

- `x & 0xFF` is the Euclidean remainder `x % 256`.
- `>>` by `k` is floor division by `2^k`.
- `^` on unbounded two's-complement integers is defined bit by bit (`Xor`).
- Python's negative indexing and slice clipping are written out (`Index`,
  `Prefix`).

No Python integer width is bounded. Where a value can leave 0..255 because
the code does not mask it, the model keeps the wider value and the lemmas
say when that happens:

- Renault byte 0;
- Toyota byte 7;
- the older Renault encoder's `bytearray` store.

Exceptions are values of `Result` (`ValueError`, `IndexError`,
`ZeroDivisionError`).

Where the code and its comments or tests disagree, the model follows the
code:

- The fixture in `tests/encoders/test_manchester.py` expects "1011" to
  encode to "10011010". The code maps '1' to "01", which gives "01100101"
  (`Manchester.EncodeFixture`).
- The decode tests agree with the code (`Manchester.ManchesterTestCases`).
- The Mazda docstring speaks of a CRC-8 over bytes 0 to 7. The code stores
  `xor_bytes(b[0:8])`, which is modelled as an XOR of the bytes.
- Toyota byte 4 is documented as holding a status bit. The code writes
  `1 & 0x80`, which is 0, so its top bit is never set (`Toyota.HeaderSplit`).
- The PCM docstring assumes RZ coding and unequal widths. Its round-trip
  promise holds only:
  - for equal widths;
  - up to leading zeros, which the encoder skips (`Pcm.RoundTrip`,
    `Pcm.EncodeAdjusts`).
- The older Renault encoder's default `flags = 0xd0` makes byte 0 at least
  832. Storing that into the `bytearray` always raises ValueError
  (`RenaultLegacy.DefaultFlagsRaise`).
- The docstrings of the table-driven `crc8` and of `CRC8.calculate` print 113
  for b'123' and 188 for `[0x01, 0x02, 0x03]`. With polynomial 0x07 and
  initial value 0 the code gives 0xC0 and 0x48, as does the bitwise `crc8`
  of `utils/crc8.py` (`TableCrc.DocstringExamples`,
  `BitwiseCrc.AsciiExample`, `BitwiseCrc.SmallExample`).

## Model

| member | source | states |
|---|---|---|
| `PyInt.IndexLaws` | src/tpms_tools/encoders/manchester.py:54-55 | Python's `s[i]` reads an element of `s`; `s[i - len(s)]` is `s[i]`; a non-negative index reads the same from any extension at the end, a negative one from any extension at the front |
| `PyInt.Prefix` | src/tpms_tools/utils/crc8.py:16 | Python's `s[:n]`: a prefix of `s`, of length `n` in range, the whole of `s` past the end, and counted from the end for negative `n` |
| `PyInt.XorUnfold` | src/tpms_tools/utils/crc8.py:17 | `a ^ b` has bit 0 equal to the XOR of the operands' bit 0 and `(a ^ b) >> 1 == (a >> 1) ^ (b >> 1)`, for every pair of integers |
| `PyInt.XorRange` | src/tpms_tools/utils/crc8.py:17 | the XOR of two `k`-bit naturals is a `k`-bit natural |
| `PyInt.XorLowBits` | src/tpms_tools/utils/crc8.py:17-19 | the low `k` bits of `a ^ b` are the XOR of the low `k` bits of `a` and `b` |
| `PyInt.XorAbove` | src/tpms_tools/modulation/utils.py:53 | XOR with a value below `2^k` keeps a value of at least `2^k` at least `2^k` |
| `PyInt.LoXor` | src/tpms_tools/utils/crc8.py:17-19 | `(a ^ b) & 0xFF == (a & 0xFF) ^ (b & 0xFF)` |
| `PyInt.XorBytes` | src/tpms_tools/utils/crc8.py:17 | XOR of two bytes is a byte |
| `PyInt.XorSelf` | src/tpms_tools/utils/crc8.py:17 | `a ^ a == 0` for every integer |
| `PyInt.XorZero` | src/tpms_tools/utils/crc8.py:17 | 0 is the identity of `^` on both sides |
| `PyInt.XorComm` | src/tpms_tools/utils/crc8.py:17 | `^` is commutative |
| `PyInt.XorAssoc` | src/tpms_tools/utils/crc8.py:17 | `^` is associative |
| `PyInt.XorSign` | src/tpms_tools/encoders/devices/toyota.py:64 | `a ^ b` is negative exactly when exactly one operand is |
| `PyInt.XorNaturals` | src/tpms_tools/utils/crc8.py:17 | on `k`-bit naturals `^` agrees with the bit-by-bit XOR over `k` positions |
| `PyInt.XorByteForm` | src/tpms_tools/utils/crc8.py:17 | on bytes `a ^ b` is the sum of `2^i` over the eight positions `i` where the bits of `a` and `b` differ |
| `PyInt.XorSeven` | src/tpms_tools/utils/crc8.py:19 | `x ^ 0x07` complements the three low bits of `x` and keeps the others |
| `PyInt.XorOnes` | src/tpms_tools/encoders/devices/toyota.py:64 | XOR with `k` one-bits complements a `k`-bit natural: `x ^ 0xFF == 255 - x` on bytes |
| `PyInt.LoDouble` | src/tpms_tools/utils/crc8.py:19 | `(crc << 1) & 0xFF` depends only on the low byte of `crc` |
| `PyInt.LoOffset` | src/tpms_tools/encoders/devices/renault.py:45 | adding an offset, masking with 0xFF and subtracting the offset gives back the low byte of the original |
| `PyInt.Bytes24` | src/tpms_tools/encoders/devices/renault.py:46-48 | the three masked bytes of `x`, `x >> 8`, `x >> 16` read little-endian are `x` modulo `2^24` |
| `PyInt.Bytes32` | src/tpms_tools/encoders/devices/mazda.py:43-46 | the four masked bytes `x >> 24` .. `x` read big-endian are `x` modulo `2^32` |
| `BitwiseCrc.ShiftReadsLow` | src/tpms_tools/utils/crc8.py:19 | one pass of the inner loop reads only the low byte of the register |
| `BitwiseCrc.AbsorbReadsLow` | src/tpms_tools/utils/crc8.py:17-19 | absorbing a byte reads only the low bytes of the register and of the data element |
| `BitwiseCrc.ShiftByte` | src/tpms_tools/utils/crc8.py:19 | with a one-byte polynomial every pass leaves a byte in the register |
| `BitwiseCrc.ShiftsByte` | src/tpms_tools/utils/crc8.py:18-19 | with a one-byte polynomial any positive number of passes leaves a byte |
| `BitwiseCrc.FoldByte` | src/tpms_tools/utils/crc8.py:15-20 | with a one-byte polynomial and initial value, the outer loop ends with a byte |
| `BitwiseCrc.CrcIsByte` | src/tpms_tools/utils/crc8.py:1-20 | `crc8` returns a byte for a one-byte polynomial and initial value, whatever the data |
| `BitwiseCrc.FoldReadsLow` | src/tpms_tools/utils/crc8.py:15-20 | on non-empty data only the low byte of the initial value matters |
| `BitwiseCrc.FoldLowBytes` | src/tpms_tools/utils/crc8.py:16-19 | the loop gives the same register for the data and for its elements masked to bytes |
| `BitwiseCrc.CrcLowBytes` | src/tpms_tools/utils/crc8.py:1-20 | bits above bit 7 of the data elements never change `crc8` |
| `BitwiseCrc.CrcReadsPrefix` | src/tpms_tools/utils/crc8.py:16 | `crc8` reads only `data[:nbytes]`, and returns `init` when that slice is empty |
| `BitwiseCrc.FoldAppend` | src/tpms_tools/utils/crc8.py:16-19 | appending an element absorbs it into the register left by the elements before it |
| `BitwiseCrc.CrcAppend` | src/tpms_tools/utils/crc8.py:1-20 | the CRC of `data + [x]` is the CRC of `data` with `x` absorbed |
| `BitwiseCrc.ShiftsZero` | src/tpms_tools/utils/crc8.py:18-19 | a zero register stays zero through the passes, for every polynomial |
| `BitwiseCrc.AbsorbSelf` | src/tpms_tools/utils/crc8.py:17-19 | absorbing the register's own value clears it |
| `BitwiseCrc.CrcResidue` | src/tpms_tools/utils/crc8.py:1-20 | a message followed by its own CRC has CRC 0, for every polynomial and initial value |
| `BitwiseCrc.PassComputes` | src/tpms_tools/utils/crc8.py:19 | with polynomial 0x07 a pass doubles a byte register, and when bit 7 was set drops it and complements the three low bits |
| `BitwiseCrc.EightPasses` | src/tpms_tools/utils/crc8.py:18-19 | the eight passes of the inner loop with polynomial 0x07 are the written-out eight-fold pass |
| `BitwiseCrc.Crc07Computes` | src/tpms_tools/utils/crc8.py:15-19 | on byte data and a byte register the loop with polynomial 0x07 is the written-out byte-at-a-time computation |
| `BitwiseCrc.CrcComputes` | src/tpms_tools/utils/crc8.py:1-20 | `crc8(data, len(data))` with the default polynomial and initial value is that computation from a zero register |
| `BitwiseCrc.AsciiExample` | src/tpms_tools/utils/crc8.py:1-20 | `crc8(b'123', 3)` with the defaults is 0xC0 |
| `BitwiseCrc.SmallExample` | src/tpms_tools/utils/crc8.py:1-20 | `crc8([0x01, 0x02, 0x03], 3)` with the defaults is 0x48 |
| `TableCrc.TableShiftIsLow` | src/tpms_tools/modulation/utils.py:17-21 | a pass of the table generator is the low byte of the bitwise pass of utils/crc8.py |
| `TableCrc.TableShiftsIsLow` | src/tpms_tools/modulation/utils.py:16-21 | any positive number of generator passes is the low byte of as many bitwise passes |
| `TableCrc.TableShape` | src/tpms_tools/modulation/utils.py:4-23 | every generated table has 256 entries, each a byte, for any polynomial |
| `TableCrc.TableEntryIsBitwise` | src/tpms_tools/modulation/utils.py:14-23 | entry `i` is the (low byte of the) bitwise CRC step absorbing `i` into a zero register; exactly that step for a one-byte polynomial |
| `TableCrc.TableZero` | src/tpms_tools/modulation/utils.py:14-23 | entry 0 of every table is 0 |
| `TableCrc.LookupStep` | src/tpms_tools/modulation/utils.py:53 | one lookup from a byte register with a data byte stays in the table and lands on the bitwise step |
| `TableCrc.LookupMatchesBitwise` | src/tpms_tools/modulation/utils.py:50-55 | the lookup loop over bytes computes the low byte of the bitwise loop, never raising |
| `TableCrc.TableMatchesBitwise` | src/tpms_tools/modulation/utils.py:25-55 | on byte data with a byte initial value the table CRC equals the bitwise `crc8(data, len(data), ...)` (its low byte for a wider polynomial) |
| `TableCrc.DocstringExamples` | src/tpms_tools/modulation/utils.py:38-42 | the table-driven `crc8` gives 0xC0 for b'123' and 0x48 for `[0x01, 0x02, 0x03]`, not the 113 and 188 the docstring prints; `CRC8(0x07, 0x00).calculate(b'123')` is 0xC0 as well |
| `TableCrc.RejectsNonBytes` | src/tpms_tools/modulation/utils.py:44-47 | any element outside 0..255 makes `bytes(data)` raise ValueError |
| `TableCrc.LargeInitRaises` | src/tpms_tools/modulation/utils.py:50-53 | an initial value of 256 or more indexes past the table on the first byte and raises IndexError |
| `TableCrc.EmptyIsInit` | src/tpms_tools/modulation/utils.py:50-55 | empty data returns the initial value unchanged, whatever it is |
| `TableCrc.ValidateIff` | src/tpms_tools/modulation/utils.py:80-101 | `validate` is True exactly when `calculate` returns the expected value, and raises exactly when `calculate` raises |
| `BitUtils.BitbufferSearch` | src/tpms_tools/utils/bitutils.py:17-29 | `str.find`: the least index at or after the adjusted start where the pattern occurs, and -1 exactly when there is none |
| `BitUtils.FixedAt` | src/tpms_tools/utils/bitutils.py:1-5 | character `j` of a `k`-bit numeral is bit `k - 1 - j` of the number (MSB first) |
| `BitUtils.DigitsLength` | src/tpms_tools/utils/bitutils.py:5 | a number below `2^k` has at most `k` binary digits |
| `BitUtils.PaddedDigits` | src/tpms_tools/utils/bitutils.py:5 | zero-padding the digits of a `k`-bit number to width `k` gives its `k`-bit numeral |
| `BitUtils.FormatByte` | src/tpms_tools/utils/bitutils.py:5 | `format(b, "08b")` of a byte is its eight-bit numeral |
| `BitUtils.FormatWide` | src/tpms_tools/utils/bitutils.py:5 | `format(b, "08b")` is eight characters for bytes, longer for values of 256 or more, and eight with a leading '-' for -127..-1 |
| `BitUtils.DigitsAtLeast` | src/tpms_tools/utils/bitutils.py:5 | a number of at least `2^k` has more than `k` binary digits |
| `BitUtils.FixedValue` | src/tpms_tools/utils/bitutils.py:14 | the `k`-bit numeral of a `k`-bit number denotes that number |
| `BitUtils.ValueFixed` | src/tpms_tools/utils/bitutils.py:14 | a binary string is the fixed-width numeral of the number it denotes |
| `BitUtils.DropNoUnderscores` | src/tpms_tools/utils/bitutils.py:14 | a string of binary digits has no underscores to drop |
| `BitUtils.ParseBinaryDigits` | src/tpms_tools/utils/bitutils.py:14 | `int(s, 2)` of a non-empty string of binary digits is the number the digits denote |
| `BitUtils.BytesToBitsShape` | src/tpms_tools/utils/bitutils.py:1-5 | `bytes_to_bits` of bytes is a binary string of eight characters per byte |
| `BitUtils.HeadTail` | src/tpms_tools/utils/bitutils.py:5 | the bits of a byte list are the first byte's numeral followed by the bits of the rest |
| `BitUtils.BytesToBitsAt` | src/tpms_tools/utils/bitutils.py:1-5 | characters `8i` to `8i + 7` are the eight-bit numeral of byte `i` |
| `BitUtils.HeadChunk` | src/tpms_tools/utils/bitutils.py:8-14 | the first eight-character chunk of the bits parses back to the first byte and the rest is the bits of the rest |
| `BitUtils.BytesRoundTrip` | src/tpms_tools/utils/bitutils.py:1-14 | `bits_to_bytes(bytes_to_bits(bs)) == bs` for every list of bytes |
| `BitUtils.ChunkByte` | src/tpms_tools/utils/bitutils.py:14 | eight binary digits parse to a byte that formats back to the same eight digits |
| `BitUtils.BitsRoundTrip` | src/tpms_tools/utils/bitutils.py:1-14 | a binary string of length divisible by eight parses to `len/8` bytes that format back to the same string |
| `BitUtils.BitsToBytesLength` | src/tpms_tools/utils/bitutils.py:12-13 | a length not divisible by eight raises ValueError, and success implies a length divisible by eight |
| `BitUtils.BinaryUtilsCases` | tests/utils/test_binary_utils.py:4-15 | "11100001" converts to `[0xE1]` and the seven-character "1110000" raises ValueError |
| `BitUtils.DigitsBinary` | src/tpms_tools/utils/bitutils.py:5 | the digits of a natural are binary characters |
| `BitUtils.FormatSign` | src/tpms_tools/utils/bitutils.py:5 | `format(b, "08b")` has at least eight characters, all binary exactly when `b` is not negative |
| `BitUtils.BitsBinary` | src/tpms_tools/utils/bitutils.py:1-5 | `bytes_to_bits` gives a binary string exactly when no element is negative |
| `BitUtils.BitsLength` | src/tpms_tools/utils/bitutils.py:1-5 | without negative elements the bit string has at least eight characters per element, exactly eight per element when all are bytes |
| `BitUtils.InvertInvolution` | src/tpms_tools/utils/bitutils.py:32-42 | inverting twice gives back exactly the binary strings (any other character is lost) |
| `Manchester.EncodeBit` | src/tpms_tools/encoders/manchester.py:17-23 | a character becomes an unequal pair ending in that character, and anything but '0'/'1' raises ValueError |
| `Manchester.Encode` | src/tpms_tools/encoders/manchester.py:4-24 | encoding succeeds exactly on binary strings, doubling the length; otherwise ValueError |
| `Manchester.EncodePairs` | src/tpms_tools/encoders/manchester.py:16-24 | pair `i` of the encoding is the inverted bit `i` followed by bit `i` |
| `Manchester.EncodeAppend` | src/tpms_tools/encoders/manchester.py:16-24 | encoding distributes over concatenation |
| `Manchester.EncodesItself` | src/tpms_tools/encoders/manchester.py:16-24 | an encoding is a valid Manchester code of its data from position 0 |
| `Manchester.DecodeFromEncoded` | src/tpms_tools/encoders/manchester.py:53-62 | the decoding loop over a valid code that ends at the limit returns the coded bits and stops at the limit |
| `Manchester.RoundTrip` | src/tpms_tools/encoders/manchester.py:4-64 | decoding an encoding from 0 with no bit limit returns the data and position `2 * len(data)` |
| `Manchester.RoundTripMaxBits` | src/tpms_tools/encoders/manchester.py:49-51 | with `max_bits = k` in `1..len(data)` decoding an encoding returns the first `k` bits at position `2k` |
| `Manchester.NegativeMaxBits` | src/tpms_tools/encoders/manchester.py:50-53 | a negative `max_bits` is truthy and puts the limit below the start, so nothing is decoded |
| `Manchester.DecodeFromSound` | src/tpms_tools/encoders/manchester.py:53-64 | from a non-negative start every decoded bit is the second half of an unequal pair read in order, the loop stops at the limit or right after an equal pair, and from a start within the limit the returned position does not pass the limit |
| `Manchester.DecodeBound` | src/tpms_tools/encoders/manchester.py:37-64 | from a start inside the string decoding succeeds, a positive `max_bits` caps the output at `max_bits` bits, and the output takes at most the positions after the start, two per bit |
| `Manchester.DecodeRaises` | src/tpms_tools/encoders/manchester.py:46-64 | `manchester_decode` raises (IndexError) exactly when the start lies before `-len(bits)` and a pair remains to be read |
| `Manchester.NegativeStartOk` | src/tpms_tools/encoders/manchester.py:53-56 | from a start no earlier than `-len(bits)` every read is in range |
| `Manchester.ManchesterTestCases` | tests/encoders/test_manchester.py:11-20 | "10011010" decodes to "0100" at position 8 and "1100" to "" at position 2 |
| `Manchester.EncodeFixture` | tests/encoders/test_manchester.py:4-9 | "1011" encodes to "01100101", not the fixture's "10011010" |
| `Pcm.RunIs` | src/tpms_tools/encoders/pcm.py:47-50 | an inner loop counts exactly the maximal run of equal elements in front of it |
| `Pcm.RunSpans` | src/tpms_tools/encoders/pcm.py:58-61 | the counted elements all equal the compared value and the element after them, if any, does not |
| `Pcm.EventStep` | src/tpms_tools/encoders/pcm.py:45-75 | a maximal run of `c1 >= 1` ones followed by a maximal run of `c0` zeros produces one pair `(c1, gap(c0))` and the loop resumes after them |
| `Pcm.EncodePcmSignal` | src/tpms_tools/encoders/pcm.py:20-82 | the loops of `encode_pcm_signal` produce exactly the run-length events of the input |
| `Pcm.DecodeAppend` | src/tpms_tools/encoders/pcm.py:9-18 | decoding distributes over concatenation of pulse lists |
| `Pcm.DecodeCons` | src/tpms_tools/encoders/pcm.py:12-16 | one pair decodes to its ones then its zeros, ahead of the rest |
| `Pcm.DecodeShape` | src/tpms_tools/encoders/pcm.py:9-18 | decoding yields only 0s and 1s, as many as the positive widths add up to |
| `Pcm.EventSplit` | src/tpms_tools/encoders/pcm.py:45-62 | on a 0/1 list an event at a 1 covers a run of ones and a run of zeros after which the list ends or a 1 follows |
| `Pcm.ZeroStep` | src/tpms_tools/encoders/pcm.py:51-55 | a 0 outside any event is skipped by the encoder and is a leading zero of the rest |
| `Pcm.DecodeEvent` | src/tpms_tools/encoders/pcm.py:65-75 | with equal widths the pair of an event decodes back to its run of ones and run of zeros |
| `Pcm.EventRoundTrip` | src/tpms_tools/encoders/pcm.py:45-75 | one event extends the round trip from the position after it to its own position |
| `Pcm.RoundTripFrom` | src/tpms_tools/encoders/pcm.py:9-82 | with equal widths, decoding the events from position `i` of a 0/1 list gives the list from `i` without its leading zeros |
| `Pcm.RoundTrip` | src/tpms_tools/encoders/pcm.py:20-24 | with equal widths, `decode_pcm_signal(encode_pcm_signal(bits))` is `bits` without its leading zeros |
| `Pcm.EncodeAdjustsFrom` | src/tpms_tools/encoders/pcm.py:68-72 | the widths only move gaps: every positive zero count is reduced by `s_short - s_long`, pulses unchanged |
| `Pcm.EncodeAdjusts` | src/tpms_tools/encoders/pcm.py:20-82 | the encoding with any widths is the plain run-length encoding with each positive gap reduced by `s_short - s_long` |
| `Pcm.PulsesPositive` | src/tpms_tools/encoders/pcm.py:47-55 | every pulse is at least one bit long |
| `Pcm.InnerGapsPositive` | src/tpms_tools/encoders/pcm.py:57-72 | on a 0/1 list every gap but the last counts at least one zero |
| `Pcm.NoEventsIffNoOnes` | src/tpms_tools/encoders/pcm.py:45-55 | there are no events from `i` exactly when no 1 occurs from `i` on |
| `Pcm.LastGapFrom` | src/tpms_tools/encoders/pcm.py:58-72 | on a 0/1 list, from any position, the last gap is 0 exactly when the list ends in 1 |
| `Pcm.LastGap` | src/tpms_tools/encoders/pcm.py:40-82 | on a 0/1 list with an event, the last gap is 0 exactly when the list ends in 1 |
| `Framing.EncodeFrame` | src/tpms_tools/encoders/devices/renault.py:52-53 | the line coding of a frame succeeds exactly when no element is negative (else ValueError) and gives a binary string twice as long as the bits |
| `Framing.Transmit` | src/tpms_tools/encoders/devices/renault.py:101-103 | the message starts with the preamble and raises exactly when the line coding does |
| `Framing.TransmitLength` | src/tpms_tools/encoders/devices/renault.py:99-103 | a frame of bytes takes sixteen line bits per byte after the preamble |
| `Framing.TransmitWidens` | src/tpms_tools/encoders/devices/renault.py:99-103 | without negative elements the message is at least that long, and exactly that long only when every element is a byte |
| `Framing.InvertedTail` | src/tpms_tools/encoders/devices/renault.py:101-103 | inverting the part after the preamble restores the Manchester line bits |
| `Framing.DecodeEncoded` | src/tpms_tools/encoders/devices/renault.py:52-53 | Manchester-decoding the line bits of a frame of bytes gives its bits at position `16 * len(frame)` |
| `Framing.ReceiveFrame` | src/tpms_tools/encoders/devices/renault.py:99-103 | dropping the preamble, inverting and decoding recovers the frame's bits |
| `Renault.PreambleShape` | src/tpms_tools/encoders/devices/renault.py:10 | the preamble is 32 binary characters |
| `Renault.FrameLayout` | src/tpms_tools/encoders/devices/renault.py:42-51 | the frame is the eight header bytes followed by their CRC-8 (polynomial 0x07, initial value 0) |
| `Renault.FrameFields` | src/tpms_tools/encoders/devices/renault.py:42-51 | the masked flags, the 10-bit pressure, the temperature, the id's low 24 bits and `unknown`'s low 16 bits are read back from the frame, and byte 8 is the CRC of bytes 0 to 7 |
| `Renault.FrameBytes` | src/tpms_tools/encoders/devices/renault.py:43-51 | no byte is negative, bytes 1 to 8 are bytes, and byte 0 is one exactly when `flags & 0xFF < 64` |
| `Renault.FrameChecksum` | src/tpms_tools/encoders/devices/renault.py:51 | the CRC of all nine bytes is 0, and the table-driven `tpms_crc8.validate` accepts the frame when its bytes are bytes |
| `Renault.CreatePacketLength` | src/tpms_tools/encoders/devices/renault.py:27-54 | `create_packet` never raises, and gives exactly 144 line bits when `flags & 0xFF < 64`, more otherwise |
| `Renault.MessageLength` | src/tpms_tools/encoders/devices/renault.py:83-103 | without a target length `encode_message` never raises and gives 176 bits exactly when `flags & 0xFF < 64`, as with the default flags |
| `Renault.ReceiveMessage` | src/tpms_tools/encoders/devices/renault.py:90-103 | a receiver that drops the preamble, inverts, decodes and packs the bits gets the frame back |
| `Renault.CustomFill` | src/tpms_tools/encoders/devices/renault.py:153-159 | custom padding raises ZeroDivisionError exactly when bytes are needed from an empty list, and otherwise adds the requested number of bytes |
| `Renault.Pad` | src/tpms_tools/encoders/devices/renault.py:135-159 | only custom padding of an empty list raises; a known method adds the requested number of bytes, an unknown one none |
| `Renault.ExtendedFrame` | src/tpms_tools/encoders/devices/renault.py:105-163 | `create_extended_packet` raises ValueError below nine bytes and ZeroDivisionError for custom padding of an empty list beyond ten bytes, and nowhere else |
| `Renault.RepeatFillAt` | src/tpms_tools/encoders/devices/renault.py:137-142 | repeat padding byte `k` is header byte `k % 8` |
| `Renault.ZeroFillAt` | src/tpms_tools/encoders/devices/renault.py:143-146 | zero padding bytes are all 0 |
| `Renault.RandomFillAt` | src/tpms_tools/encoders/devices/renault.py:147-152 | random padding byte `k` is the `k`-th draw after seeding with the sensor id |
| `Renault.CustomCycleAt` | src/tpms_tools/encoders/devices/renault.py:155-159 | custom padding byte `k` is `custom_data[k % len(custom_data)]` |
| `Renault.SmallTargets` | src/tpms_tools/encoders/devices/renault.py:116-163 | targets of nine and ten bytes never pad: nine gives the frame, ten the frame and a 0 |
| `Renault.CrcClosed` | src/tpms_tools/encoders/devices/renault.py:161-163 | appending the CRC of nine bytes or more makes the last byte the CRC of those before it and the CRC of the whole 0 |
| `Renault.PaddedFrame` | src/tpms_tools/encoders/devices/renault.py:137-163 | above ten bytes the frame and `target - 10` padding bytes leave one byte, which is their CRC |
| `Renault.ExtendedShape` | src/tpms_tools/encoders/devices/renault.py:105-163 | with a known padding method that does not raise, the extended frame has `target` bytes, starts with the nine-byte frame and ends in the CRC of what precedes it |
| `Renault.ExtendedPadding` | src/tpms_tools/encoders/devices/renault.py:135-159 | what each padding byte holds, method by method |
| `Renault.OtherPadding` | src/tpms_tools/encoders/devices/renault.py:135-163 | an unknown padding method adds nothing: nine bytes, or ten with a 0 for a target of ten |
| `Renault.NineIsBaseline` | src/tpms_tools/encoders/devices/renault.py:83-103 | a target length of nine gives the same message as none |
| `Renault.ExtendedMessageErrors` | src/tpms_tools/encoders/devices/renault.py:170-198 | every error is ValueError, and a target below nine always raises it (a negative custom or drawn padding value can raise it too); the `padding_data or [0x00]` default keeps custom padding from dividing by zero |
| `Renault.PadBytes` | src/tpms_tools/encoders/devices/renault.py:135-159 | repeat and zero padding of bytes are bytes, random and custom padding when the draws or the list are |
| `Renault.ExtendedBytes` | src/tpms_tools/encoders/devices/renault.py:105-163 | with byte flags and byte padding the extended frame consists of bytes |
| `Renault.PaddedBytes` | src/tpms_tools/encoders/devices/renault.py:137-163 | above ten bytes the padded frame with its CRC consists of bytes |
| `Renault.ExtendedMessageLength` | src/tpms_tools/encoders/devices/renault.py:170-225 | an extended message of `target` byte-valued bytes is `32 + 16 * target` bits and `get_packet_length_info` reports `target` bytes, extended exactly above nine |
| `Renault.LengthInfoOf` | src/tpms_tools/encoders/devices/renault.py:200-225 | a message of `32 + 16n` bits, `n` positive, reports `n` packet bytes and `max(0, n - 9)` extension bytes |
| `Renault.LengthInfoLaw` | src/tpms_tools/encoders/devices/renault.py:200-225 | at most 32 bits is an error; otherwise `packet_bytes` is the number of whole 16-bit groups after the preamble and the extension is what exceeds nine |
| `Renault.TruncBounds` | src/tpms_tools/encoders/devices/renault.py:250 | `int(x)` truncates toward zero: within one below a non-negative value, within one above a negative one, and odd in `x` |
| `Renault.TargetLengthLaw` | src/tpms_tools/encoders/devices/renault.py:227-250 | the returned length is at least nine, a message of that length outlasts the duration, and above nine one byte fewer would not |
| `Renault.TargetLengthZero` | src/tpms_tools/encoders/devices/renault.py:242 | a zero bit duration raises ZeroDivisionError |
| `Mazda.PreambleShape` | src/tpms_tools/encoders/devices/mazda.py:9 | the preamble is 24 binary characters |
| `Mazda.XorAllByte` | src/tpms_tools/encoders/devices/mazda.py:51 | the XOR of bytes is a byte |
| `Mazda.XorAllClosed` | src/tpms_tools/encoders/devices/mazda.py:51 | appending the XOR of a list makes the XOR of the whole 0 |
| `Mazda.FrameFields` | src/tpms_tools/encoders/devices/mazda.py:42-51 | the id's low 32 bits, flags, scaled pressure, temperature and `unknown` are read back from the frame, and the XOR of all nine bytes is 0 |
| `Mazda.FrameBytes` | src/tpms_tools/encoders/devices/mazda.py:42-51 | every frame byte is a byte, whatever the inputs |
| `Mazda.MessageLength` | src/tpms_tools/encoders/devices/mazda.py:56-79 | `encode_message` never raises, gives 168 bits, and the receiving chain recovers the frame |
| `Mazda.PressureByte` | src/tpms_tools/encoders/devices/mazda.py:48 | byte 5 depends on the pressure alone |
| `Toyota.PreambleShape` | src/tpms_tools/encoders/devices/toyota.py:10 | the preamble is 16 binary characters |
| `Toyota.FrameLayout` | src/tpms_tools/encoders/devices/toyota.py:46-67 | the frame is the eight header bytes followed by their CRC-8 with initial value 0x80 |
| `Toyota.FrameFields` | src/tpms_tools/encoders/devices/toyota.py:41-67 | the id, and the pressure and temperature split across byte boundaries, are read back; byte 4's top bit is 0 and byte 6 carries status 1 |
| `Toyota.HeaderId` | src/tpms_tools/encoders/devices/toyota.py:49-52 | bytes 0 to 3 are the id's low 32 bits, big-endian |
| `Toyota.HeaderSplit` | src/tpms_tools/encoders/devices/toyota.py:42-61 | bytes 4 to 6 carry the raw pressure and temperature bytes across the byte boundaries |
| `Toyota.SplitAcross` | src/tpms_tools/encoders/devices/toyota.py:55-61 | a value split as its bits 1..7 and bit 0 on top of the next byte can be put back together |
| `Toyota.FrameChecksum` | src/tpms_tools/encoders/devices/toyota.py:67 | the CRC of all nine bytes is 0 with initial value 0x80 |
| `Toyota.InvertedPressure` | src/tpms_tools/encoders/devices/toyota.py:64 | byte 7 is a byte exactly when the pressure is in -7..56, and then the complement of the pressure byte; otherwise wider or negative |
| `Toyota.FrameBytes` | src/tpms_tools/encoders/devices/toyota.py:46-67 | the frame is all bytes exactly when the pressure is in -7..56 |
| `Toyota.WholeKpa` | src/tpms_tools/encoders/devices/toyota.py:42-58 | a whole-kPa pressure gives a raw value divisible by four, so byte 5's top bit is never set |
| `Toyota.MessageShape` | src/tpms_tools/encoders/devices/toyota.py:75-94 | the message is the preamble, "01" and the differential code of the frame bits, and `flags` changes nothing |
| `RenaultLegacy.CreatePacket` | src/tpms_tools/encoders/renault.py:22-47 | the packet is built exactly when `flags` is in 0..63 (else ValueError) and is then nine bytes headed by the layout |
| `RenaultLegacy.ExpandBits` | src/tpms_tools/encoders/renault.py:56-59 | the preamble loop yields eight 0/1 integers per byte |
| `RenaultLegacy.DefaultFlagsRaise` | src/tpms_tools/encoders/renault.py:22-35 | the default flags 0xD0 make byte 0 at least 832, so `create_packet` always raises |
| `RenaultLegacy.MatchesCurrent` | src/tpms_tools/encoders/renault.py:22-47 | when it succeeds, the packet equals the current encoder's frame with `unknown = 0xFFFF`, the table CRC equalling the bitwise one |
| `RenaultLegacy.PacketFields` | src/tpms_tools/encoders/renault.py:34-45 | flags come back whole, bytes 6 and 7 are 0xFF, byte 8 is the table CRC of bytes 0 to 7 and the CRC of all nine is 0 |
| `RenaultLegacy.ByteBitsFixed` | src/tpms_tools/encoders/renault.py:58-59 | `(byte >> i) & 1` for `i` from 7 to 0 spells the byte's eight-bit numeral |
| `RenaultLegacy.ExpandMatchesBits` | src/tpms_tools/encoders/renault.py:56-59 | the integer bits agree position by position with `bytes_to_bits` of the same bytes |
| `RenaultLegacy.ByteComplement` | src/tpms_tools/encoders/renault.py:8 | 0xAA/0x55 and 0xA9/0x56 have complementary bits |
| `RenaultLegacy.ExpandComplement` | src/tpms_tools/encoders/renault.py:56-59 | pairwise complementary bytes expand to complementary bit lists |
| `RenaultLegacy.PreamblePairs` | src/tpms_tools/encoders/renault.py:8 | the two Renault preambles are complementary byte by byte |
| `RenaultLegacy.ExpandInverts` | src/tpms_tools/encoders/renault.py:56-59 | expanding bytes complementary to `ys` gives the inverse of `bytes_to_bits(ys)` |
| `RenaultLegacy.PreambleComplement` | src/tpms_tools/encoders/renault.py:55-59 | the legacy preamble is 32 bits, the bitwise complement of the current encoder's preamble |
| `RenaultLegacy.MessageShape` | src/tpms_tools/encoders/renault.py:49-65 | `encode_message` raises exactly when `create_packet` does, and otherwise is the 32 preamble bits followed by the coded packet |

## Left out

- The GUI, transmission back ends, FSK modulation, fuzzers and scripts are outside the encoding core.
- The abstract `TPMSEncoder` of `encoders/base.py` and each device's `protocol_name`, `default_frequency` and `required_parameters` properties are constants with no behaviour to prove.
- `pulse_encode_message` of Mazda and Toyota goes through `self.pcm`, an attribute `encoders/base.py` supplies. The PCM encoder it calls is modelled as `Pcm.EncodePcmSignal`.
- Float conversions are replaced by the integers they produce:
  - `int(pressure_kpa / 0.75)` and `int(pressure_kpa)` become integer inputs;
  - Mazda's `int(pressure_raw / 1.38)` becomes a `scale` parameter;
  - Toyota's `int(x + 7.0) * 4` is taken on integer pressures.
  - Rounding of non-integral floats is not modelled.
- Python's Mersenne Twister is the `draw` parameter of random padding. Which bytes it draws is not modelled.
- `xor_bytes` is not defined in `utils/bitutils.py`. It is modelled as the XOR of all elements from 0 (`Mazda.XorAll`).
- `differential_manchester_encode` is not defined in `encoders/manchester.py`. It is the `diffManchester` parameter of the Toyota model.
- `ManchesterTPMSEncoder.manchester_encode` of the older Renault encoder is not part of this model. It is the `manchester` parameter.
- The `lru_cache` on the table generator has no observable effect.
- `calculate_target_length_for_duration` is modelled in exact real arithmetic, not IEEE doubles.
- PCM with float widths, `int(round(...))` of non-integral values and the `verbose` printing are left out. Widths are integers, for which the rounding is the identity.
- `int(s, 2)` is modelled for ASCII whitespace and digits. Python also accepts other Unicode whitespace and digits, which `bits_to_bytes` never sees from `bytes_to_bits`.
- Pcm.RoundTrip: stated for equal short and long widths only, because `decode_pcm_signal` ignores the widths. For unequal widths `Pcm.EncodeAdjusts` states how the gaps move.

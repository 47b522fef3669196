/** The bitwise CRC-8 of utils/crc8.py: MSB first, no reflection, no final
    XOR, the register held in a Python integer. */
module BitwiseCrc {
  import opened PyInt

  /** `crc & 0x80`: bit 7 is set exactly when the low byte is 128 or more. */
  predicate TopBit(crc: int) {
    Lo(crc) >= 128
  }

  /** One pass of the inner loop: `((crc << 1) & 0xFF) ^ polynomial` when bit 7
      is set, else `(crc << 1) & 0xFF`. The polynomial is XORed after the
      mask, so its own high bits survive into the register. */
  function Shift(crc: int, poly: int): int {
    var shifted := Lo(crc * 2);
    if TopBit(crc) then Xor(shifted, poly) else shifted
  }

  /** `k` passes of the inner loop. */
  function Shifts(crc: int, poly: int, k: nat): int
    decreases k
  {
    if k == 0 then crc else Shifts(Shift(crc, poly), poly, k - 1)
  }

  /** One iteration of the outer loop: `crc ^= byte`, then the eight passes. */
  function Absorb(crc: int, byte: int, poly: int): int {
    Shifts(Xor(crc, byte), poly, 8)
  }

  /** The outer loop over the bytes, left to right. */
  function Fold(crc: int, data: seq<int>, poly: int): int
    decreases |data|
  {
    if data == [] then crc else Fold(Absorb(crc, data[0], poly), data[1..], poly)
  }

  /** `crc8(data, nbytes, polynomial, init)`: the register starts at `init` and
      absorbs `data[:nbytes]`. */
  function Crc8(data: seq<int>, nbytes: int, poly: int, init: int): int {
    Fold(init, Prefix(data, nbytes), poly)
  }

  // ---------------------------------------------------------------------
  // Only the low byte of the register and of each element is ever read.

  /** A pass reads only the low byte of the register. */
  lemma ShiftReadsLow(crc: int, poly: int)
    ensures Shift(crc, poly) == Shift(Lo(crc), poly)
  {
    LoLo(crc);
    LoDouble(crc);
  }

  lemma ShiftsReadsLow(crc: int, poly: int, k: nat)
    requires k > 0
    ensures Shifts(crc, poly, k) == Shifts(Lo(crc), poly, k)
  {
    ShiftReadsLow(crc, poly);
  }

  /** Neither the high bits of the register nor those of the data byte
      reach the result of absorbing the byte. */
  lemma AbsorbReadsLow(crc: int, byte: int, poly: int)
    ensures Absorb(crc, byte, poly) == Absorb(Lo(crc), Lo(byte), poly)
  {
    LoXor(crc, byte);
    LoXor(Lo(crc), Lo(byte));
    LoLo(crc);
    LoLo(byte);
    ShiftsReadsLow(Xor(crc, byte), poly, 8);
    ShiftsReadsLow(Xor(Lo(crc), Lo(byte)), poly, 8);
  }

  /** With a one-byte polynomial every pass leaves a byte in the register. */
  lemma ShiftByte(crc: int, poly: int)
    requires 0 <= poly < 256
    ensures 0 <= Shift(crc, poly) < 256
  {
    if TopBit(crc) {
      XorBytes(Lo(crc * 2), poly);
    }
  }

  lemma {:induction false} ShiftsByte(crc: int, poly: int, k: nat)
    requires 0 <= poly < 256 && k > 0
    ensures 0 <= Shifts(crc, poly, k) < 256
    decreases k
  {
    ShiftByte(crc, poly);
    if k > 1 {
      ShiftsByte(Shift(crc, poly), poly, k - 1);
    }
  }

  /** With a one-byte polynomial and initial value the result is a byte. */
  lemma {:induction false} FoldByte(crc: int, data: seq<int>, poly: int)
    requires 0 <= poly < 256 && 0 <= crc < 256
    ensures 0 <= Fold(crc, data, poly) < 256
    decreases |data|
  {
    if data != [] {
      ShiftsByte(Xor(crc, data[0]), poly, 8);
      FoldByte(Absorb(crc, data[0], poly), data[1..], poly);
    }
  }

  lemma CrcIsByte(data: seq<int>, nbytes: int, poly: int, init: int)
    requires 0 <= poly < 256 && 0 <= init < 256
    ensures 0 <= Crc8(data, nbytes, poly, init) < 256
  {
    FoldByte(init, Prefix(data, nbytes), poly);
  }

  /** On a non-empty input only the low byte of the initial value matters. */
  lemma FoldReadsLow(crc: int, data: seq<int>, poly: int)
    requires data != []
    ensures Fold(crc, data, poly) == Fold(Lo(crc), data, poly)
  {
    AbsorbReadsLow(crc, data[0], poly);
    AbsorbReadsLow(Lo(crc), data[0], poly);
    LoLo(crc);
  }

  /** `byte & 0xFF` of each element. */
  function LowBytes(data: seq<int>): (r: seq<int>)
    ensures |r| == |data|
    ensures forall i :: 0 <= i < |data| ==> r[i] == Lo(data[i])
  {
    seq(|data|, i requires 0 <= i < |data| => Lo(data[i]))
  }

  lemma {:induction false} FoldLowBytes(crc: int, data: seq<int>, poly: int)
    ensures Fold(crc, data, poly) == Fold(crc, LowBytes(data), poly)
    decreases |data|
  {
    if data != [] {
      AbsorbReadsLow(crc, data[0], poly);
      AbsorbReadsLow(crc, Lo(data[0]), poly);
      LoLo(data[0]);
      assert LowBytes(data)[1..] == LowBytes(data[1..]);
      FoldLowBytes(Absorb(crc, data[0], poly), data[1..], poly);
    }
  }

  /** Bits above bit 7 of the data elements never matter. */
  lemma CrcLowBytes(data: seq<int>, nbytes: int, poly: int, init: int)
    ensures Crc8(data, nbytes, poly, init) == Crc8(LowBytes(data), nbytes, poly, init)
  {
    assert Prefix(LowBytes(data), nbytes) == LowBytes(Prefix(data, nbytes));
    FoldLowBytes(init, Prefix(data, nbytes), poly);
  }

  // ---------------------------------------------------------------------
  // Laws of the Python function.

  /** Only `data[:nbytes]` is read, and nothing at all when it is empty. */
  lemma CrcReadsPrefix(a: seq<int>, b: seq<int>, nbytes: int, poly: int, init: int)
    requires Prefix(a, nbytes) == Prefix(b, nbytes)
    ensures Crc8(a, nbytes, poly, init) == Crc8(b, nbytes, poly, init)
    ensures Prefix(a, nbytes) == [] ==> Crc8(a, nbytes, poly, init) == init
  {
  }

  /** Appending a byte absorbs it into the CRC of what came before. */
  lemma {:induction false} FoldAppend(crc: int, data: seq<int>, x: int, poly: int)
    ensures Fold(crc, data + [x], poly) == Absorb(Fold(crc, data, poly), x, poly)
    decreases |data|
  {
    if data != [] {
      assert (data + [x])[1..] == data[1..] + [x];
      FoldAppend(Absorb(crc, data[0], poly), data[1..], x, poly);
    }
  }

  lemma CrcAppend(data: seq<int>, x: int, poly: int, init: int)
    ensures Crc8(data + [x], |data| + 1, poly, init) == Absorb(Crc8(data, |data|, poly, init), x, poly)
  {
    FoldAppend(init, data, x, poly);
  }

  lemma {:induction false} ShiftsZero(poly: int, k: nat)
    ensures Shifts(0, poly, k) == 0
    decreases k
  {
    if k > 0 {
      assert Shift(0, poly) == 0;
      ShiftsZero(poly, k - 1);
    }
  }

  /** Absorbing a register's own value clears it. */
  lemma AbsorbSelf(crc: int, poly: int)
    ensures Absorb(crc, crc, poly) == 0
  {
    XorSelf(crc);
    ShiftsZero(poly, 8);
  }

  /** Residue: a message followed by its own CRC has CRC 0, for every
      polynomial and initial value. */
  lemma CrcResidue(data: seq<int>, poly: int, init: int)
    ensures Crc8(data + [Crc8(data, |data|, poly, init)], |data| + 1, poly, init) == 0
  {
    CrcAppend(data, Crc8(data, |data|, poly, init), poly, init);
    AbsorbSelf(Crc8(data, |data|, poly, init), poly);
  }

  // ---------------------------------------------------------------------
  // Concrete values: the loop with polynomial 0x07 on byte registers,
  // with the XOR written out so that literal inputs evaluate.

  /** One pass with polynomial 0x07 on a byte register: XORing 0x07 into
      the shifted register complements its low three bits. */
  function Pass07(c: int): int {
    var shifted := c * 2 - 256;
    if c >= 128 then shifted / 8 * 8 + 7 - shifted % 8 else c * 2
  }

  /** The eight passes of one byte, written out. */
  function Passes8(c: int): int {
    Pass07(Pass07(Pass07(Pass07(Pass07(Pass07(Pass07(Pass07(c))))))))
  }

  /** The outer loop with polynomial 0x07, on bits. */
  function Crc07(crc: int, data: seq<int>): int
    decreases |data|
  {
    if data == [] then crc else Crc07(Passes8(XorByte(crc, data[0])), data[1..])
  }

  lemma PassComputes(c: int)
    requires 0 <= c < 256
    ensures Shift(c, 0x07) == Pass07(c)
  {
    Pow2Byte();
    LoByte(c);
    if c >= 128 {
      DivModUnique(c * 2, 256, 1, c * 2 - 256);
      XorSeven(c * 2 - 256);
    } else {
      DivModUnique(c * 2, 256, 0, c * 2);
    }
  }

  /** One pass, peeled off the front of `k` passes. */
  lemma PassStep(c: int, k: nat)
    requires 0 <= c < 256 && k > 0
    ensures Shifts(c, 0x07, k) == Shifts(Pass07(c), 0x07, k - 1) && 0 <= Pass07(c) < 256
  {
    PassComputes(c);
    ShiftByte(c, 0x07);
  }

  /** The eight passes of the inner loop on a byte register. */
  lemma EightPasses(c: int)
    requires 0 <= c < 256
    ensures Shifts(c, 0x07, 8) == Passes8(c)
  {
    var c1 := Pass07(c);
    PassStep(c, 8);
    var c2 := Pass07(c1);
    PassStep(c1, 7);
    var c3 := Pass07(c2);
    PassStep(c2, 6);
    var c4 := Pass07(c3);
    PassStep(c3, 5);
    var c5 := Pass07(c4);
    PassStep(c4, 4);
    var c6 := Pass07(c5);
    PassStep(c5, 3);
    var c7 := Pass07(c6);
    PassStep(c6, 2);
    PassStep(c7, 1);
  }

  /** On byte data and a byte register the bit-level loop is the loop of
      utils/crc8.py. */
  lemma {:induction false} Crc07Computes(crc: int, data: seq<int>)
    requires 0 <= crc < 256 && forall i :: 0 <= i < |data| ==> 0 <= data[i] < 256
    ensures Fold(crc, data, 0x07) == Crc07(crc, data)
    decreases |data|
  {
    if data != [] {
      Pow2Byte();
      XorBytes(crc, data[0]);
      XorByteForm(crc, data[0]);
      EightPasses(Xor(crc, data[0]));
      FoldByte(crc, data[..1], 0x07);
      assert Absorb(crc, data[0], 0x07) == Fold(crc, data[..1], 0x07);
      Crc07Computes(Absorb(crc, data[0], 0x07), data[1..]);
    }
  }

  /** The whole of byte data, absorbed into a zero register. */
  lemma CrcComputes(data: seq<int>)
    requires forall i :: 0 <= i < |data| ==> 0 <= data[i] < 256
    ensures Crc8(data, |data|, 0x07, 0x00) == Crc07(0, data)
  {
    assert Prefix(data, |data|) == data;
    Crc07Computes(0, data);
  }

  /** Three bytes absorbed one after the other. */
  lemma Crc07Three(data: seq<int>, b0: int, b1: int, b2: int, c1: int, c2: int, c3: int)
    requires data == [b0, b1, b2]
    requires c1 == Passes8(XorByte(0, b0))
    requires c2 == Passes8(XorByte(c1, b1))
    requires c3 == Passes8(XorByte(c2, b2))
    ensures Crc07(0, data) == c3
  {
    var d1 := data[1..];
    var d2 := d1[1..];
    assert d1 == [b1, b2] && d2 == [b2] && d2[1..] == [];
    calc {
      Crc07(0, data);
      Crc07(c1, d1);
      Crc07(c2, d2);
      Crc07(c3, []);
    }
  }

  /** Byte 0 of the "123" example: the register before it is 0x00. */
  lemma AsciiByte0()
    ensures XorByte(0x00, 0x31) == 0x31 && Passes8(0x31) == 0x97
  {
    assert Pass07(0x31) == 0x62;
    assert Pass07(0x62) == 0xc4;
    assert Pass07(0xc4) == 0x8f;
    assert Pass07(0x8f) == 0x19;
    assert Pass07(0x19) == 0x32;
    assert Pass07(0x32) == 0x64;
    assert Pass07(0x64) == 0xc8;
    assert Pass07(0xc8) == 0x97;
  }

  /** Byte 1 of the "123" example: the register before it is 0x97. */
  lemma AsciiByte1()
    ensures XorByte(0x97, 0x32) == 0xa5 && Passes8(0xa5) == 0x72
  {
    assert Pass07(0xa5) == 0x4d;
    assert Pass07(0x4d) == 0x9a;
    assert Pass07(0x9a) == 0x33;
    assert Pass07(0x33) == 0x66;
    assert Pass07(0x66) == 0xcc;
    assert Pass07(0xcc) == 0x9f;
    assert Pass07(0x9f) == 0x39;
    assert Pass07(0x39) == 0x72;
  }

  /** Byte 2 of the "123" example: the register before it is 0x72. */
  lemma AsciiByte2()
    ensures XorByte(0x72, 0x33) == 0x41 && Passes8(0x41) == 0xc0
  {
    assert Pass07(0x41) == 0x82;
    assert Pass07(0x82) == 0x03;
    assert Pass07(0x03) == 0x06;
    assert Pass07(0x06) == 0x0c;
    assert Pass07(0x0c) == 0x18;
    assert Pass07(0x18) == 0x30;
    assert Pass07(0x30) == 0x60;
    assert Pass07(0x60) == 0xc0;
  }

  /** The docstring example `crc8(b'123')`: with polynomial 0x07 and
      initial value 0 the code gives 0xC0. */
  lemma AsciiExample(ascii: seq<int>)
    requires ascii == [0x31, 0x32, 0x33]
    ensures Crc8(ascii, 3, 0x07, 0x00) == 0xc0
  {
    CrcComputes(ascii);
    AsciiByte0();
    AsciiByte1();
    AsciiByte2();
    Crc07Three(ascii, 0x31, 0x32, 0x33, 0x97, 0x72, 0xc0);
  }

  /** Byte 0 of the 1, 2, 3 example: the register before it is 0x00. */
  lemma SmallByte0()
    ensures XorByte(0x00, 0x01) == 0x01 && Passes8(0x01) == 0x07
  {
    assert Pass07(0x01) == 0x02;
    assert Pass07(0x02) == 0x04;
    assert Pass07(0x04) == 0x08;
    assert Pass07(0x08) == 0x10;
    assert Pass07(0x10) == 0x20;
    assert Pass07(0x20) == 0x40;
    assert Pass07(0x40) == 0x80;
    assert Pass07(0x80) == 0x07;
  }

  /** Byte 1 of the 1, 2, 3 example: the register before it is 0x07. */
  lemma SmallByte1()
    ensures XorByte(0x07, 0x02) == 0x05 && Passes8(0x05) == 0x1b
  {
    assert Pass07(0x05) == 0x0a;
    assert Pass07(0x0a) == 0x14;
    assert Pass07(0x14) == 0x28;
    assert Pass07(0x28) == 0x50;
    assert Pass07(0x50) == 0xa0;
    assert Pass07(0xa0) == 0x47;
    assert Pass07(0x47) == 0x8e;
    assert Pass07(0x8e) == 0x1b;
  }

  /** Byte 2 of the 1, 2, 3 example: the register before it is 0x1b. */
  lemma SmallByte2()
    ensures XorByte(0x1b, 0x03) == 0x18 && Passes8(0x18) == 0x48
  {
    assert Pass07(0x18) == 0x30;
    assert Pass07(0x30) == 0x60;
    assert Pass07(0x60) == 0xc0;
    assert Pass07(0xc0) == 0x87;
    assert Pass07(0x87) == 0x09;
    assert Pass07(0x09) == 0x12;
    assert Pass07(0x12) == 0x24;
    assert Pass07(0x24) == 0x48;
  }

  /** The docstring example `crc8([0x01, 0x02, 0x03])`: the code gives 0x48. */
  lemma SmallExample(small: seq<int>)
    requires small == [0x01, 0x02, 0x03]
    ensures Crc8(small, 3, 0x07, 0x00) == 0x48
  {
    CrcComputes(small);
    SmallByte0();
    SmallByte1();
    SmallByte2();
    Crc07Three(small, 0x01, 0x02, 0x03, 0x07, 0x1b, 0x48);
  }
}

/** The table-driven CRC-8 of modulation/utils.py: a 256-entry table per
    polynomial, then one lookup per data byte. */
module TableCrc {
  import opened Results
  import opened PyInt
  import opened BitUtils
  import BitwiseCrc

  /** One pass of the generator's inner loop: `((crc << 1) ^ polynomial) & 0xFF`
      when bit 7 is set, else `(crc << 1) & 0xFF`. Here the mask is applied
      after the XOR, so only the low byte of the polynomial survives. */
  function TableShift(crc: int, poly: int): int {
    if BitwiseCrc.TopBit(crc) then Lo(Xor(crc * 2, poly)) else Lo(crc * 2)
  }

  function TableShifts(crc: int, poly: int, k: nat): int
    decreases k
  {
    if k == 0 then crc else TableShifts(TableShift(crc, poly), poly, k - 1)
  }

  /** Entry `i` of `_generate_crc8_table(polynomial)`: `i` after eight passes. */
  function Entry(poly: int, i: int): int {
    TableShifts(i, poly, 8)
  }

  /** `_generate_crc8_table(polynomial)`; the `lru_cache` memoisation has no
      observable effect and is not modelled. */
  function Table(poly: int): seq<int> {
    seq(256, i => Entry(poly, i))
  }

  /** The loop `crc = table[crc ^ byte]`, with Python's indexing: a negative
      index counts from the end and any other index outside the table raises. */
  function Lookup(table: seq<int>, crc: int, data: seq<int>): Result<int>
    decreases |data|
  {
    if data == [] then Ok(crc)
    else
      var next :- Index(table, Xor(crc, data[0]));
      Lookup(table, next, data[1..])
  }

  /** `crc8(data, polynomial, init)`: `bytes(data)` accepts exactly the
      sequences of integers in 0..255 and raises ValueError on any other,
      before anything else happens. */
  function Crc8(data: seq<int>, poly: int, init: int): Result<int> {
    if !AllBytes(data) then Err(ValueError) else Lookup(Table(poly), init, data)
  }

  /** `CRC8(polynomial, init)`: a calculator bound to one parameter set. */
  datatype Calculator = Calculator(polynomial: int, init: int) {
    /** `self._table`. */
    function LookupTable(): seq<int> {
      Table(polynomial)
    }

    /** `calculate(data)`. */
    function Calculate(data: seq<int>): Result<int> {
      Crc8(data, polynomial, init)
    }

    /** `validate(data, expected_crc)`: raises whenever `calculate` does. */
    function Validate(data: seq<int>, expected: int): Result<bool> {
      var crc :- Calculate(data);
      Ok(crc == expected)
    }
  }

  /** The module-level `tpms_crc8` instance. */
  const TpmsCrc8 := Calculator(0x07, 0x00)

  // ---------------------------------------------------------------------
  // The table.

  /** A generator pass is the low byte of the bitwise pass. */
  lemma TableShiftIsLow(crc: int, poly: int)
    ensures TableShift(crc, poly) == Lo(BitwiseCrc.Shift(crc, poly))
  {
    LoXor(crc * 2, poly);
    LoXor(Lo(crc * 2), poly);
    LoLo(crc * 2);
  }

  lemma {:induction false} TableShiftsIsLow(crc: int, poly: int, k: nat)
    requires k > 0
    ensures TableShifts(crc, poly, k) == Lo(BitwiseCrc.Shifts(crc, poly, k))
    decreases k
  {
    TableShiftIsLow(crc, poly);
    var next := BitwiseCrc.Shift(crc, poly);
    if k > 1 {
      TableShiftsIsLow(Lo(next), poly, k - 1);
      BitwiseCrc.ShiftsReadsLow(next, poly, k - 1);
    }
  }

  /** Every table has 256 entries, each a byte, whatever the polynomial. */
  lemma TableShape(poly: int)
    ensures |Table(poly)| == 256
    ensures forall i :: 0 <= i < 256 ==> 0 <= Table(poly)[i] < 256
  {
    forall i | 0 <= i < 256
      ensures 0 <= Table(poly)[i] < 256
    {
      TableShiftsIsLow(i, poly, 8);
    }
  }

  /** Entry `i` is the low byte of what the bitwise loop of utils/crc8.py
      computes when it absorbs byte `i` into a zero register; for a one-byte
      polynomial it is exactly that value. */
  lemma TableEntryIsBitwise(poly: int, i: int)
    requires 0 <= i < 256
    ensures Table(poly)[i] == Lo(BitwiseCrc.Absorb(0, i, poly))
    ensures 0 <= poly < 256 ==> Table(poly)[i] == BitwiseCrc.Absorb(0, i, poly)
  {
    TableShiftsIsLow(i, poly, 8);
    XorZero(i);
    var v := BitwiseCrc.Shifts(i, poly, 8);
    assert BitwiseCrc.Absorb(0, i, poly) == v;
    if 0 <= poly < 256 {
      BitwiseCrc.ShiftsByte(i, poly, 8);
      LoByte(v);
    }
  }

  /** Entry 0 is 0 for every polynomial. */
  lemma TableZero(poly: int)
    ensures Table(poly)[0] == 0
  {
    TableShiftsIsLow(0, poly, 8);
    BitwiseCrc.ShiftsZero(poly, 8);
  }

  // ---------------------------------------------------------------------
  // The lookup loop.

  /** One lookup from a byte register with a byte of data stays inside the
      table and lands on the low byte of the bitwise step. */
  lemma LookupStep(poly: int, crc: int, d: int)
    requires 0 <= crc < 256 && 0 <= d < 256
    ensures Index(Table(poly), Xor(crc, d)) == Ok(Lo(BitwiseCrc.Absorb(crc, d, poly)))
  {
    XorBytes(crc, d);
    TableShiftsIsLow(Xor(crc, d), poly, 8);
  }

  lemma {:induction false} LookupMatchesBitwise(poly: int, crc: int, data: seq<int>)
    requires AllBytes(data) && 0 <= crc < 256
    ensures Lookup(Table(poly), crc, data) == Ok(Lo(BitwiseCrc.Fold(crc, data, poly)))
    decreases |data|
  {
    if data != [] {
      var next := BitwiseCrc.Absorb(crc, data[0], poly);
      LookupStep(poly, crc, data[0]);
      LookupMatchesBitwise(poly, Lo(next), data[1..]);
      if data[1..] != [] {
        BitwiseCrc.FoldReadsLow(next, data[1..], poly);
      } else {
        LoLo(next);
      }
    }
  }

  /** On bytes with a byte initial value, the table-driven CRC is the low byte
      of the bitwise `crc8(data, len(data), polynomial, init)`, and equal to it
      when the polynomial is a byte. */
  lemma TableMatchesBitwise(data: seq<int>, poly: int, init: int)
    requires AllBytes(data) && 0 <= init < 256
    ensures Crc8(data, poly, init) == Ok(Lo(BitwiseCrc.Crc8(data, |data|, poly, init)))
    ensures 0 <= poly < 256 ==> Crc8(data, poly, init) == Ok(BitwiseCrc.Crc8(data, |data|, poly, init))
  {
    LookupMatchesBitwise(poly, init, data);
    assert Prefix(data, |data|) == data;
    if 0 <= poly < 256 {
      BitwiseCrc.FoldByte(init, data, poly);
      LoByte(BitwiseCrc.Fold(init, data, poly));
    }
  }

  /** The examples in the docstrings of `crc8` and `CRC8`: the code gives
      0xC0 for b'123', where the docstrings print 113, and 0x48 for
      [0x01, 0x02, 0x03], where the docstring prints 188. */
  lemma DocstringExamples(ascii: seq<int>, small: seq<int>)
    requires ascii == [0x31, 0x32, 0x33] && small == [0x01, 0x02, 0x03]
    ensures Crc8(ascii, 0x07, 0x00) == Ok(0xc0) && Crc8(ascii, 0x07, 0x00) != Ok(113)
    ensures Crc8(small, 0x07, 0x00) == Ok(0x48) && Crc8(small, 0x07, 0x00) != Ok(188)
    ensures Calculator(0x07, 0x00).Calculate(ascii) == Ok(0xc0)
  {
    BitwiseCrc.AsciiExample(ascii);
    BitwiseCrc.SmallExample(small);
    TableMatchesBitwise(ascii, 0x07, 0x00);
    TableMatchesBitwise(small, 0x07, 0x00);
  }

  /** An element outside 0..255 makes `bytes(data)` raise ValueError. */
  lemma RejectsNonBytes(data: seq<int>, poly: int, init: int)
    requires exists i :: 0 <= i < |data| && !(0 <= data[i] < 256)
    ensures Crc8(data, poly, init) == Err(ValueError)
  {
  }

  /** An initial value of 256 or more indexes past the table on the first
      byte. */
  lemma LargeInitRaises(data: seq<int>, poly: int, init: int)
    requires AllBytes(data) && data != [] && init >= 256
    ensures Crc8(data, poly, init) == Err(IndexError)
  {
    Pow2Byte();
    XorAbove(init, data[0], 8);
  }

  /** With no data the initial value comes back unchanged, even when it is not
      a byte. */
  lemma EmptyIsInit(poly: int, init: int)
    ensures Crc8([], poly, init) == Ok(init)
  {
  }

  // ---------------------------------------------------------------------
  // The calculator class.

  /** `validate(data, e)` is True exactly when `calculate(data) == e`, and
      raises exactly when `calculate` raises. */
  lemma ValidateIff(c: Calculator, data: seq<int>, expected: int)
    ensures c.Validate(data, expected) == Ok(true) <==> c.Calculate(data) == Ok(expected)
    ensures c.Validate(data, expected).Err? <==> c.Calculate(data).Err?
  {
  }
}

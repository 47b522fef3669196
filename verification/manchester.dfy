/** encoders/manchester.py: Manchester coding of bit strings, '0' as "10"
    and '1' as "01", so the data bit is the second half of each pair. */
module Manchester {
  import opened Results
  import opened PyInt
  import opened BitUtils

  /** The pair one input character becomes; anything but '0' and '1' raises
      ValueError. */
  function EncodeBit(c: char): (r: Result<string>)
    ensures r.Ok? <==> c == '0' || c == '1'
    ensures r.Err? ==> r.error == ValueError
    ensures r.Ok? ==> |r.value| == 2 && r.value[1] == c && r.value[0] != c && IsBinary(r.value)
  {
    if c == '0' then Ok("10") else if c == '1' then Ok("01") else Err(ValueError)
  }

  /** `manchester_encode(data)`: the pairs of the characters, in order; the
      first character outside '0'/'1' raises ValueError. */
  function Encode(data: string): (r: Result<string>)
    ensures r.Ok? <==> IsBinary(data)
    ensures r.Err? ==> r.error == ValueError
    ensures r.Ok? ==> |r.value| == 2 * |data| && IsBinary(r.value)
    decreases |data|
  {
    if data == [] then Ok([])
    else
      var pair :- EncodeBit(data[0]);
      var rest :- Encode(data[1..]);
      Ok(pair + rest)
  }

  /** The loop of `manchester_decode` from position `ipos`: while two bits
      remain before `length`, read a pair and advance by two; a pair of equal
      bits ends the loop after the advance; otherwise keep its second bit.
      Indexing is Python's, so negative positions count from the end. */
  function DecodeFrom(bits: string, ipos: int, length: int): Result<(string, int)>
    decreases length - ipos
  {
    if ipos > length - 2 then Ok(([], ipos))
    else
      var bit1 :- Index(bits, ipos);
      var bit2 :- Index(bits, ipos + 1);
      if bit1 == bit2 then Ok(([], ipos + 2))
      else
        var rest :- DecodeFrom(bits, ipos + 2, length);
        Ok(([bit2] + rest.0, rest.1))
  }

  /** Where decoding stops: the whole string, or `start + 2 * max_bits` when
      `max_bits` is non-zero (of either sign) and that is shorter. */
  function Limit(bits: string, start: int, maxBits: int): int {
    if maxBits != 0 && |bits| > start + maxBits * 2 then start + maxBits * 2 else |bits|
  }

  /** `manchester_decode(bits, start, max_bits)`: the decoded bits and the
      position after the last pair read. */
  function Decode(bits: string, start: int, maxBits: int): Result<(string, int)> {
    DecodeFrom(bits, start, Limit(bits, start, maxBits))
  }

  // ---------------------------------------------------------------------
  // Encoding.

  /** Pair `i` of the encoding is the inverted bit followed by the bit. */
  lemma {:induction false} EncodePairs(data: string)
    requires IsBinary(data)
    ensures forall i :: 0 <= i < |data| ==>
      Encode(data).value[2 * i] == Invert(data)[i] && Encode(data).value[2 * i + 1] == data[i]
    decreases |data|
  {
    if data != [] {
      EncodePairs(data[1..]);
      var e, rest := Encode(data).value, Encode(data[1..]).value;
      assert e == EncodeBit(data[0]).value + rest;
      forall i | 0 <= i < |data|
        ensures e[2 * i] == Invert(data)[i] && e[2 * i + 1] == data[i]
      {
        if i > 0 {
          assert e[2 * i] == rest[2 * (i - 1)] && e[2 * i + 1] == rest[2 * (i - 1) + 1];
          assert data[1..][i - 1] == data[i];
        }
      }
    }
  }

  /** Encoding distributes over concatenation. */
  lemma {:induction false} EncodeAppend(a: string, b: string)
    requires IsBinary(a) && IsBinary(b)
    ensures Encode(a + b) == Ok(Encode(a).value + Encode(b).value)
    decreases |a|
  {
    assert IsBinary(a + b);
    if a == [] {
      assert a + b == b;
      assert Encode(a).value == [];
      assert Encode(a).value + Encode(b).value == Encode(b).value;
    } else {
      assert (a + b)[0] == a[0] && (a + b)[1..] == a[1..] + b;
      EncodeAppend(a[1..], b);
      var pair := EncodeBit(a[0]).value;
      assert Encode(a + b).value == pair + (Encode(a[1..]).value + Encode(b).value);
      assert Encode(a).value == pair + Encode(a[1..]).value;
      assert pair + (Encode(a[1..]).value + Encode(b).value) == (pair + Encode(a[1..]).value) + Encode(b).value;
    }
  }

  // ---------------------------------------------------------------------
  // Decoding.

  /** `bits[p..p + 2 * |d|]` is a valid encoding of `d`. */
  predicate EncodesAt(bits: string, p: int, d: string) {
    && 0 <= p && p + 2 * |d| <= |bits|
    && forall i :: 0 <= i < |d| ==> bits[p + 2 * i] != bits[p + 2 * i + 1] && bits[p + 2 * i + 1] == d[i]
  }

  /** Decoding a valid encoding that runs exactly to the limit returns the
      encoded bits and stops at the limit. */
  lemma {:induction false} DecodeFromEncoded(bits: string, p: int, d: string)
    requires EncodesAt(bits, p, d)
    ensures DecodeFrom(bits, p, p + 2 * |d|) == Ok((d, p + 2 * |d|))
    decreases |d|
  {
    if d != [] {
      var length := p + 2 * |d|;
      EncodesTail(bits, p, d);
      DecodeFromEncoded(bits, p + 2, d[1..]);
      assert p + 2 + 2 * |d[1..]| == length;
      DecodeStep(bits, p, length, d[1..], length);
      assert [d[0]] + d[1..] == d;
    }
  }

  /** An encoding of `d` starts with an unequal pair ending in `d[0]`, and
      the encoding of the rest follows it. */
  lemma EncodesTail(bits: string, p: int, d: string)
    requires EncodesAt(bits, p, d) && d != []
    ensures bits[p] != bits[p + 1] && bits[p + 1] == d[0]
    ensures EncodesAt(bits, p + 2, d[1..])
  {
    assert bits[p + 2 * 0] != bits[p + 2 * 0 + 1];
    forall i | 0 <= i < |d[1..]|
      ensures bits[p + 2 + 2 * i] != bits[p + 2 + 2 * i + 1] && bits[p + 2 + 2 * i + 1] == d[1..][i]
    {
      assert bits[p + 2 * (i + 1)] != bits[p + 2 * (i + 1) + 1];
    }
  }

  /** One turn of the loop over an unequal pair in range keeps its second
      bit in front of what the rest of the loop decodes. */
  lemma DecodeStep(bits: string, p: int, length: int, rest: string, end: int)
    requires 0 <= p && p + 2 <= length <= |bits| && bits[p] != bits[p + 1]
    requires DecodeFrom(bits, p + 2, length) == Ok((rest, end))
    ensures DecodeFrom(bits, p, length) == Ok(([bits[p + 1]] + rest, end))
  {
  }

  lemma EncodesItself(data: string)
    requires IsBinary(data)
    ensures EncodesAt(Encode(data).value, 0, data)
  {
    EncodePairs(data);
    forall i | 0 <= i < |data|
      ensures Encode(data).value[2 * i] != Encode(data).value[2 * i + 1]
    {
    }
  }

  /** Round trip: decoding an encoding from position 0 without a bit limit
      returns the data and the position after the last pair. */
  lemma RoundTrip(data: string)
    requires IsBinary(data)
    ensures Decode(Encode(data).value, 0, 0) == Ok((data, 2 * |data|))
  {
    var e := Encode(data).value;
    EncodesItself(data);
    assert Limit(e, 0, 0) == 2 * |data|;
    DecodeFromEncoded(e, 0, data);
  }

  /** `EncodesAt` of a longer string holds for each of its prefixes. */
  lemma EncodesPrefix(bits: string, p: int, d: string, k: nat)
    requires EncodesAt(bits, p, d) && k <= |d|
    ensures EncodesAt(bits, p, d[..k])
  {
  }

  /** With `max_bits = k` for `0 < k <= len(data)`, decoding an encoding
      returns the first `k` bits and stops after `2 * k` positions. */
  lemma RoundTripMaxBits(data: string, k: int)
    requires IsBinary(data) && 0 < k <= |data|
    ensures Decode(Encode(data).value, 0, k) == Ok((data[..k], 2 * k))
  {
    EncodesItself(data);
    EncodesPrefix(Encode(data).value, 0, data, k);
    DecodeFromEncoded(Encode(data).value, 0, data[..k]);
  }

  /** A negative `max_bits` is truthy and moves the limit below the start, so
      nothing is read at all. */
  lemma NegativeMaxBits(bits: string, start: int, maxBits: int)
    requires maxBits < 0
    ensures Decode(bits, start, maxBits) == Ok(([], start))
  {
  }

  /** What decoding from a non-negative position promises: every decoded bit
      is the second half of an unequal pair read in order; the loop ends
      either at the limit (fewer than two bits left) or right after a pair
      of equal bits, which is not decoded; and from a start within the limit
      no position past the limit is reported. */
  lemma {:induction false} DecodeFromSound(bits: string, ipos: int, length: int)
    requires 0 <= ipos <= |bits| && length <= |bits|
    ensures DecodeFrom(bits, ipos, length).Ok?
    ensures var (d, end) := DecodeFrom(bits, ipos, length).value;
      && EncodesAt(bits, ipos, d)
      && (|| (end == ipos + 2 * |d| && end > length - 2)
          || (end == ipos + 2 * |d| + 2 && end <= length && bits[end - 2] == bits[end - 1]))
      && (ipos <= length ==> end <= length)
    decreases length - ipos
  {
    if ipos <= length - 2 && bits[ipos] != bits[ipos + 1] {
      DecodeFromSound(bits, ipos + 2, length);
      var (d, end) := DecodeFrom(bits, ipos + 2, length).value;
      var d' := [bits[ipos + 1]] + d;
      assert DecodeFrom(bits, ipos, length).value == (d', end);
      forall i | 0 <= i < |d'|
        ensures bits[ipos + 2 * i] != bits[ipos + 2 * i + 1] && bits[ipos + 2 * i + 1] == d'[i]
      {
        if i > 0 {
          assert bits[ipos + 2 + 2 * (i - 1)] != bits[ipos + 2 + 2 * (i - 1) + 1];
        }
      }
    }
  }

  /** `max_bits` bounds the output: from a start inside the string decoding
      succeeds, a positive `max_bits` caps the decoded bits at `max_bits`,
      and each decoded bit takes two positions of what follows the start. */
  lemma DecodeBound(bits: string, start: int, maxBits: int)
    requires 0 <= start <= |bits|
    ensures Decode(bits, start, maxBits).Ok?
    ensures maxBits > 0 ==> |Decode(bits, start, maxBits).value.0| <= maxBits
    ensures 2 * |Decode(bits, start, maxBits).value.0| <= |bits| - start
  {
    var length := Limit(bits, start, maxBits);
    DecodeFromSound(bits, start, length);
    if length < start {
      assert DecodeFrom(bits, start, length) == Ok(([], start));
    }
  }

  /** The loop reads only `bits[ipos:length]` (with Python indexing) and
      raises IndexError exactly when a start before `-len(bits)` still
      leaves a pair to read. */
  lemma DecodeRaises(bits: string, start: int, maxBits: int)
    ensures Decode(bits, start, maxBits).Err? <==>
      start < -|bits| && start <= Limit(bits, start, maxBits) - 2
    ensures Decode(bits, start, maxBits).Err? ==> Decode(bits, start, maxBits).error == IndexError
  {
    var length := Limit(bits, start, maxBits);
    if 0 <= start <= |bits| {
      DecodeFromSound(bits, start, length);
    } else if start >= -|bits| {
      NegativeStartOk(bits, start, length);
    }
  }

  /** From a negative position no earlier than `-len(bits)` every read is in
      range. */
  lemma {:induction false} NegativeStartOk(bits: string, ipos: int, length: int)
    requires -|bits| <= ipos && length <= |bits|
    ensures DecodeFrom(bits, ipos, length).Ok?
    decreases length - ipos
  {
    if ipos <= length - 2 && Index(bits, ipos) != Index(bits, ipos + 1) {
      NegativeStartOk(bits, ipos + 2, length);
    }
  }

  /** tests/encoders/test_manchester.py: "10011010" decodes to "0100" after
      all eight positions, and "1100" to "" after its first (equal) pair. */
  lemma ManchesterTestCases(encoded: string, invalid: string)
    requires encoded == "10011010" && invalid == "1100"
    ensures Decode(encoded, 0, 0) == Ok(("0100", 8))
    ensures Decode(invalid, 0, 0) == Ok(([], 2))
  {
    assert EncodesAt(encoded, 0, "0100");
    DecodeFromEncoded(encoded, 0, "0100");
  }

  /** The fixture of the same test file expects "1011" to encode to
      "10011010"; with '1' as "01" the code gives "01100101" instead (the
      fixture is never run as a test). */
  lemma EncodeFixture(data: string)
    requires data == "1011"
    ensures Encode(data) == Ok("01100101")
    ensures Encode(data) != Ok("10011010")
  {
    EncodePairs(data);
    var e := Encode(data).value;
    assert e[2 * 0] == '0' && e[2 * 0 + 1] == '1';
    assert e[2 * 1] == '1' && e[2 * 1 + 1] == '0';
    assert e[2 * 2] == '0' && e[2 * 2 + 1] == '1';
    assert e[2 * 3] == '0' && e[2 * 3 + 1] == '1';
    assert e == "01100101";
  }
}

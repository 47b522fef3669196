/** utils/bitutils.py: bytes to and from strings of '0'/'1' characters,
    substring search and inversion. */
module BitUtils {
  import opened Results
  import opened PyInt

  /** A string made only of '0' and '1'. */
  predicate IsBinary(s: string) {
    forall i :: 0 <= i < |s| ==> s[i] == '0' || s[i] == '1'
  }

  predicate AllBytes(bs: seq<int>) {
    forall i :: 0 <= i < |bs| ==> 0 <= bs[i] < 256
  }

  function BitChar(d: int): char {
    if d == 1 then '1' else '0'
  }

  function Zeros(n: nat): (r: string)
    ensures |r| == n && forall i :: 0 <= i < n ==> r[i] == '0'
  {
    if n == 0 then [] else Zeros(n - 1) + ['0']
  }

  /** The digits of `bin(n)` without the prefix: no leading zeros, "0" for 0. */
  function Digits(n: nat): (r: string)
    ensures |r| >= 1
    decreases n
  {
    if n < 2 then [BitChar(n)] else Digits(n / 2) + [BitChar(n % 2)]
  }

  /** Left padding with '0' up to width `w`, as the `0` flag of a format spec. */
  function ZeroPad(s: string, w: nat): (r: string)
    ensures |r| == if |s| >= w then |s| else w
  {
    if |s| >= w then s else Zeros(w - |s|) + s
  }

  /** `format(b, "08b")`: at least eight characters; a negative value keeps its
      sign in front and the zeros go between the sign and the digits. */
  function Format08b(b: int): string {
    if b >= 0 then ZeroPad(Digits(b), 8) else "-" + ZeroPad(Digits(-b), 7)
  }

  /** `bytes_to_bits(byte_arr)`: the formatted elements, concatenated. */
  function BytesToBits(bs: seq<int>): string
    decreases |bs|
  {
    if bs == [] then [] else Format08b(bs[0]) + BytesToBits(bs[1..])
  }

  // ---------------------------------------------------------------------
  // `int(s, 2)`.

  /** The whitespace `int()` strips from both ends (the ASCII set). */
  predicate IsSpace(c: char) {
    c == ' ' || c == '\t' || c == '\n' || c == '\r' || c == '\U{0B}' || c == '\U{0C}'
  }

  function StripLeft(s: string): (r: string)
    ensures |r| <= |s|
  {
    if s != [] && IsSpace(s[0]) then StripLeft(s[1..]) else s
  }

  function StripRight(s: string): (r: string)
    ensures |r| <= |s|
  {
    if s != [] && IsSpace(s[|s| - 1]) then StripRight(s[..|s| - 1]) else s
  }

  /** The number a string of binary digits denotes, most significant first. */
  function Value(s: string): nat
    decreases |s|
  {
    if s == [] then 0 else Value(s[..|s| - 1]) * 2 + (if s[|s| - 1] == '1' then 1 else 0)
  }

  /** The digit part of a base-2 literal: binary digits, with single
      underscores allowed between two digits and, when `prefixed`, one
      underscore before the first digit. */
  predicate DigitPart(s: string, prefixed: bool) {
    && s != []
    && (forall i :: 0 <= i < |s| ==> s[i] == '0' || s[i] == '1' || s[i] == '_')
    && s[|s| - 1] != '_'
    && (s[0] == '_' ==> prefixed && |s| > 1 && s[1] != '_')
    && (forall i :: 0 <= i < |s| - 1 ==> s[i] == '_' ==> s[i + 1] != '_')
  }

  /** The digits of `s` with the underscores removed. */
  function DropUnderscores(s: string): (r: string)
    ensures |r| <= |s|
  {
    if s == [] then []
    else (if s[0] == '_' then [] else [s[0]]) + DropUnderscores(s[1..])
  }

  /** `int(s, 2)` after the sign: an optional `0b`/`0B` prefix, then digits. */
  function ParseUnsigned(u: string): Result<nat> {
    var prefixed := |u| >= 2 && u[0] == '0' && (u[1] == 'b' || u[1] == 'B');
    var body := if prefixed then u[2..] else u;
    if DigitPart(body, prefixed) then Ok(Value(DropUnderscores(body))) else Err(ValueError)
  }

  /** `int(s, 2)`: surrounding whitespace, an optional sign, an optional
      prefix, the digits; anything else raises ValueError. */
  function ParseBinary(s: string): Result<int> {
    var t := StripRight(StripLeft(s));
    if t != [] && (t[0] == '-' || t[0] == '+') then
      var v :- ParseUnsigned(t[1..]);
      var n: int := v;
      Ok(if t[0] == '-' then -n else n)
    else
      ParseUnsigned(t)
  }

  /** `bits_to_bytes(bit_str)`: ValueError unless the length is a multiple
      of eight, then `int(chunk, 2)` of each eight-character chunk. */
  function BitsToBytes(s: string): Result<seq<int>> {
    if |s| % 8 != 0 then Err(ValueError) else ParseChunks(s)
  }

  function ParseChunks(s: string): Result<seq<int>>
    requires |s| % 8 == 0
    decreases |s|
  {
    if s == [] then Ok([])
    else
      var b :- ParseBinary(s[..8]);
      var rest :- ParseChunks(s[8..]);
      Ok([b] + rest)
  }

  // ---------------------------------------------------------------------
  // Search and inversion.

  /** `pattern` occurs in `s` at index `i`. */
  predicate MatchAt(s: string, pattern: string, i: int) {
    0 <= i && i + |pattern| <= |s| && s[i..i + |pattern|] == pattern
  }

  /** Where `str.find` begins: a negative start counts from the end and is
      clipped at 0. */
  function FindStart(n: int, start: int): int {
    if start >= 0 then start else if start + n >= 0 then start + n else 0
  }

  /** `bitbuffer_search(bit_str, pattern, start)`, i.e. `bit_str.find(pattern,
      start)`: the least index at or after the adjusted start where the
      pattern occurs, or -1. A start past the end finds nothing, even the
      empty pattern. */
  method BitbufferSearch(s: string, pattern: string, start: int) returns (r: int)
    ensures r == -1 || (FindStart(|s|, start) <= r && MatchAt(s, pattern, r))
    ensures r == -1 <==> forall i :: FindStart(|s|, start) <= i <= |s| ==> !MatchAt(s, pattern, i)
    ensures r != -1 ==> forall i :: FindStart(|s|, start) <= i < r ==> !MatchAt(s, pattern, i)
  {
    var i := FindStart(|s|, start);
    if i > |s| {
      return -1;
    }
    while i + |pattern| <= |s|
      invariant FindStart(|s|, start) <= i <= |s|
      invariant forall j :: FindStart(|s|, start) <= j < i ==> !MatchAt(s, pattern, j)
      decreases |s| - i
    {
      if s[i..i + |pattern|] == pattern {
        return i;
      }
      i := i + 1;
    }
    return -1;
  }

  /** `bitbuffer_invert(bit_str)`: '0' becomes '1' and every other character
      becomes '0'. */
  function Invert(s: string): (r: string)
    ensures |r| == |s| && IsBinary(r)
    ensures forall i :: 0 <= i < |s| ==> (r[i] == '1' <==> s[i] == '0')
  {
    seq(|s|, i requires 0 <= i < |s| => if s[i] == '0' then '1' else '0')
  }

  // ---------------------------------------------------------------------
  // Fixed-width binary numerals, the reference for the conversions.

  /** The `k` low bits of `n`, most significant first. */
  function Fixed(n: int, k: nat): (r: string)
    ensures |r| == k && IsBinary(r)
    decreases k
  {
    if k == 0 then [] else Fixed(n / 2, k - 1) + [BitChar(n % 2)]
  }

  lemma {:induction false} FixedZero(k: nat)
    ensures Fixed(0, k) == Zeros(k)
    decreases k
  {
    if k > 0 {
      FixedZero(k - 1);
    }
  }

  /** Character `j` of `Fixed(n, k)` is bit `k - 1 - j` of `n`, the value
      of `(n >> (k - 1 - j)) & 1`. */
  lemma {:induction false} FixedAt(n: int, k: nat, j: nat)
    requires j < k
    ensures Fixed(n, k)[j] == BitChar(n / Pow2(k - 1 - j) % 2)
    decreases k
  {
    if j < k - 1 {
      FixedAt(n / 2, k - 1, j);
      ModMul(n, 2, Pow2(k - 2 - j));
    }
  }

  /** Numbers below `2^k` have at most `k` digits. */
  lemma {:induction false} DigitsLength(n: nat, k: nat)
    requires k >= 1 && n < Pow2(k)
    ensures |Digits(n)| <= k
    decreases n
  {
    if n >= 2 {
      DigitsLength(n / 2, k - 1);
    }
  }

  /** Zero-padding the digits of a `k`-bit number to `k` places gives its
      fixed-width numeral. */
  lemma {:induction false} PaddedDigits(n: nat, k: nat)
    requires k >= 1 && n < Pow2(k)
    ensures ZeroPad(Digits(n), k) == Fixed(n, k)
    decreases n
  {
    DigitsLength(n, k);
    if n < 2 {
      FixedZero(k - 1);
    } else {
      DigitsLength(n / 2, k - 1);
      PaddedDigits(n / 2, k - 1);
      assert Zeros(k - |Digits(n)|) + Digits(n) == (Zeros(k - 1 - |Digits(n / 2)|) + Digits(n / 2)) + [BitChar(n % 2)];
    }
  }

  /** A byte formats as its eight-bit numeral. */
  lemma FormatByte(b: int)
    requires 0 <= b < 256
    ensures Format08b(b) == Fixed(b, 8)
  {
    Pow2Byte();
    PaddedDigits(b, 8);
  }

  /** A value of 256 or more formats to more than eight characters, as does
      a negative value below -127; -127..-1 give exactly eight. */
  lemma FormatWide(b: int)
    ensures 0 <= b < 256 ==> |Format08b(b)| == 8
    ensures b >= 256 ==> |Format08b(b)| > 8
    ensures -128 < b < 0 ==> |Format08b(b)| == 8 && Format08b(b)[0] == '-'
  {
    if 0 <= b < 256 {
      FormatByte(b);
    } else if b >= 256 {
      DigitsAtLeast(b, 8);
    } else if b < 0 {
      if -b < 128 {
        Pow2Byte();
        assert Pow2(7) == 128;
        DigitsLength(-b, 7);
      }
    }
  }

  /** Numbers of `2^k` or more have more than `k` digits. */
  lemma {:induction false} DigitsAtLeast(n: nat, k: nat)
    requires n >= Pow2(k)
    ensures |Digits(n)| > k
    decreases k
  {
    if k > 0 {
      DigitsAtLeast(n / 2, k - 1);
    }
  }

  /** The fixed-width numeral of `n` denotes `n`'s low `k` bits, and a binary
      string is the numeral of its own value. */
  lemma {:induction false} FixedValue(n: int, k: nat)
    requires 0 <= n < Pow2(k)
    ensures Value(Fixed(n, k)) == n
    decreases k
  {
    if k > 0 {
      var f := Fixed(n, k);
      assert f[..|f| - 1] == Fixed(n / 2, k - 1);
      FixedValue(n / 2, k - 1);
    }
  }

  lemma {:induction false} ValueFixed(s: string)
    requires IsBinary(s)
    ensures Value(s) < Pow2(|s|) && Fixed(Value(s), |s|) == s
    decreases |s|
  {
    if s != [] {
      var init := s[..|s| - 1];
      ValueFixed(init);
      assert s == init + [s[|s| - 1]];
      DivModUnique(Value(s), 2, Value(init), if s[|s| - 1] == '1' then 1 else 0);
    }
  }

  // ---------------------------------------------------------------------
  // Parsing a plain binary string.

  lemma {:induction false} DropNoUnderscores(s: string)
    requires IsBinary(s)
    ensures DropUnderscores(s) == s
    decreases |s|
  {
    if s != [] {
      DropNoUnderscores(s[1..]);
    }
  }

  lemma {:induction false} StripBinary(s: string)
    requires IsBinary(s)
    ensures StripRight(StripLeft(s)) == s
  {
  }

  /** `int(s, 2)` of a non-empty string of binary digits is the number the
      digits denote. */
  lemma ParseBinaryDigits(s: string)
    requires IsBinary(s) && s != []
    ensures ParseBinary(s) == Ok(Value(s) as int)
  {
    StripBinary(s);
    DropNoUnderscores(s);
    assert !(|s| >= 2 && s[0] == '0' && (s[1] == 'b' || s[1] == 'B'));
  }

  // ---------------------------------------------------------------------
  // The round trips.

  /** One chunk of `ParseChunks` when both the chunk and the rest parse. */
  lemma ChunkStep(s: string)
    requires |s| % 8 == 0 && s != []
    requires ParseBinary(s[..8]).Ok? && ParseChunks(s[8..]).Ok?
    ensures ParseChunks(s) == Ok([ParseBinary(s[..8]).value] + ParseChunks(s[8..]).value)
  {
  }

  /** A slice lying wholly inside the right operand of a concatenation. */
  lemma SliceRight<T>(a: seq<T>, b: seq<T>, i: int, j: int)
    requires |a| <= i <= j <= |a| + |b|
    ensures (a + b)[i..j] == b[i - |a|..j - |a|]
  {
  }

  /** The three parts of `a + (b + c)`, sliced back out. */
  lemma Split3<T>(a: seq<T>, b: seq<T>, c: seq<T>)
    ensures var s := a + (b + c);
      s[..|a|] == a && s[|a|..|a| + |b|] == b && s[|a| + |b|..] == c
  {
  }

  /** Eight binary digits per byte. */
  lemma {:induction false} BytesToBitsShape(bs: seq<int>)
    requires AllBytes(bs)
    ensures |BytesToBits(bs)| == 8 * |bs| && IsBinary(BytesToBits(bs))
    decreases |bs|
  {
    if bs != [] {
      assert AllBytes(bs[1..]);
      BytesToBitsShape(bs[1..]);
      FormatByte(bs[0]);
    }
  }

  /** The bits of a non-empty byte list: the first byte's numeral, then the
      bits of the rest. */
  lemma HeadTail(bs: seq<int>)
    requires AllBytes(bs) && bs != []
    ensures BytesToBits(bs) == Fixed(bs[0], 8) + BytesToBits(bs[1..])
    ensures |BytesToBits(bs[1..])| == 8 * (|bs| - 1)
  {
    FormatByte(bs[0]);
    assert AllBytes(bs[1..]);
    BytesToBitsShape(bs[1..]);
  }

  /** Characters `8 * i` to `8 * i + 7` are the 8-bit numeral of byte `i`. */
  lemma {:induction false} BytesToBitsAt(bs: seq<int>, i: int)
    requires AllBytes(bs) && 0 <= i < |bs|
    ensures |BytesToBits(bs)| == 8 * |bs|
    ensures BytesToBits(bs)[8 * i..8 * i + 8] == Fixed(bs[i], 8)
    decreases |bs|
  {
    var head, tail := Fixed(bs[0], 8), BytesToBits(bs[1..]);
    HeadTail(bs);
    if i == 0 {
      assert (head + tail)[..8] == head;
    } else {
      assert AllBytes(bs[1..]) && bs[1..][i - 1] == bs[i];
      BytesToBitsAt(bs[1..], i - 1);
      SliceRight(head, tail, 8 * i, 8 * i + 8);
    }
  }

  /** The first eight characters of the bits of a byte list parse back to
      its first byte, and the rest are the bits of the rest. */
  lemma HeadChunk(bs: seq<int>)
    requires AllBytes(bs) && bs != []
    ensures var s := BytesToBits(bs);
      && |s| == 8 * |bs|
      && ParseBinary(s[..8]) == Ok(bs[0])
      && s[8..] == BytesToBits(bs[1..])
  {
    var s, head, tail := BytesToBits(bs), Fixed(bs[0], 8), BytesToBits(bs[1..]);
    HeadTail(bs);
    assert s[..8] == head && s[8..] == tail;
    Pow2Byte();
    FixedValue(bs[0], 8);
    ParseBinaryDigits(head);
  }

  /** Bytes survive the trip through bits. */
  lemma {:induction false} BytesRoundTrip(bs: seq<int>)
    requires AllBytes(bs)
    ensures BitsToBytes(BytesToBits(bs)) == Ok(bs)
    decreases |bs|
  {
    if bs != [] {
      var s := BytesToBits(bs);
      HeadChunk(bs);
      assert |s| % 8 == 0 by {
        ModShift(0, |bs|, 8);
      }
      assert AllBytes(bs[1..]);
      BytesRoundTrip(bs[1..]);
      ChunkStep(s);
      assert [bs[0]] + bs[1..] == bs;
    }
  }

  /** Eight binary digits parse to a byte whose numeral they are. */
  lemma ChunkByte(c: string)
    requires IsBinary(c) && |c| == 8
    ensures var b := Value(c) as int;
      ParseBinary(c) == Ok(b) && 0 <= b < 256 && Format08b(b) == c
  {
    ParseBinaryDigits(c);
    ValueFixed(c);
    Pow2Byte();
    FormatByte(Value(c));
  }

  /** A binary string whose length is a multiple of eight survives the trip
      through bytes, and the bytes it gives are in 0..255. */
  lemma {:induction false} BitsRoundTrip(s: string)
    requires IsBinary(s) && |s| % 8 == 0
    ensures BitsToBytes(s).Ok?
    ensures AllBytes(BitsToBytes(s).value) && |BitsToBytes(s).value| == |s| / 8
    ensures BytesToBits(BitsToBytes(s).value) == s
    decreases |s|
  {
    if s != [] {
      var c, rest := s[..8], s[8..];
      assert IsBinary(rest) && |rest| % 8 == 0 by {
        ModShift(|s| - 8, 1, 8);
        forall i | 0 <= i < |rest|
          ensures rest[i] == '0' || rest[i] == '1'
        {
          assert rest[i] == s[i + 8];
        }
      }
      BitsRoundTrip(rest);
      var b, bs := Value(c) as int, BitsToBytes(rest).value;
      ChunkByte(c);
      ChunkStep(s);
      assert BitsToBytes(s) == Ok([b] + bs);
      assert ([b] + bs)[1..] == bs;
      assert s == c + rest;
    }
  }

  /** A length that is not a multiple of eight raises ValueError, whatever
      the characters. */
  lemma BitsToBytesLength(s: string)
    ensures BitsToBytes(s) == Err(ValueError) <== |s| % 8 != 0
    ensures BitsToBytes(s).Ok? ==> |s| % 8 == 0
  {
  }

  /** The cases of tests/utils/test_binary_utils.py: "11100001" gives
      `[0xE1]` and the seven-character "1110000" raises ValueError. */
  lemma BinaryUtilsCases(valid: string, short: string)
    requires valid == "11100001" && short == "1110000"
    ensures BitsToBytes(valid) == Ok([0xE1])
    ensures BitsToBytes(short) == Err(ValueError)
  {
    assert valid == Fixed(0xE1, 8);
    Pow2Byte();
    FixedValue(0xE1, 8);
    ParseBinaryDigits(valid);
    assert valid[..8] == valid && valid[8..] == [];
    assert ParseChunks(valid[8..]) == Ok([]);
    assert Value(valid) == 0xE1;
    assert ParseBinary(valid[..8]) == Ok(0xE1);
    ChunkStep(valid);
    var none: seq<int> := [];
    assert [0xE1] + none == [0xE1];
  }

  /** No element is negative, so none formats with a sign. */
  predicate NonNegative(bs: seq<int>) {
    forall i :: 0 <= i < |bs| ==> bs[i] >= 0
  }

  lemma {:induction false} DigitsBinary(n: nat)
    ensures IsBinary(Digits(n))
    decreases n
  {
    if n >= 2 {
      DigitsBinary(n / 2);
    }
  }

  /** `format(b, "08b")` is at least eight characters, and all of them are
      binary digits exactly when `b` is not negative. */
  lemma FormatSign(b: int)
    ensures |Format08b(b)| >= 8
    ensures IsBinary(Format08b(b)) <==> b >= 0
  {
    if b >= 0 {
      DigitsBinary(b);
    } else {
      assert Format08b(b)[0] == '-';
    }
  }

  /** `bytes_to_bits` gives a binary string exactly when no element is
      negative; a negative element puts a '-' into the string. */
  lemma {:induction false} BitsBinary(bs: seq<int>)
    ensures IsBinary(BytesToBits(bs)) <==> NonNegative(bs)
    decreases |bs|
  {
    if bs != [] {
      var head, tail := Format08b(bs[0]), BytesToBits(bs[1..]);
      FormatSign(bs[0]);
      BitsBinary(bs[1..]);
      assert BytesToBits(bs) == head + tail;
      if IsBinary(head + tail) {
        assert forall i :: 0 <= i < |tail| ==> tail[i] == (head + tail)[|head| + i];
        assert forall i :: 0 <= i < |head| ==> head[i] == (head + tail)[i];
      }
      if NonNegative(bs) {
        assert NonNegative(bs[1..]);
      } else {
        var i :| 0 <= i < |bs| && bs[i] < 0;
        if i > 0 {
          assert bs[1..][i - 1] < 0;
        }
      }
    }
  }

  /** Without negative elements, the bit string has at least eight
      characters per element, and exactly eight per element when every
      element is a byte. */
  lemma {:induction false} BitsLength(bs: seq<int>)
    requires NonNegative(bs)
    ensures |BytesToBits(bs)| >= 8 * |bs|
    ensures |BytesToBits(bs)| == 8 * |bs| <==> AllBytes(bs)
    decreases |bs|
  {
    if bs != [] {
      FormatWide(bs[0]);
      BitsLength(bs[1..]);
      if AllBytes(bs) {
        assert AllBytes(bs[1..]);
      } else if bs[0] < 256 {
        var i :| 0 <= i < |bs| && !(0 <= bs[i] < 256);
        assert !(0 <= bs[1..][i - 1] < 256);
      }
    }
  }

  /** Inverting twice gives back exactly the binary strings. */
  lemma InvertInvolution(s: string)
    ensures Invert(Invert(s)) == s <==> IsBinary(s)
  {
    if IsBinary(s) {
      assert forall i :: 0 <= i < |s| ==> Invert(Invert(s))[i] == s[i];
    } else {
      var i :| 0 <= i < |s| && s[i] != '0' && s[i] != '1';
      assert Invert(Invert(s))[i] != s[i];
    }
  }
}

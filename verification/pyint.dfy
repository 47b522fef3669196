/** The parts of Python's unbounded two's-complement integers and of its
    sequence indexing that the encoders depend on. */
module PyInt {
  import opened Results

  /** `x & 0xFF`: with a non-negative mask Python's `&` is the Euclidean
      remainder, also for negative `x`. */
  function Lo(x: int): int {
    x % 256
  }

  function Pow2(k: nat): (r: nat)
    ensures r >= 1
  {
    if k == 0 then 1 else 2 * Pow2(k - 1)
  }

  /** A measure that strictly drops when an integer other than 0 and -1 is
      shifted right by one bit. */
  function Size(a: int): nat {
    if a >= 0 then a else -a - 1
  }

  lemma SizeShrinks(a: int)
    ensures Size(a / 2) <= Size(a)
    ensures a != 0 && a != -1 ==> Size(a / 2) < Size(a)
  {
  }

  /** The bit that `a ^ b` has in position 0. */
  function BitXor(a: int, b: int): int {
    if a % 2 == b % 2 then 0 else 1
  }

  /** Python's `a ^ b` on unbounded integers: bit 0 is XORed directly and the
      rest (`a >> 1`, `b >> 1`) recursively; 0 and -1, the two fixed points of
      the arithmetic shift, stand for the infinite runs of equal sign bits. */
  function Xor(a: int, b: int): int
    decreases Size(a) + Size(b)
  {
    if (a == 0 || a == -1) && (b == 0 || b == -1) then
      (if a == b then 0 else -1)
    else
      SizeShrinks(a);
      SizeShrinks(b);
      Xor(a / 2, b / 2) * 2 + BitXor(a, b)
  }

  // ---------------------------------------------------------------------
  // Euclidean division facts.

  /** Division and remainder are determined by any decomposition
      `x == q * d + s` with `0 <= s < d`. */
  lemma MulBound(t: int, d: int)
    requires d > 0
    ensures t >= 1 ==> t * d >= d
    ensures t <= -1 ==> t * d <= -d
  {
  }

  lemma DivModUnique(x: int, d: int, q: int, s: int)
    requires d > 0 && x == q * d + s && 0 <= s < d
    ensures x / d == q && x % d == s
  {
    var q' := x / d;
    assert (q - q') * d == x % d - s;
    MulBound(q - q', d);
  }

  /** Adding a multiple of `d` does not change the remainder. */
  lemma ModShift(x: int, k: int, d: int)
    requires d > 0
    ensures (x + k * d) % d == x % d
  {
    DivModUnique(x + k * d, d, x / d + k, x % d);
  }

  /** The remainder by `2 * m` in terms of the remainder of the halved value. */
  lemma ModSplit(x: int, m: int)
    requires m > 0
    ensures x % (2 * m) == (x / 2 % m) * 2 + x % 2
    ensures x % (2 * m) / 2 == x / 2 % m
    ensures x % (2 * m) % 2 == x % 2
  {
    var q, r := x / 2, x % 2;
    var s := q % m * 2 + r;
    assert q == q / m * m + q % m;
    assert x == q / m * (2 * m) + s;
    DivModUnique(x, 2 * m, q / m, s);
    DivModUnique(s, 2, q % m, r);
  }

  lemma LoByte(x: int)
    requires 0 <= x < 256
    ensures Lo(x) == x
  {
  }

  /** Adding an offset, masking and taking the offset away again gives the
      low byte back. */
  lemma LoOffset(x: int, c: int)
    ensures Lo(Lo(x + c) - c) == Lo(x)
  {
    var q := (x + c) / 256;
    assert Lo(x + c) - c == x + (-q) * 256;
    ModShift(x, -q, 256);
  }

  lemma LoLo(x: int)
    ensures Lo(Lo(x)) == Lo(x)
  {
  }

  /** `(crc << 1) & 0xFF` only sees the low byte of `crc`. */
  lemma LoDouble(x: int)
    ensures Lo(Lo(x) * 2) == Lo(x * 2)
  {
    ModShift(Lo(x) * 2, x / 256 * 2, 256);
    assert x * 2 == Lo(x) * 2 + x / 256 * 2 * 256;
  }

  // ---------------------------------------------------------------------
  // XOR.

  /** The recursion step holds for every pair, the fixed points included. */
  lemma XorUnfold(a: int, b: int)
    ensures Xor(a, b) == Xor(a / 2, b / 2) * 2 + BitXor(a, b)
    ensures Xor(a, b) / 2 == Xor(a / 2, b / 2) && Xor(a, b) % 2 == BitXor(a, b)
  {
    DivModUnique(Xor(a, b), 2, Xor(a / 2, b / 2), BitXor(a, b));
  }

  /** The XOR of two `k`-bit naturals is a `k`-bit natural. */
  lemma {:induction false} XorRange(a: int, b: int, k: nat)
    requires 0 <= a < Pow2(k) && 0 <= b < Pow2(k)
    ensures 0 <= Xor(a, b) < Pow2(k)
    decreases k
  {
    if k > 0 && !(a == 0 && b == 0) {
      XorUnfold(a, b);
      XorRange(a / 2, b / 2, k - 1);
    }
  }

  /** The low `k` bits of a XOR are the XOR of the low `k` bits. */
  lemma {:induction false} XorLowBits(a: int, b: int, k: nat)
    ensures Xor(a, b) % Pow2(k) == Xor(a % Pow2(k), b % Pow2(k))
    decreases k
  {
    if k > 0 {
      var m := Pow2(k - 1);
      XorUnfold(a, b);
      ModSplit(Xor(a, b), m);
      XorLowBits(a / 2, b / 2, k - 1);
      ModSplit(a, m);
      ModSplit(b, m);
      XorUnfold(a % (2 * m), b % (2 * m));
    }
  }

  /** XORing a value of `k` bits or more with one of fewer than `k` bits
      leaves a value of `k` bits or more. */
  lemma {:induction false} XorAbove(a: int, b: int, k: nat)
    requires a >= Pow2(k) && 0 <= b < Pow2(k)
    ensures Xor(a, b) >= Pow2(k)
    decreases k
  {
    if k == 0 {
      XorZero(a);
    } else {
      XorUnfold(a, b);
      XorAbove(a / 2, b / 2, k - 1);
    }
  }

  lemma Pow2Byte()
    ensures Pow2(8) == 256
  {
  }

  /** The low `k` bits of `a ^ b`, assembled one bit at a time from the
      operands' bits; unlike `Xor` it does not need the sign fixed points. */
  function XorBits(a: int, b: int, k: nat): int
    decreases k
  {
    if k == 0 then 0 else XorBits(a / 2, b / 2, k - 1) * 2 + BitXor(a, b)
  }

  /** On `k`-bit naturals `^` is the bit-by-bit XOR of the low `k` bits. */
  lemma {:induction false} XorNaturals(a: int, b: int, k: nat)
    requires 0 <= a < Pow2(k) && 0 <= b < Pow2(k)
    ensures Xor(a, b) == XorBits(a, b, k)
    decreases k
  {
    if k == 0 {
      assert a == 0 && b == 0;
    } else {
      XorUnfold(a, b);
      XorNaturals(a / 2, b / 2, k - 1);
    }
  }

  /** The XOR of two bytes written out bit by bit, with no recursion, so that
      it evaluates on literals. */
  function XorByte(a: int, b: int): int {
    BitXor(a, b) + 2 * BitXor(a / 2, b / 2) + 4 * BitXor(a / 4, b / 4) + 8 * BitXor(a / 8, b / 8)
    + 16 * BitXor(a / 16, b / 16) + 32 * BitXor(a / 32, b / 32) + 64 * BitXor(a / 64, b / 64)
    + 128 * BitXor(a / 128, b / 128)
  }

  /** On bytes `^` is the written-out XOR. */
  lemma XorByteForm(a: int, b: int)
    requires 0 <= a < 256 && 0 <= b < 256
    ensures Xor(a, b) == XorByte(a, b)
  {
    Pow2Byte();
    XorNaturals(a, b, 8);
    assert a / 2 / 2 == a / 4 && a / 4 / 2 == a / 8 && a / 8 / 2 == a / 16 && a / 16 / 2 == a / 32
      && a / 32 / 2 == a / 64 && a / 64 / 2 == a / 128;
    assert b / 2 / 2 == b / 4 && b / 4 / 2 == b / 8 && b / 8 / 2 == b / 16 && b / 16 / 2 == b / 32
      && b / 32 / 2 == b / 64 && b / 64 / 2 == b / 128;
  }

  /** `(a ^ b) & 0xFF == (a & 0xFF) ^ (b & 0xFF)`. */
  lemma LoXor(a: int, b: int)
    ensures Lo(Xor(a, b)) == Xor(Lo(a), Lo(b))
  {
    Pow2Byte();
    XorLowBits(a, b, 8);
  }

  /** On two bytes, Python's `^` gives a byte. */
  lemma XorBytes(a: int, b: int)
    requires 0 <= a < 256 && 0 <= b < 256
    ensures 0 <= Xor(a, b) < 256
  {
    Pow2Byte();
    XorRange(a, b, 8);
  }

  lemma {:induction false} XorSelf(a: int)
    ensures Xor(a, a) == 0
    decreases Size(a)
  {
    if a != 0 && a != -1 {
      SizeShrinks(a);
      XorSelf(a / 2);
    }
  }

  lemma {:induction false} XorZero(a: int)
    ensures Xor(a, 0) == a && Xor(0, a) == a
    decreases Size(a)
  {
    if a != 0 && a != -1 {
      SizeShrinks(a);
      XorZero(a / 2);
    }
  }

  lemma {:induction false} XorComm(a: int, b: int)
    ensures Xor(a, b) == Xor(b, a)
    decreases Size(a) + Size(b)
  {
    if !((a == 0 || a == -1) && (b == 0 || b == -1)) {
      SizeShrinks(a);
      SizeShrinks(b);
      XorComm(a / 2, b / 2);
    }
  }

  lemma {:induction false} XorAssoc(a: int, b: int, c: int)
    ensures Xor(Xor(a, b), c) == Xor(a, Xor(b, c))
    decreases Size(a) + Size(b) + Size(c)
  {
    XorUnfold(a, b);
    XorUnfold(b, c);
    XorUnfold(Xor(a, b), c);
    XorUnfold(a, Xor(b, c));
    if (a == 0 || a == -1) && (b == 0 || b == -1) && (c == 0 || c == -1) {
    } else {
      SizeShrinks(a);
      SizeShrinks(b);
      SizeShrinks(c);
      XorAssoc(a / 2, b / 2, c / 2);
    }
  }

  /** `a ^ b` is negative exactly when one operand is. */
  lemma {:induction false} XorSign(a: int, b: int)
    ensures Xor(a, b) < 0 <==> (a < 0) != (b < 0)
    decreases Size(a) + Size(b)
  {
    if !((a == 0 || a == -1) && (b == 0 || b == -1)) {
      SizeShrinks(a);
      SizeShrinks(b);
      XorUnfold(a, b);
      XorSign(a / 2, b / 2);
    }
  }

  /** XOR with `k` one-bits complements a `k`-bit natural. */
  lemma {:induction false} XorOnes(x: int, k: nat)
    requires 0 <= x < Pow2(k)
    ensures Xor(x, Pow2(k) - 1) == Pow2(k) - 1 - x
    decreases k
  {
    if k > 0 {
      XorUnfold(x, Pow2(k) - 1);
      XorOnes(x / 2, k - 1);
    }
  }

  /** XOR with 0x07 complements the low three bits and keeps the rest. */
  lemma XorSeven(x: int)
    ensures Xor(x, 7) == x / 8 * 8 + 7 - x % 8
  {
    assert Pow2(3) == 8;
    XorLowBits(x, 7, 3);
    XorOnes(x % 8, 3);
    XorUnfold(x, 7);
    XorUnfold(x / 2, 3);
    XorUnfold(x / 4, 1);
    XorZero(x / 8);
    ModMul(x, 2, 2);
    ModMul(x, 4, 2);
    ModMul(Xor(x, 7), 2, 2);
    ModMul(Xor(x, 7), 4, 2);
  }

  /** Splitting a remainder by `a * b` into the remainder by `a` and the
      remainder by `b` of the quotient; the quotients compose the same way. */
  lemma ModMul(x: int, a: int, b: int)
    requires a > 0 && b > 0
    ensures x % (a * b) == x % a + a * (x / a % b)
    ensures x / (a * b) == x / a / b
  {
    var q, r := x / a, x % a;
    var q2, r2 := q / b, q % b;
    var s := r + a * r2;
    assert x == q * a + r;
    assert q == q2 * b + r2;
    assert q * a == q2 * (a * b) + a * r2 by {
      assert q * a == (q2 * b + r2) * a;
    }
    assert s < a * b by {
      MulBound(b - r2, a);
      assert (b - r2) * a == a * b - a * r2;
    }
    DivModUnique(x, a * b, q2, s);
  }

  /** The low 24 bits of `x` from its three low bytes, little-endian. */
  lemma Bytes24(x: int)
    ensures Lo(x) + 256 * Lo(x / 256) + 65536 * Lo(x / 65536) == x % 16777216
  {
    ModMul(x, 256, 256);
    ModMul(x, 65536, 256);
  }

  /** The low 32 bits of `x` from its four low bytes, big-endian. */
  lemma Bytes32(x: int)
    ensures Lo(x / 16777216) * 16777216 + Lo(x / 65536) * 65536 + Lo(x / 256) * 256 + Lo(x) == x % 4294967296
  {
    Bytes24(x);
    ModMul(x, 16777216, 256);
  }

  /** Python's `s[:n]`: a negative `n` counts from the end, and an `n` past
      either end is clipped. */
  function Prefix<T>(s: seq<T>, n: int): (r: seq<T>)
    ensures |r| <= |s| && r == s[..|r|]
    ensures 0 <= n <= |s| ==> |r| == n
    ensures n > |s| ==> r == s
    ensures n < 0 ==> |r| == if |s| + n >= 0 then |s| + n else 0
  {
    if n >= |s| then s
    else if n >= 0 then s[..n]
    else if |s| + n >= 0 then s[..|s| + n]
    else []
  }

  /** Python's `s[i]`: a negative index counts from the end; anything else
      outside the sequence raises IndexError. */
  function Index<T>(s: seq<T>, i: int): (r: Result<T>)
    ensures r.Ok? <==> -|s| <= i < |s|
    ensures 0 <= i < |s| ==> r == Ok(s[i])
    ensures -|s| <= i < 0 ==> r == Ok(s[|s| + i])
    ensures r.Err? ==> r.error == IndexError
  {
    if 0 <= i < |s| then Ok(s[i])
    else if -|s| <= i < 0 then Ok(s[|s| + i])
    else Err(IndexError)
  }

  /** What indexing promises: a read value is an element of the sequence;
      `i - len(s)` names the same element as a non-negative `i`; a
      non-negative index reads the same from any extension of the sequence
      at its end, and a negative one the same from any extension at its
      front. */
  lemma IndexLaws<T>(s: seq<T>, t: seq<T>, i: int)
    ensures Index(s, i).Ok? ==> Index(s, i).value in s
    ensures 0 <= i < |s| ==> Index(s, i - |s|) == Index(s, i)
    ensures 0 <= i < |s| ==> Index(s + t, i) == Index(s, i)
    ensures -|s| <= i < 0 ==> Index(t + s, i) == Index(s, i)
  {
  }
}

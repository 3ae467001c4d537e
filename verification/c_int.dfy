/**
  Fixed-width C integer semantics on Dafny's unbounded `int`: the ranges of
  int16/int32/int64, two's-complement wrap-around to 16 bits, powers of two,
  arithmetic right shift (which floors) and C's `/` (which truncates toward
  zero, unlike Dafny's Euclidean `/`).
 */
module CInt {

  const INT16_MIN: int := -0x8000
  const INT16_MAX: int := 0x7FFF
  const INT32_MIN: int := -0x8000_0000
  const INT32_MAX: int := 0x7FFF_FFFF
  const INT64_MIN: int := -0x8000_0000_0000_0000
  const INT64_MAX: int := 0x7FFF_FFFF_FFFF_FFFF

  predicate IsInt16(x: int) { INT16_MIN <= x <= INT16_MAX }
  predicate IsInt32(x: int) { INT32_MIN <= x <= INT32_MAX }
  predicate IsInt64(x: int) { INT64_MIN <= x <= INT64_MAX }

  /** 2^n */
  function Pow2(n: nat): (r: nat)
    ensures r >= 1
  {
    if n == 0 then 1 else 2 * Pow2(n - 1)
  }

  lemma {:induction false} Pow2Monotone(a: nat, b: nat)
    requires a <= b
    ensures Pow2(a) <= Pow2(b)
    decreases b
  {
    if a < b {
      Pow2Monotone(a, b - 1);
    }
  }

  lemma Pow2Values()
    ensures Pow2(1) == 2 && Pow2(8) == 256 && Pow2(10) == 1024 && Pow2(12) == 4096
    ensures Pow2(15) == 0x8000 && Pow2(16) == 0x1_0000
  {
  }

  /** The int16 value with the same low 16 bits as `x` (what a 16-bit lane keeps). */
  function Wrap16(x: int): (r: int)
    ensures IsInt16(r)
    ensures (x - r) % 0x1_0000 == 0
    ensures IsInt16(x) ==> r == x
  {
    var m := x % 0x1_0000;
    if m >= 0x8000 then m - 0x1_0000 else m
  }

  /** The unsigned reading, in [0, 2^16), of the low 16 bits of `x`. */
  function U16(x: int): (r: int)
    ensures 0 <= r < 0x1_0000
    ensures (x - r) % 0x1_0000 == 0
  {
    x % 0x1_0000
  }

  /** Arithmetic shift right: halving s times, each time rounding toward minus infinity. */
  function Asr(x: int, s: nat): int
    decreases s
  {
    if s == 0 then x else Asr(x / 2, s - 1)
  }

  /** Halving and then dividing by m is dividing by 2m (floor division). */
  lemma HalfThenDiv(x: int, m: int)
    requires m > 0
    ensures (x / 2) / m == x / (2 * m)
  {
    var q := (x / 2) / m;
    var r2 := (x / 2) % m;
    assert x / 2 == m * q + r2;
    assert x == 2 * (x / 2) + x % 2;
    assert x == (2 * m) * q + (2 * r2 + x % 2);
    DivModUnique(x, 2 * m, q, 2 * r2 + x % 2);
  }

  /** The shift is floor division by 2^s. */
  lemma {:induction false} AsrIsDiv(x: int, s: nat)
    ensures Asr(x, s) == x / Pow2(s)
    decreases s
  {
    if s > 0 {
      AsrIsDiv(x / 2, s - 1);
      HalfThenDiv(x, Pow2(s - 1));
    }
  }

  lemma DivBounds(n: int, d: int)
    requires n >= 0 && d > 0
    ensures 0 <= (n / d) * d <= n < (n / d) * d + d
  {
    assert n == (n / d) * d + n % d;
  }

  /** C's integer division by a positive divisor: truncates toward zero. */
  function CDiv(a: int, d: int): (r: int)
    requires d > 0
    ensures a >= 0 ==> 0 <= r * d <= a < r * d + d
    ensures a < 0 ==> r * d - d < a <= r * d <= 0
  {
    var n := if a >= 0 then a else -a;
    var q := n / d;
    DivBounds(n, d);
    assert (-q) * d == -(q * d);
    if a >= 0 then q else -q
  }

  /** Truncating division is odd in its dividend; Euclidean division is not. */
  lemma CDivNegate(a: int, d: int)
    requires d > 0
    ensures CDiv(-a, d) == -CDiv(a, d)
  {
  }

  /**
    C's `/` agrees with Dafny's Euclidean `/` on a non-negative or exactly
    divisible dividend; on any other negative dividend it is one greater.
   */
  lemma CDivVersusEuclidean(a: int, d: int)
    requires d > 0
    ensures a >= 0 || a % d == 0 ==> CDiv(a, d) == a / d
    ensures a < 0 && a % d != 0 ==> CDiv(a, d) == a / d + 1
  {
    var r := CDiv(a, d);
    if a >= 0 {
      DivModUnique(a, d, r, a - d * r);
    } else if a == d * r {
      DivModUnique(a, d, r, 0);
    } else {
      assert d * (r - 1) == d * r - d;
      DivModUnique(a, d, r - 1, a - d * (r - 1));
    }
  }

  /** Bitwise exclusive or of the low `n` bits of two naturals. */
  function XorBits(a: nat, b: nat, n: nat): nat
  {
    if n == 0 then 0
    else (if a % 2 == b % 2 then 0 else 1) + 2 * XorBits(a / 2, b / 2, n - 1)
  }

  lemma MulAtLeast(d: int, k: int)
    requires d > 0 && k >= 1
    ensures d * k >= d
  {
    assert d * k == d * (k - 1) + d;
  }

  /** Quotient and remainder are determined by any decomposition n == d*t + m with 0 <= m < d. */
  lemma DivModUnique(n: int, d: int, t: int, m: int)
    requires d > 0 && n == d * t + m && 0 <= m < d
    ensures n % d == m && n / d == t
  {
    var q := n / d;
    assert n == d * q + n % d;
    assert d * (t - q) == n % d - m;
    if t > q {
      MulAtLeast(d, t - q);
    } else if t < q {
      assert d * (q - t) == m - n % d;
      MulAtLeast(d, q - t);
    }
  }

  lemma ModDoubled(x: nat, r: nat, p: nat)
    requires r < 2 && p > 0
    ensures (2 * x + r) % (2 * p) == r + 2 * (x % p)
  {
    var t := x / p;
    var s := x % p;
    assert x == p * t + s;
    assert 2 * x + r == (2 * p) * t + (2 * s + r);
    DivModUnique(2 * x + r, 2 * p, t, 2 * s + r);
  }

  /** The low `n` bits of a natural, rebuilt bit by bit. */
  function LowBits(x: nat, n: nat): (r: nat)
  {
    if n == 0 then 0 else x % 2 + 2 * LowBits(x / 2, n - 1)
  }

  /** The bits rebuilt are the remainder modulo 2^n. */
  lemma {:induction false} LowBitsIsMod(x: nat, n: nat)
    ensures LowBits(x, n) == x % Pow2(n)
  {
    if n > 0 {
      LowBitsIsMod(x / 2, n - 1);
      ModDoubled(x / 2, x % 2, Pow2(n - 1));
      assert 2 * (x / 2) + x % 2 == x;
    }
  }

  lemma EvenHalf(h: nat)
    ensures (2 * h) % 2 == 0 && (2 * h) / 2 == h
  {
    DivModUnique(2 * h, 2, h, 0);
  }

  lemma AddEvenHalves(a: nat, h: nat)
    ensures (a + 2 * h) % 2 == a % 2 && (a + 2 * h) / 2 == a / 2 + h
  {
    DivModUnique(a + 2 * h, 2, a / 2 + h, a % 2);
  }

  /** Exclusive or with bit k flips bit k and carries nothing below it. */
  lemma {:induction false} XorTopBitLow(a: nat, k: nat)
    ensures XorBits(a, Pow2(k), k + 1) == LowBits(a + Pow2(k), k + 1)
  {
    if k > 0 {
      var h := Pow2(k - 1);
      assert Pow2(k) == 2 * h;
      EvenHalf(h);
      AddEvenHalves(a, h);
      XorTopBitLow(a / 2, k - 1);
    } else {
      assert Pow2(0) == 1;
      AddEvenHalves(a, 0);
      DivModUnique(a + 1, 2, (a + 1) / 2, (a + 1) % 2);
    }
  }

  /** Exclusive or with the top bit of an n+1 bit word adds 2^n modulo 2^(n+1). */
  lemma XorTopBit(a: nat, k: nat)
    ensures XorBits(a, Pow2(k), k + 1) == (a + Pow2(k)) % Pow2(k + 1)
  {
    XorTopBitLow(a, k);
    LowBitsIsMod(a + Pow2(k), k + 1);
  }

  /** Adding a constant commutes with reduction modulo m. */
  lemma ModAddConst(a: int, c: int, m: int)
    requires m > 0
    ensures (a % m + c) % m == (a + c) % m
  {
    var q := (a % m + c) / m;
    var r := (a % m + c) % m;
    assert a % m + c == m * q + r;
    assert a == m * (a / m) + a % m;
    assert a + c == m * (a / m + q) + r;
    DivModUnique(a + c, m, a / m + q, r);
  }
}

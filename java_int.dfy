/** Java's fixed-width integers and its truncating remainder operator. */
module JavaInt {

  /** Java `int`. */
  newtype int32 = x: int | -0x8000_0000 <= x < 0x8000_0000

  /** Java `long`. */
  newtype int64 = x: int | -0x8000_0000_0000_0000 <= x < 0x8000_0000_0000_0000

  function Abs(x: int): nat
  {
    if x < 0 then -x else x
  }

  /** Java's `a % b`: the remainder of the division that truncates toward
      zero, so the result takes the sign of the dividend (Dafny's own `%`
      is Euclidean and never negative). Java throws ArithmeticException
      when `b == 0`; callers model that case themselves. */
  function JavaRem(a: int, b: int): (r: int)
    requires b != 0
    ensures Abs(r) < Abs(b)
    ensures r > 0 ==> a > 0
    ensures r < 0 ==> a < 0
    ensures (a - r) % Abs(b) == 0
  {
    TruncRem(a, Abs(b))
  }

  /** Remainder of truncating division by a positive divisor. */
  function TruncRem(a: int, m: int): (r: int)
    requires m > 0
    ensures -m < r < m
    ensures r > 0 ==> a > 0
    ensures r < 0 ==> a < 0
    ensures (a - r) % m == 0
  {
    if a >= 0 then
      RemainderFacts(a, m);
      a % m
    else
      RemainderFacts(-a, m);
      NegatedMultiple((-a) - (-a) % m, m);
      -((-a) % m)
  }

  lemma RemainderFacts(x: int, m: int)
    requires m > 0
    ensures 0 <= x % m < m
    ensures 0 <= x ==> x % m <= x
    ensures (x - x % m) % m == 0
  {
    var q := x / m;
    if 0 <= x < m {
      ModOfMultiplePlus(0, m, x);
    } else if x >= m {
      assert q >= 1 by {
        if q <= 0 {
          MulAtMost(q, m);
        }
      }
    }
    assert x - x % m == q * m;
    ModOfMultiple(q, m);
  }

  lemma NegatedMultiple(x: int, m: int)
    requires m > 0 && x % m == 0
    ensures (-x) % m == 0
  {
    var q := x / m;
    assert x == q * m;
    assert -x == (-q) * m;
    ModOfMultiple(-q, m);
  }

  /** A non-negative dividend never gives a negative Java remainder,
      whatever the sign of the divisor. */
  lemma JavaRemNonNegative(a: int, b: int)
    requires a >= 0 && b != 0
    ensures JavaRem(a, b) >= 0
  {
  }

  /** The Java remainder is negative exactly when the dividend is negative
      and not a multiple of the divisor. */
  lemma {:induction false} JavaRemNegativeIff(a: int, b: int)
    requires b != 0
    ensures JavaRem(a, b) < 0 <==> a < 0 && a % Abs(b) != 0
  {
    var m := Abs(b);
    var r := JavaRem(a, b);
    if r == 0 {
      assert a % m == 0;
    } else if a < 0 {
      // a - r is a multiple of m and a - (a - r) lies strictly between -m and 0
      var q := (a - r) / m;
      assert a - r == q * m + (a - r) % m;
      assert a == q * m + r;
      assert a == (q - 1) * m + (m + r);
      ModOfMultiplePlus(q - 1, m, m + r);
    }
  }

  lemma ModOfMultiple(k: int, m: int)
    requires m > 0
    ensures (k * m) % m == 0
  {
    ModOfMultiplePlus(k, m, 0);
  }

  /** Uniqueness of the Euclidean remainder. */
  lemma ModOfMultiplePlus(k: int, m: int, r: int)
    requires m > 0 && 0 <= r < m
    ensures (k * m + r) % m == r
  {
    var x := k * m + r;
    var q := x / m;
    assert x == q * m + x % m;
    var d := k - q;
    assert d * m == k * m - q * m;
    assert d * m == x % m - r;
    if d >= 1 {
      MulAtLeast(d, m);
    } else if d <= -1 {
      MulAtLeast(-d, m);
    }
  }

  lemma MulAtMost(d: int, m: int)
    requires d <= 0 && m > 0
    ensures d * m <= 0
  {
    if d < 0 {
      MulAtLeast(-d, m);
      assert d * m == -((-d) * m);
    }
  }

  lemma MulAtLeast(d: int, m: int)
    requires d >= 1 && m > 0
    ensures d * m >= m
    decreases d
  {
    if d > 1 {
      MulAtLeast(d - 1, m);
      assert d * m == (d - 1) * m + m;
    }
  }

  /** `nextInt() % 100` on a full-range Java int lies in [-99, 99], and both
      ends occur. */
  lemma RemHundredRange(r: int32)
    ensures -99 <= JavaRem(r as int, 100) <= 99
    ensures JavaRem(99, 100) == 99 && JavaRem(-99, 100) == -99
  {
  }
}

/** Go's 64-bit signed integers: their range, wrap-around, saturation, and the
    truncating `/` and `%` operators (Dafny's own are Euclidean). */
module GoInt {

  const MinInt64: int := -0x8000_0000_0000_0000
  const MaxInt64: int := 0x7FFF_FFFF_FFFF_FFFF

  predicate InInt64(x: int) {
    MinInt64 <= x <= MaxInt64
  }

  /** A Go `int64` (and so a `time.Duration`). */
  type Int64 = x: int | InInt64(x)

  /** Two's-complement wrap-around of an int64 operation whose exact result is `x`. */
  function Wrap(x: int): (r: Int64)
    ensures InInt64(x) ==> r == x
    ensures (r - x) % 0x1_0000_0000_0000_0000 == 0
  {
    (x - MinInt64) % 0x1_0000_0000_0000_0000 + MinInt64
  }

  /** Clamping to the int64 range, as `time.Time.Sub` does on overflow. */
  function Saturate(x: int): (r: Int64)
    ensures InInt64(x) ==> r == x
    ensures x > MaxInt64 ==> r == MaxInt64
    ensures x < MinInt64 ==> r == MinInt64
  {
    if x > MaxInt64 then MaxInt64 else if x < MinInt64 then MinInt64 else x
  }

  /** Go's `a / b` for a positive divisor: the quotient truncated toward zero. */
  function Quot(a: int, b: int): int
    requires b > 0
  {
    if a >= 0 then a / b else -((-a) / b)
  }

  /** Go's `a % b` for a positive divisor: the remainder takes the sign of `a`. */
  function Rem(a: int, b: int): int
    requires b > 0
  {
    a - Quot(a, b) * b
  }

  /** Truncated division splits `a` into quotient and a remainder smaller than
      the divisor in magnitude and of the dividend's sign. */
  lemma QuotRem(a: int, b: int)
    requires b > 0
    ensures a == Quot(a, b) * b + Rem(a, b)
    ensures a >= 0 ==> Quot(a, b) == a / b && 0 <= Rem(a, b) < b && Rem(a, b) == a % b && Rem(a, b) <= a
    ensures a < 0 ==> -b < Rem(a, b) <= 0 && Quot(a, b) <= 0 && a <= Rem(a, b)
  {
    if a >= 0 {
      QuotRemNonNegative(a, b);
    } else {
      QuotRemNonNegative(-a, b);
      var q := (-a) / b;
      assert Quot(a, b) == -q;
      assert Quot(a, b) * b == -(q * b);
      assert Rem(a, b) == -Rem(-a, b);
    }
  }

  lemma QuotRemNonNegative(n: int, b: int)
    requires n >= 0 && b > 0
    ensures Quot(n, b) == n / b && Rem(n, b) == n % b
    ensures 0 <= n / b && 0 <= n % b < b && n % b <= n
  {
    var q, r := n / b, n % b;
    assert n == q * b + r && 0 <= r < b;
    if q < 0 {
      MulNonNegative(-q - 1, b);
      assert false;
    }
    MulNonNegative(q, b);
  }

  lemma MulNonNegative(x: int, y: int)
    requires x >= 0 && y >= 0
    ensures x * y >= 0
  {
  }
}

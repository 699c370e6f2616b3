/** `java.math.BigDecimal` as an (unscaled, scale) pair, and the two of its
    operations the core uses: `multiply` and `divide(divisor, scale,
    RoundingMode.HALF_EVEN)`. */
module Decimals {
  import opened Numerals

  /** The number `unscaled × 10^(-scale)`. Java's `BigDecimal.equals` is
      equality of this pair: `0` and `0.00` are different values of it. */
  datatype Decimal = Decimal(unscaled: int, scale: int)

  /** `BigDecimal.ZERO`. */
  const Zero: Decimal := Decimal(0, 0)

  /** `new BigDecimal("100")`. */
  const Hundred: Decimal := Decimal(100, 0)

  /** The `ArithmeticException` that `divide` raises for a zero divisor. */
  datatype Error = DivisionByZero

  datatype Result<T> = Ok(value: T) | Err(error: Error)

  function Abs(x: int): nat {
    if x < 0 then -x else x
  }

  /** The value of `d` is `Numerator(d) / Denominator(d)`. */
  function Numerator(d: Decimal): (r: int)
    ensures (r == 0) == (d.unscaled == 0)
    ensures (r < 0) == (d.unscaled < 0)
  {
    if d.scale >= 0 then d.unscaled else d.unscaled * Pow10(-d.scale)
  }

  function Denominator(d: Decimal): (r: nat)
    ensures r >= 1
  {
    if d.scale >= 0 then Pow10(d.scale) else 1
  }

  /** The denominator of the ratio of two amounts is non-zero when the divisor is. */
  lemma RatioDenominatorNonZero(dividend: Decimal, divisor: Decimal)
    requires divisor.unscaled != 0
    ensures Denominator(dividend) * Numerator(divisor) != 0
  {
    var p := Denominator(dividend);
    var q := Numerator(divisor);
    if q > 0 {
      MulAtLeast(p, q);
    } else {
      MulAtLeast(p, -q);
      assert p * q == -(p * -q);
    }
  }

  /** `compareTo(...) == 0`: the same number, whatever the scales. */
  predicate SameValue(a: Decimal, b: Decimal) {
    Numerator(a) * Denominator(b) == Numerator(b) * Denominator(a)
  }

  /** `q` is the integer nearest to `n / d`, and an even one when `n / d` lies
      exactly half-way between two integers: RoundingMode.HALF_EVEN. */
  predicate HalfEvenOf(q: int, n: int, d: int) {
    && Abs(2 * (n - q * d)) <= Abs(d)
    && (Abs(2 * (n - q * d)) == Abs(d) ==> q % 2 == 0)
  }

  /** Rounds the exact ratio `n / d` to an integer, half-to-even. */
  function RoundHalfEven(n: int, d: int): (q: int)
    requires d != 0
    ensures HalfEvenOf(q, n, d)
    ensures n >= 0 && d > 0 ==> q >= 0
  {
    if d < 0 then
      var q := RoundPositive(-n, -d);
      NegateRatio(q, n, d);
      q
    else
      RoundPositive(n, d)
  }

  /** Half-to-even rounding of `n / d` for a positive `d`, from the floor
      quotient and the remainder. */
  function RoundPositive(n: int, d: int): (q: int)
    requires d > 0
    ensures HalfEvenOf(q, n, d)
    ensures n >= 0 ==> q >= 0
  {
    var q, r := n / d, n % d;
    FloorErrors(n, d);
    if 2 * r < d then q
    else if 2 * r > d then q + 1
    else if q % 2 == 0 then q
    else q + 1
  }

  /** The errors of the floor quotient and of the next integer up are the
      remainder and the remainder less `d`. */
  lemma FloorErrors(n: int, d: int)
    requires d > 0
    ensures n - (n / d) * d == n % d
    ensures n - (n / d + 1) * d == n % d - d
  {
    var q := n / d;
    assert n == d * q + n % d;
    assert (q + 1) * d == q * d + d;
  }

  /** At most one integer is the half-even rounding of a ratio. */
  lemma HalfEvenUnique(a: int, b: int, n: int, d: int)
    requires d != 0
    requires HalfEvenOf(a, n, d) && HalfEvenOf(b, n, d)
    ensures a == b
  {
    if d < 0 {
      NegateRatio(a, n, d);
      NegateRatio(b, n, d);
      HalfEvenUniquePositive(a, b, -n, -d);
    } else {
      HalfEvenUniquePositive(a, b, n, d);
    }
  }

  /** `n / d` and `-n / -d` are the same ratio. */
  lemma NegateRatio(q: int, n: int, d: int)
    ensures HalfEvenOf(q, n, d) == HalfEvenOf(q, -n, -d)
  {
    assert -n - q * -d == -(n - q * d);
  }

  lemma HalfEvenUniquePositive(a: int, b: int, n: int, d: int)
    requires d > 0
    requires HalfEvenOf(a, n, d) && HalfEvenOf(b, n, d)
    ensures a == b
  {
    // two distinct roundings would be neighbours at an exact tie, and both even
    if a < b {
      WithinHalfNeighbours(a, b, n, d);
      assert false;
    } else if b < a {
      WithinHalfNeighbours(b, a, n, d);
      assert false;
    }
  }

  /** Two distinct integers within half of `d` of `n` (in units of `d`) are
      neighbours, and `n / d` lies exactly half-way between them. */
  lemma WithinHalfNeighbours(lo: int, hi: int, n: int, d: int)
    requires d > 0 && lo < hi
    requires Abs(2 * (n - lo * d)) <= d && Abs(2 * (n - hi * d)) <= d
    ensures hi == lo + 1
    ensures 2 * (n - lo * d) == d && 2 * (n - hi * d) == -d
  {
    var m := hi - lo;
    var md := m * d;
    assert hi * d == lo * d + md;
    MulAtLeast(m, d);
    assert 2 * (n - lo * d) == d && 2 * (n - hi * d) == -d;
    assert md == d;
    MulIsOne(m, d);
  }

  lemma MulAtLeast(m: int, d: int)
    requires m >= 1 && d >= 0
    ensures m * d >= d
  {
    var k := m - 1;
    assert m * d == k * d + d;
  }

  lemma MulIsOne(m: int, d: int)
    requires d > 0 && m * d == d
    ensures m == 1
  {
    if m > 1 {
      assert m * d == (m - 1) * d + d;
      MulAtLeast(m - 1, d);
      assert false;
    } else if m < 1 {
      assert m * d == d - (1 - m) * d;
      MulAtLeast(1 - m, d);
      assert false;
    }
  }

  /** The half-even rounding is a nearest integer to the exact ratio. */
  lemma HalfEvenIsNearest(q: int, n: int, d: int, k: int)
    requires d != 0 && HalfEvenOf(q, n, d)
    ensures Abs(n - q * d) <= Abs(n - k * d)
  {
    var e := n - q * d;
    var x := (q - k) * d;
    assert x == q * d - k * d;
    assert n - k * d == e + x;
    if q != k {
      AbsProduct(q - k, d);
      assert Abs(x) >= Abs(d);
    }
  }

  lemma AbsProduct(m: int, d: int)
    ensures Abs(m * d) == Abs(m) * Abs(d)
    ensures m != 0 ==> Abs(m * d) >= Abs(d)
  {
    var am: int, ad: int := Abs(m), Abs(d);
    var p := am * ad;
    if m < 0 && d < 0 {
      assert m * d == p;
    } else if m < 0 {
      assert m * d == -p;
    } else if d < 0 {
      assert m * d == -p;
    } else {
      assert m * d == p;
    }
    MulNonneg(am, ad);
    if m != 0 {
      MulAtLeast(am, ad);
    }
  }

  lemma MulNonneg(a: nat, b: nat)
    ensures a * b >= 0
  {}

  /** Scaling numerator and denominator by the same non-zero factor does not
      change the rounded ratio. */
  lemma RoundHalfEvenScale(n: int, d: int, k: int)
    requires d != 0 && k != 0
    ensures k * d != 0
    ensures RoundHalfEven(k * n, k * d) == RoundHalfEven(n, d)
  {
    var q := RoundHalfEven(n, d);
    HalfEvenScaled(q, n, d, k);
    HalfEvenUnique(q, RoundHalfEven(k * n, k * d), k * n, k * d);
  }

  lemma HalfEvenScaled(q: int, n: int, d: int, k: int)
    requires k != 0 && d != 0
    requires HalfEvenOf(q, n, d)
    ensures k * d != 0
    ensures HalfEvenOf(q, k * n, k * d)
  {
    var e := n - q * d;
    var kd := k * d;
    var ke2 := k * (2 * e);
    assert q * kd == k * (q * d);
    assert 2 * (k * n - q * kd) == ke2;
    AbsProduct(k, d);
    AbsProduct(k, 2 * e);
    ScaleKeepsBounds(Abs(k), Abs(2 * e), Abs(d));
  }

  lemma ScaleKeepsBounds(k: nat, x: nat, y: nat)
    requires k >= 1
    ensures x <= y <==> k * x <= k * y
    ensures x == y <==> k * x == k * y
  {
    if x < y {
      MulAtLeast(k, y - x);
      assert k * y == k * x + k * (y - x);
    } else if y < x {
      MulAtLeast(k, x - y);
      assert k * x == k * y + k * (x - y);
    }
  }

  /** Equal ratios round to the same integer. */
  lemma RoundHalfEvenSameRatio(n1: int, d1: int, n2: int, d2: int)
    requires d1 != 0 && d2 != 0
    requires n1 * d2 == n2 * d1
    ensures RoundHalfEven(n1, d1) == RoundHalfEven(n2, d2)
  {
    RoundHalfEvenScale(n1, d1, d2);
    RoundHalfEvenScale(n2, d2, d1);
    assert d2 * n1 == d1 * n2;
    assert d2 * d1 == d1 * d2;
  }

  /** `a.multiply(b)`: the unscaled values multiply and the scales add. */
  function Multiply(a: Decimal, b: Decimal): (r: Decimal)
    ensures b.scale == 0 ==> Numerator(r) == b.unscaled * Numerator(a) && Denominator(r) == Denominator(a)
  {
    Decimal(a.unscaled * b.unscaled, a.scale + b.scale)
  }

  /** `dividend.divide(divisor, scale, RoundingMode.HALF_EVEN)`: the quotient
      with exactly `scale` fraction digits, the last one rounded half-to-even;
      a zero divisor (of any scale) raises. */
  function DivideHalfEven(dividend: Decimal, divisor: Decimal, scale: nat): (r: Result<Decimal>)
    ensures r.Err? <==> divisor.unscaled == 0
    ensures r.Ok? ==> r.value.scale == scale && HalfEvenOf(
      r.value.unscaled,
      Numerator(dividend) * Denominator(divisor) * Pow10(scale),
      Denominator(dividend) * Numerator(divisor))
  {
    if divisor.unscaled == 0 then Err(DivisionByZero)
    else
      var n := Numerator(dividend) * Denominator(divisor) * Pow10(scale);
      var d := Denominator(dividend) * Numerator(divisor);
      RatioDenominatorNonZero(dividend, divisor);
      Ok(Decimal(RoundHalfEven(n, d), scale))
  }
}

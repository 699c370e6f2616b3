/** The three helpers of `MapPractice`: the reward percentage of a ticket
    budget, and the two display formats (the cash prize with thousands
    separators, the reward rate with one rounded fraction digit). */
module MapPractice {
  import opened Numerals
  import opened Grouping
  import opened GroupingRegex
  import opened Decimals

  /** Java's `int`, the parameter type of `formatCashPrize`. */
  newtype int32 = x: int | -0x8000_0000 <= x < 0x8000_0000

  // ---------------------------------------------------------------------
  // calculatePercent

  /** `totalCashPrize × 100 / ticketBudget` with one fraction digit, rounded
      half-to-even. The guard is `BigDecimal.equals(BigDecimal.ZERO)`, which
      also compares scales: only a budget of scale 0 is caught, and any other
      zero budget reaches `divide` and raises. */
  function CalculatePercent(totalCashPrize: Decimal, ticketBudget: Decimal): (r: Result<Decimal>)
    ensures ticketBudget == Zero ==> r == Ok(Zero)
    ensures ticketBudget != Zero && ticketBudget.unscaled == 0 ==> r == Err(DivisionByZero)
    ensures ticketBudget.unscaled != 0 ==> r.Ok? && r.value.scale == 1 && HalfEvenOf(
      r.value.unscaled,
      1000 * Numerator(totalCashPrize) * Denominator(ticketBudget),
      Denominator(totalCashPrize) * Numerator(ticketBudget))
  {
    if ticketBudget == Zero then
      Ok(Zero)
    else
      var product := Multiply(totalCashPrize, Hundred);
      var nx, dy := Numerator(totalCashPrize), Denominator(ticketBudget);
      assert Pow10(1) == 10;
      assert Numerator(product) * dy * Pow10(1) == 1000 * nx * dy by {
        assert Numerator(product) == 100 * nx;
      }
      DivideHalfEven(product, ticketBudget, 1)
  }

  /** The percentage is the tenth nearest to the exact ratio: no tenth `k`
      is closer to `totalCashPrize × 100 / ticketBudget` than the result. */
  lemma CalculatePercentIsNearestTenth(totalCashPrize: Decimal, ticketBudget: Decimal, k: int)
    requires ticketBudget.unscaled != 0
    ensures
      var n := 1000 * Numerator(totalCashPrize) * Denominator(ticketBudget);
      var d := Denominator(totalCashPrize) * Numerator(ticketBudget);
      CalculatePercent(totalCashPrize, ticketBudget).Ok? &&
      Abs(n - CalculatePercent(totalCashPrize, ticketBudget).value.unscaled * d) <= Abs(n - k * d)
  {
    var n := 1000 * Numerator(totalCashPrize) * Denominator(ticketBudget);
    var d := Denominator(totalCashPrize) * Numerator(ticketBudget);
    var t := CalculatePercent(totalCashPrize, ticketBudget).value.unscaled;
    RatioDenominatorNonZero(totalCashPrize, ticketBudget);
    HalfEvenIsNearest(t, n, d, k);
  }

  /** Multiplying the prize and the budget by the same positive integer
      (keeping their scales) does not change the percentage, exactly. */
  lemma CalculatePercentScaleInvariant(totalCashPrize: Decimal, ticketBudget: Decimal, k: int)
    requires k > 0
    ensures CalculatePercent(Decimal(k * totalCashPrize.unscaled, totalCashPrize.scale),
                             Decimal(k * ticketBudget.unscaled, ticketBudget.scale))
         == CalculatePercent(totalCashPrize, ticketBudget)
  {
    var x, y := totalCashPrize, ticketBudget;
    var kx, ky := Decimal(k * x.unscaled, x.scale), Decimal(k * y.unscaled, y.scale);
    if y.unscaled == 0 {
      assert ky == y;
    } else {
      assert ky.unscaled != 0;
      NumeratorScaled(x, k);
      NumeratorScaled(y, k);
      var n, d := 1000 * Numerator(x) * Denominator(y), Denominator(x) * Numerator(y);
      var kn, kd := 1000 * Numerator(kx) * Denominator(ky), Denominator(kx) * Numerator(ky);
      assert kn == k * n;
      assert kd == k * d;
      AbsProduct(Numerator(y), Denominator(x));
      assert Numerator(y) * Denominator(x) == d;
      RoundHalfEvenScale(n, d, k);
      var t, kt := CalculatePercent(x, y).value.unscaled, CalculatePercent(kx, ky).value.unscaled;
      HalfEvenUnique(t, RoundHalfEven(n, d), n, d);
      HalfEvenUnique(kt, RoundHalfEven(kn, kd), kn, kd);
    }
  }

  lemma NumeratorScaled(x: Decimal, k: int)
    ensures Numerator(Decimal(k * x.unscaled, x.scale)) == k * Numerator(x)
    ensures Denominator(Decimal(k * x.unscaled, x.scale)) == Denominator(x)
  {
    if x.scale < 0 {
      assert k * x.unscaled * Pow10(-x.scale) == k * (x.unscaled * Pow10(-x.scale));
    }
  }

  /** Once the budget is non-zero, only the values of the two amounts matter,
      not their scales: `8000` and `8000.00` give the same percentage. */
  lemma CalculatePercentDependsOnValues(x1: Decimal, y1: Decimal, x2: Decimal, y2: Decimal)
    requires SameValue(x1, x2) && SameValue(y1, y2)
    requires y1.unscaled != 0
    ensures CalculatePercent(x1, y1) == CalculatePercent(x2, y2)
  {
    var nx1, dx1, ny1, dy1 := Numerator(x1), Denominator(x1), Numerator(y1), Denominator(y1);
    var nx2, dx2, ny2, dy2 := Numerator(x2), Denominator(x2), Numerator(y2), Denominator(y2);
    AbsProduct(ny1, dy2);
    assert ny1 * dy2 != 0;
    assert ny2 != 0;
    assert y2.unscaled != 0;
    var n1, d1 := 1000 * nx1 * dy1, dx1 * ny1;
    var n2, d2 := 1000 * nx2 * dy2, dx2 * ny2;
    AbsProduct(ny1, dx1);
    AbsProduct(ny2, dx2);
    assert ny1 * dx1 == d1 && ny2 * dx2 == d2;
    CrossProducts(nx1, dx1, ny1, dy1, nx2, dx2, ny2, dy2);
    RoundHalfEvenSameRatio(n1, d1, n2, d2);
    HalfEvenUnique(CalculatePercent(x1, y1).value.unscaled, RoundHalfEven(n1, d1), n1, d1);
    HalfEvenUnique(CalculatePercent(x2, y2).value.unscaled, RoundHalfEven(n2, d2), n2, d2);
  }

  lemma CrossProducts(nx1: int, dx1: int, ny1: int, dy1: int, nx2: int, dx2: int, ny2: int, dy2: int)
    requires nx1 * dx2 == nx2 * dx1 && ny1 * dy2 == ny2 * dy1
    ensures (1000 * nx1 * dy1) * (dx2 * ny2) == (1000 * nx2 * dy2) * (dx1 * ny1)
  {
    var a, b := nx1 * dx2, ny2 * dy1;
    calc {
      (1000 * nx1 * dy1) * (dx2 * ny2);
      1000 * (nx1 * dx2) * (ny2 * dy1);
      1000 * a * b;
      1000 * (nx2 * dx1) * (ny1 * dy2);
      (1000 * nx2 * dy2) * (dx1 * ny1);
    }
  }

  /** `calculatePercent(new BigDecimal("500000"), new BigDecimal("8000"))` is `6250.0`. */
  lemma CalculatePercentSample()
    ensures CalculatePercent(Decimal(500000, 0), Decimal(8000, 0)) == Ok(Decimal(62500, 1))
  {
    assert Pow10(1) == 10;
  }

  /** Exact ties go to the even tenth: 0.25% gives 0.2 and 0.35% gives 0.4. */
  lemma CalculatePercentTies()
    ensures CalculatePercent(Decimal(25, 0), Decimal(10000, 0)) == Ok(Decimal(2, 1))
    ensures CalculatePercent(Decimal(35, 0), Decimal(10000, 0)) == Ok(Decimal(4, 1))
  {
    assert Pow10(1) == 10;
  }

  /** The scale-sensitive guard: a zero budget written `0.00` has the same
      value as `BigDecimal.ZERO` but is not `equals` to it, so it raises
      instead of giving zero. */
  lemma ScaledZeroBudgetFails(totalCashPrize: Decimal)
    ensures SameValue(Decimal(0, 2), Zero)
    ensures CalculatePercent(totalCashPrize, Zero) == Ok(Zero)
    ensures CalculatePercent(totalCashPrize, Decimal(0, 2)) == Err(DivisionByZero)
  {
  }

  /** The guard as evidently intended: any budget whose value is zero gives
      zero (`signum() == 0` instead of `equals`); otherwise as the source. */
  function CalculatePercentGuarded(totalCashPrize: Decimal, ticketBudget: Decimal): (r: Result<Decimal>)
    ensures r.Ok?
    ensures ticketBudget.unscaled == 0 ==> r.value == Zero
    ensures ticketBudget.unscaled != 0 ==> r == CalculatePercent(totalCashPrize, ticketBudget)
  {
    if ticketBudget.unscaled == 0 then Ok(Zero)
    else DivideHalfEven(Multiply(totalCashPrize, Hundred), ticketBudget, 1)
  }

  /** With the corrected guard, the percentage depends only on the values of
      the amounts, for every budget including the zero ones. */
  lemma CalculatePercentGuardedDependsOnValues(x1: Decimal, y1: Decimal, x2: Decimal, y2: Decimal)
    requires SameValue(x1, x2) && SameValue(y1, y2)
    ensures CalculatePercentGuarded(x1, y1) == CalculatePercentGuarded(x2, y2)
  {
    if y1.unscaled != 0 {
      CalculatePercentDependsOnValues(x1, y1, x2, y2);
    } else {
      assert Numerator(y1) == 0;
      assert Numerator(y2) * Denominator(y1) == 0;
      AbsProduct(Numerator(y2), Denominator(y1));
      assert y2.unscaled == 0;
    }
  }

  // ---------------------------------------------------------------------
  // formatCashPrize

  /** `String.valueOf(cashPrize).replaceAll("\\B(?=(\\d{3})+(?!\\d))", ",")`,
      with the replacement written as the recursive grouping it amounts to
      (`FormatCashPrizeIsRegexReplace`). */
  function FormatCashPrize(cashPrize: int32): (s: string)
    ensures RemoveCommas(s) == ValueOf(cashPrize as int)
  {
    GroupSignedRemoveCommas(ValueOf(cashPrize as int));
    GroupSigned(ValueOf(cashPrize as int))
  }

  /** The grouping is exactly what the source's regular-expression
      replacement computes on `String.valueOf(cashPrize)`. */
  lemma FormatCashPrizeIsRegexReplace(cashPrize: int32)
    ensures FormatCashPrize(cashPrize) == ReplaceAll(ValueOf(cashPrize as int))
  {
    GroupSignedIsReplaceAll(ValueOf(cashPrize as int));
  }

  /** The layout of the result: the sign of the value, then a digit (never a
      ',' at the start or right after '-', and a '0' only in "0" itself), then a ',' exactly at the
      positions whose distance to the end is a multiple of four, so every
      ',' is followed by three digits and the first group has one to three. */
  lemma FormatCashPrizeLayout(cashPrize: int32)
    ensures
      var s, k := FormatCashPrize(cashPrize), if cashPrize < 0 then 1 else 0;
      && |s| > k
      && (cashPrize < 0 ==> s[0] == '-')
      && IsDigit(s[k])
      && (s[k] == '0' ==> |s| == k + 1)
      && (forall i :: k <= i < |s| ==> (s[i] == ',' <==> (|s| - i) % 4 == 0))
      && (forall i :: k <= i < |s| && s[i] != ',' ==> IsDigit(s[i]))
  {
    var n := cashPrize as int;
    var d := Digits(Abs(n));
    GroupLayout(d);
    NoLeadingZero(Abs(n));
    var g := Group(d);
    var s := FormatCashPrize(cashPrize);
    if n < 0 {
      assert ValueOf(n)[1..] == d;
      assert s == "-" + g;
      assert forall i :: 1 <= i < |s| ==> s[i] == g[i - 1];
    } else {
      assert s == g;
    }
  }

  /** Values of at most three digits come back unchanged, and only those. */
  lemma FormatCashPrizeUnchangedIff(cashPrize: int32)
    ensures FormatCashPrize(cashPrize) == ValueOf(cashPrize as int) <==> -1000 < cashPrize < 1000
  {
    var n := cashPrize as int;
    var d := Digits(Abs(n));
    DigitsLength(Abs(n), 2);
    assert Pow10(3) == 1000;
    GroupUnchangedIff(d);
    if n < 0 {
      var v := ValueOf(n);
      assert v == "-" + d;
      assert FormatCashPrize(cashPrize) == "-" + Group(d);
      assert ("-" + Group(d) == "-" + d) <==> (Group(d) == d) by {
        if "-" + Group(d) == "-" + d {
          assert Group(d) == ("-" + Group(d))[1..];
        }
      }
    }
  }

  /** The result is the sign and the grouped digits of the magnitude. */
  lemma FormatCashPrizeParts(cashPrize: int32)
    ensures FormatCashPrize(cashPrize)
         == (if cashPrize < 0 then "-" else "") + Group(Digits(Abs(cashPrize as int)))
  {
    var n := cashPrize as int;
    if n < 0 {
      assert ValueOf(n)[1..] == Digits(-n);
    } else {
      assert ValueOf(n)[0] != '-';
    }
  }

  /** The result from the numeral of the magnitude and its grouping. */
  lemma FormatCashPrizeFrom(cashPrize: int32, numeral: string, grouped: string)
    requires Digits(Abs(cashPrize as int)) == numeral && Group(numeral) == grouped
    ensures FormatCashPrize(cashPrize) == (if cashPrize < 0 then "-" else "") + grouped
  {
    FormatCashPrizeParts(cashPrize);
  }

  // The samples below take the value as a parameter fixed by `requires`
  // rather than as a literal, so that the solver does not unfold
  // `FormatCashPrize` on a constant and stays within its resource limit.

  /** `formatCashPrize(12345)` is "12,345". */
  lemma FormatCashPrizeSample(cashPrize: int32)
    requires cashPrize == 12345
    ensures FormatCashPrize(cashPrize) == "12,345"
  {
    Numeral12345();
    Grouped12345();
    FormatCashPrizeFrom(cashPrize, "12345", "12,345");
  }

  lemma Numeral12345()
    ensures Digits(12345) == "12345"
  {
    DigitsStep(12345); DigitsStep(1234); DigitsStep(123); DigitsStep(12);
  }

  lemma Grouped12345()
    ensures Group("12345") == "12,345"
  {
  }

  /** No separator below 1000. */
  lemma FormatCashPrizeBelowThousand(cashPrize: int32)
    requires cashPrize == 999
    ensures FormatCashPrize(cashPrize) == "999"
  {
    assert Digits(999) == "999" by {
      DigitsStep(999); DigitsStep(99);
    }
    FormatCashPrizeFrom(cashPrize, "999", "999");
  }

  /** One separator from 1000 on. */
  lemma FormatCashPrizeThousand(cashPrize: int32)
    requires cashPrize == 1000
    ensures FormatCashPrize(cashPrize) == "1,000"
  {
    assert Digits(1000) == "1000" by {
      DigitsStep(1000); DigitsStep(100); DigitsStep(10);
    }
    assert Group("1000") == "1,000";
    FormatCashPrizeFrom(cashPrize, "1000", "1,000");
  }

  /** The sign stays in front of the first group. */
  lemma FormatCashPrizeNegative(cashPrize: int32)
    requires cashPrize == -1234567
    ensures FormatCashPrize(cashPrize) == "-1,234,567"
  {
    Numeral1234567();
    Grouped1234567();
    FormatCashPrizeFrom(cashPrize, "1234567", "1,234,567");
  }

  /** `Integer.MIN_VALUE`, whose magnitude is not an `int`, is formatted too. */
  lemma FormatCashPrizeMinValue(cashPrize: int32)
    requires cashPrize == -0x8000_0000
    ensures FormatCashPrize(cashPrize) == "-2,147,483,648"
  {
    var numeral, grouped := "2147483648", "2,147,483,648";
    assert "-" + grouped == "-2,147,483,648";
    NumeralMinValue(Abs(cashPrize as int), numeral);
    GroupedMinValue(numeral, grouped);
    FormatCashPrizeFrom(cashPrize, numeral, grouped);
  }

  lemma Numeral1234567()
    ensures Digits(1234567) == "1234567"
  {
    DigitsStep(1234567); DigitsStep(123456); DigitsStep(12345);
    DigitsStep(1234); DigitsStep(123); DigitsStep(12);
  }

  lemma Grouped1234567()
    ensures Group("1234567") == "1,234,567"
  {
    assert Group("1234") == "1,234";
  }

  lemma NumeralMinValue(n: nat, numeral: string)
    requires n == 2147483648 && numeral == "2147483648"
    ensures Digits(n) == numeral
  {
    DigitsStep(2147483648); DigitsStep(214748364); DigitsStep(21474836);
    DigitsStep(2147483); DigitsStep(214748); DigitsStep(21474);
    DigitsStep(2147); DigitsStep(214); DigitsStep(21);
  }

  lemma GroupedMinValue(numeral: string, grouped: string)
    requires numeral == "2147483648" && grouped == "2,147,483,648"
    ensures Group(numeral) == grouped
  {
    assert Group("2147") == "2,147";
    assert "2147483"[..4] == "2147" && "2147483"[4..] == "483";
    assert Group("2147483") == "2,147,483";
    assert "2147483648"[..7] == "2147483" && "2147483648"[7..] == "648";
  }

  /** A grouped numeral starts with '0' only when it is "0". */
  lemma NoLeadingZero(n: nat)
    ensures Group(Digits(n))[0] == '0' ==> |Group(Digits(n))| == 1
  {
    var d := Digits(n);
    GroupFromTheLeft(d);
    if d[0] == '0' {
      assert d == [DigitChar(0)];
    }
  }

  // ---------------------------------------------------------------------
  // formatRewardRate

  /** `new DecimalFormat("#,##0.0").format(rewardRate)` (`Regex.DECIMAL_FORMAT`): the magnitude rounded
      to tenths half-to-even (DecimalFormat's default rounding mode) and then
      displayed; the '-' goes in front of every negative value, including one
      that rounds to zero. */
  function FormatRewardRate(rewardRate: Decimal): (s: string)
    ensures |s| >= 3 && s[|s| - 2] == '.' && IsDigit(s[|s| - 1]) && IsDigit(s[|s| - 3])
    ensures (s[0] == '-') == (rewardRate.unscaled < 0)
  {
    Display(rewardRate.unscaled < 0, RoundHalfEven(10 * Abs(Numerator(rewardRate)), Denominator(rewardRate)))
  }

  /** A number of tenths as the pattern "#,##0.0" shows it: the integer part
      grouped by three with at least one digit, a '.', exactly one fraction
      digit. */
  function Display(negative: bool, tenths: nat): (s: string)
    ensures |s| >= 3 && s[|s| - 2] == '.' && IsDigit(s[|s| - 1]) && IsDigit(s[|s| - 3])
    ensures (s[0] == '-') == negative
  {
    var d := Digits(tenths / 10);
    GroupLayout(d);
    (if negative then "-" else "") + (Group(d) + ("." + [DigitChar(tenths % 10)]))
  }

  datatype Option<T> = None | Some(value: T)

  /** Reads a display of the form "[-]digits-with-commas.digit" back as a
      number of tenths, sign aside. */
  function DisplayedTenths(s: string): Option<nat> {
    var u := RemoveCommas(if |s| > 0 && s[0] == '-' then s[1..] else s);
    if |u| >= 3 && u[|u| - 2] == '.' && AllDigits(u[..|u| - 2]) && IsDigit(u[|u| - 1])
    then Some(10 * DigitsValue(u[..|u| - 2]) + DigitValue(u[|u| - 1]))
    else None
  }

  /** Reading a display back gives the number of tenths it was made from. */
  lemma DisplayReadsBack(negative: bool, tenths: nat)
    ensures DisplayedTenths(Display(negative, tenths)) == Some(tenths)
  {
    var d := Digits(tenths / 10);
    var c := DigitChar(tenths % 10);
    var s := Display(negative, tenths);
    var u := d + ("." + [c]);
    assert RemoveCommas(if |s| > 0 && s[0] == '-' then s[1..] else s) == u by {
      DisplayUnsigned(negative, tenths);
      DisplayWithoutCommas(tenths);
    }
    assert u[..|u| - 2] == d && u[|u| - 2] == '.' && u[|u| - 1] == c;
    DigitsRoundTrip(tenths / 10);
    assert 10 * DigitsValue(u[..|u| - 2]) + DigitValue(u[|u| - 1]) == tenths;
  }

  /** The display without its sign. */
  lemma DisplayUnsigned(negative: bool, tenths: nat)
    ensures
      var s := Display(negative, tenths);
      (if |s| > 0 && s[0] == '-' then s[1..] else s)
        == Group(Digits(tenths / 10)) + ("." + [DigitChar(tenths % 10)])
  {
    var g := Group(Digits(tenths / 10));
    var body := g + ("." + [DigitChar(tenths % 10)]);
    GroupLayout(Digits(tenths / 10));
    if negative {
      assert Display(negative, tenths) == "-" + body;
    } else {
      assert Display(negative, tenths) == body;
      assert body[0] == g[0];
    }
  }

  lemma DisplayWithoutCommas(tenths: nat)
    ensures RemoveCommas(Group(Digits(tenths / 10)) + ("." + [DigitChar(tenths % 10)]))
         == Digits(tenths / 10) + ("." + [DigitChar(tenths % 10)])
  {
    var d := Digits(tenths / 10);
    var tail := "." + [DigitChar(tenths % 10)];
    assert NoCommas(d) by {
      assert forall i :: 0 <= i < |d| ==> IsDigit(d[i]);
    }
    GroupRemoveCommas(d);
    RemoveCommasAppend(Group(d), tail);
    RemoveCommasNone(tail);
  }

  /** Reading the output back gives the half-even rounding of the value to
      tenths: off by at most half a tenth, and even at an exact tie. */
  lemma FormatRewardRateReadsBack(rewardRate: Decimal)
    ensures DisplayedTenths(FormatRewardRate(rewardRate)).Some?
    ensures HalfEvenOf(DisplayedTenths(FormatRewardRate(rewardRate)).value,
                       10 * Abs(Numerator(rewardRate)), Denominator(rewardRate))
  {
    DisplayReadsBack(rewardRate.unscaled < 0, RoundHalfEven(10 * Abs(Numerator(rewardRate)), Denominator(rewardRate)));
  }

  /** The integer part of the output is grouped like `formatCashPrize`: a
      digit first (a '0' only when the integer part is zero, as the optional
      '#' digits of the pattern are not printed), then a ',' exactly where the distance to the '.' is a
      multiple of four. */
  lemma FormatRewardRateLayout(rewardRate: Decimal)
    ensures
      var s, k := FormatRewardRate(rewardRate), if rewardRate.unscaled < 0 then 1 else 0;
      && |s| >= k + 3
      && IsDigit(s[k])
      && (s[k] == '0' ==> |s| == k + 3)
      && (forall i :: k <= i < |s| - 2 ==> (s[i] == ',' <==> (|s| - 2 - i) % 4 == 0))
      && (forall i :: k <= i < |s| - 2 && s[i] != ',' ==> IsDigit(s[i]))
  {
    DisplayLayout(rewardRate.unscaled < 0, RoundHalfEven(10 * Abs(Numerator(rewardRate)), Denominator(rewardRate)));
  }

  lemma DisplayLayout(negative: bool, tenths: nat)
    ensures
      var s, k := Display(negative, tenths), if negative then 1 else 0;
      && |s| >= k + 3
      && IsDigit(s[k])
      && (s[k] == '0' ==> |s| == k + 3)
      && (forall i :: k <= i < |s| - 2 ==> (s[i] == ',' <==> (|s| - 2 - i) % 4 == 0))
      && (forall i :: k <= i < |s| - 2 && s[i] != ',' ==> IsDigit(s[i]))
  {
    var d := Digits(tenths / 10);
    GroupLayout(d);
    NoLeadingZero(tenths / 10);
    DisplayShape(negative, Group(d), DigitChar(tenths % 10));
  }

  /** The layout of a sign, a grouped integer part, a '.' and a digit. */
  lemma DisplayShape(negative: bool, g: string, c: char)
    requires |g| >= 1 && IsDigit(g[0]) && (g[0] == '0' ==> |g| == 1)
    requires forall i :: 0 <= i < |g| ==> (g[i] == ',' <==> (|g| - i) % 4 == 0)
    requires forall i :: 0 <= i < |g| && g[i] != ',' ==> IsDigit(g[i])
    ensures
      var s, k := (if negative then "-" else "") + (g + ("." + [c])), if negative then 1 else 0;
      && |s| >= k + 3
      && IsDigit(s[k])
      && (s[k] == '0' ==> |s| == k + 3)
      && (forall i :: k <= i < |s| - 2 ==> (s[i] == ',' <==> (|s| - 2 - i) % 4 == 0))
      && (forall i :: k <= i < |s| - 2 && s[i] != ',' ==> IsDigit(s[i]))
  {
    var k := if negative then 1 else 0;
    var sign, body := if negative then "-" else "", g + ("." + [c]);
    var s := sign + body;
    assert forall i :: 0 <= i < |g| ==> body[i] == g[i];
    assert forall i :: 0 <= i < |body| ==> s[k + i] == body[i];
    ShiftedLayout(s, k, g, 2);
  }

  /** A grouped numeral placed at offset `k` of a text, with `e` characters
      after it, gives the text its layout between `k` and `|s| - e`. */
  lemma ShiftedLayout(s: string, k: nat, g: string, e: nat)
    requires |s| == k + |g| + e && |g| >= 1
    requires forall i :: 0 <= i < |g| ==> s[k + i] == g[i]
    requires IsDigit(g[0]) && (g[0] == '0' ==> |g| == 1)
    requires forall i :: 0 <= i < |g| ==> (g[i] == ',' <==> (|g| - i) % 4 == 0)
    requires forall i :: 0 <= i < |g| && g[i] != ',' ==> IsDigit(g[i])
    ensures IsDigit(s[k]) && (s[k] == '0' ==> |s| == k + 1 + e)
    ensures forall i :: k <= i < |s| - e ==> (s[i] == ',' <==> (|s| - e - i) % 4 == 0)
    ensures forall i :: k <= i < |s| - e && s[i] != ',' ==> IsDigit(s[i])
  {
    forall i | k <= i < |s| - e
      ensures (s[i] == ',' <==> (|s| - e - i) % 4 == 0)
      ensures s[i] != ',' ==> IsDigit(s[i])
    {
      assert s[k + (i - k)] == g[i - k];
    }
    assert s[k + 0] == g[0];
  }

  /** `formatRewardRate(new BigDecimal("324329209.35823"))` is "324,329,209.4". */
  lemma FormatRewardRateSample()
    ensures FormatRewardRate(Decimal(32432920935823, 5)) == "324,329,209.4"
  {
    SampleRounding();
    Numeral324329209();
    Grouped324329209();
  }

  lemma SampleRounding()
    ensures RoundHalfEven(10 * Abs(Numerator(Decimal(32432920935823, 5))), Denominator(Decimal(32432920935823, 5)))
         == 3243292094
  {
    assert Pow10(5) == 100000;
  }

  lemma Numeral324329209()
    ensures Digits(324329209) == "324329209"
  {
    DigitsStep(324329209); DigitsStep(32432920); DigitsStep(3243292);
    DigitsStep(324329); DigitsStep(32432); DigitsStep(3243);
    DigitsStep(324); DigitsStep(32);
  }

  lemma Grouped324329209()
    ensures Group("324329209") == "324,329,209"
  {
    assert Group("324329") == "324,329";
  }

  /** Exact ties go to the even digit: 0.25 shows "0.2" where half-up would
      show "0.3", and 0.35 shows "0.4". */
  lemma FormatRewardRateTieDown()
    ensures FormatRewardRate(Decimal(25, 2)) == "0.2"
  {
    assert Pow10(2) == 100;
    assert RoundHalfEven(250, 100) == 2;
  }

  lemma FormatRewardRateTieUp()
    ensures FormatRewardRate(Decimal(35, 2)) == "0.4"
  {
    assert Pow10(2) == 100;
    assert RoundHalfEven(350, 100) == 4;
  }

  /** The percentage of the sample, 6250.0, is shown as "6,250.0". */
  lemma FormatRewardRateOfSamplePercent()
    ensures FormatRewardRate(Decimal(62500, 1)) == "6,250.0"
  {
    SamplePercentRounding();
    Numeral6250();
    Grouped6250();
  }

  lemma SamplePercentRounding()
    ensures RoundHalfEven(10 * Abs(Numerator(Decimal(62500, 1))), Denominator(Decimal(62500, 1))) == 62500
  {
    assert Pow10(1) == 10;
  }

  lemma Numeral6250()
    ensures Digits(6250) == "6250"
  {
    DigitsStep(6250); DigitsStep(625); DigitsStep(62);
  }

  lemma Grouped6250()
    ensures Group("6250") == "6,250"
  {
  }

  /** A small negative value keeps its sign although it shows as zero. */
  lemma FormatRewardRateNegativeZero()
    ensures FormatRewardRate(Decimal(-4, 2)) == "-0.0"
  {
    assert Pow10(2) == 100;
    assert RoundHalfEven(40, 100) == 0;
  }
}

# MapPractice in Dafny

A model of the three helpers of `MapPractice`:

- `calculatePercent(totalCashPrize, ticketBudget)`: the reward percentage
  `totalCashPrize × 100 / ticketBudget`. It has one fraction digit, rounded
  half-to-even. A budget equal to `BigDecimal.ZERO` gives `0`.
- `formatCashPrize(cashPrize)`: an `int` with a ',' before every group of
  three digits, made by `String.valueOf` and a `replaceAll` with the pattern
  `Regex.CASH_PRIZE_REGEX`.
- `formatRewardRate(rewardRate)`: a `BigDecimal` shown through a
  `DecimalFormat` with the pattern `Regex.DECIMAL_FORMAT` (`#,##0.0`).

Modules:

- `Numerals`: powers of ten, the digits of a natural number, and the text
  `String.valueOf(int)` produces.
- `Grouping`: thousands grouping of a numeral, written recursively from the
  right.
- `GroupingRegex`: what the pattern `\B(?=(\d{3})+(?!\d))` matches and what
  `replaceAll` does with it. It is stated from the pattern's meaning (word
  boundary, lookahead for groups of three digits, no regex engine). It is
  proved equal to the recursive grouping on every `String.valueOf` text.
- `Decimals`: `BigDecimal` as an (unscaled value, scale) pair, `multiply`,
  and `divide(divisor, scale, HALF_EVEN)`. A zero divisor is the error
  `DivisionByZero`.
- `MapPractice`: the three helpers, their properties, and the sample values
  printed by `main`.

Three places where the code behaves differently from what a reader might
expect:

- `formatRewardRate` rounds half-to-even. That is `DecimalFormat`'s default
  rounding mode, not half-up: 0.25 shows as "0.2".
- The zero guard of `calculatePercent` is `BigDecimal.equals`, which compares
  scales too. Only a budget of scale 0 returns zero. A budget such as `0.00`
  reaches `divide` and raises (see "## Findings").
- A negative rate that rounds to zero keeps its sign: -0.04 shows as "-0.0".
  `DecimalFormat` takes the sign from the value, not from the rounded digits.

## Model

| member | source | states |
|---|---|---|
| MapPractice.CalculatePercent | MapPractice.java:24-29 | a budget equal to `BigDecimal.ZERO` gives zero; any other zero budget raises; a non-zero budget gives scale 1 and the half-even rounding of prize × 1000 / budget in tenths |
| MapPractice.CalculatePercentIsNearestTenth | MapPractice.java:28 | no tenth is closer to prize × 100 / budget than the result |
| MapPractice.CalculatePercentScaleInvariant | MapPractice.java:24-29 | scaling prize and budget by the same positive integer does not change the result |
| MapPractice.CalculatePercentDependsOnValues | MapPractice.java:28 | for a non-zero budget the result depends only on the values of the amounts, not on their scales |
| MapPractice.CalculatePercentSample | MapPractice.java:11-12 | prize 500000 and budget 8000 give 6250.0 |
| MapPractice.CalculatePercentTies | MapPractice.java:28 | exact ties go to the even tenth: 0.25 gives 0.2 and 0.35 gives 0.4 |
| MapPractice.ScaledZeroBudgetFails | MapPractice.java:25-28 | `0.00` has the value of `ZERO`; a `ZERO` budget gives zero but a `0.00` budget raises |
| MapPractice.CalculatePercentGuarded | MapPractice.java:25-28 | corrected guard: every zero-valued budget gives zero and the result is never an error; otherwise it equals `CalculatePercent` |
| MapPractice.CalculatePercentGuardedDependsOnValues | MapPractice.java:25-28 | with the corrected guard, the result depends only on the values of the amounts, for every budget |
| MapPractice.FormatCashPrize | MapPractice.java:45-47 | removing the commas from the result gives back `String.valueOf(cashPrize)` |
| MapPractice.FormatCashPrizeIsRegexReplace | MapPractice.java:33 | the result is the `replaceAll` of `CASH_PRIZE_REGEX` by "," on `String.valueOf(cashPrize)` |
| MapPractice.FormatCashPrizeLayout | MapPractice.java:45-47 | the sign, then a digit (a '0' only in "0" itself), then a ',' exactly where the distance to the end is a multiple of four and digits elsewhere |
| MapPractice.FormatCashPrizeUnchangedIff | MapPractice.java:45-47 | the text is left unchanged exactly when -1000 < cashPrize < 1000 |
| MapPractice.FormatCashPrizeSample | MapPractice.java:17-18 | 12345 is shown as "12,345" |
| MapPractice.FormatCashPrizeBelowThousand | MapPractice.java:33 | 999 gets no separator |
| MapPractice.FormatCashPrizeThousand | MapPractice.java:33 | 1000 is shown as "1,000" |
| MapPractice.FormatCashPrizeNegative | MapPractice.java:45-47 | -1234567 is shown as "-1,234,567"; no ',' comes right after the '-' |
| MapPractice.FormatCashPrizeMinValue | MapPractice.java:45-47 | `Integer.MIN_VALUE` is shown as "-2,147,483,648" |
| MapPractice.FormatRewardRate | MapPractice.java:50-52 | the result ends in '.' and one digit, with a digit before the '.'; it starts with '-' exactly for negative values |
| MapPractice.FormatRewardRateReadsBack | MapPractice.java:50-52 | reading the text back gives the half-even rounding of the magnitude to tenths |
| MapPractice.DisplayReadsBack | MapPractice.java:34 | reading a display of the pattern `#,##0.0` back gives the number of tenths it was made from |
| MapPractice.FormatRewardRateLayout | MapPractice.java:34 | the integer part starts with a digit, has no leading zero (a '0' first only when the integer part is "0"), and has a ',' exactly where the distance to the '.' is a multiple of four |
| MapPractice.Display | MapPractice.java:34 | how `#,##0.0` renders a number of tenths: the text ends in '.' and one digit with a digit before the '.', and starts with '-' exactly for a negative value |
| MapPractice.FormatRewardRateSample | MapPractice.java:14-15 | 324329209.35823 is shown as "324,329,209.4" |
| MapPractice.FormatRewardRateTieDown | MapPractice.java:50-52 | 0.25 is shown as "0.2" (half-even, not half-up) |
| MapPractice.FormatRewardRateTieUp | MapPractice.java:50-52 | 0.35 is shown as "0.4" |
| MapPractice.FormatRewardRateOfSamplePercent | MapPractice.java:11-15 | the sample percentage 6250.0 is shown as "6,250.0" |
| MapPractice.FormatRewardRateNegativeZero | MapPractice.java:50-52 | -0.04 is shown as "-0.0" |
| Decimals.RoundHalfEven | MapPractice.java:28 | the result is within half of the exact ratio, and even at an exact tie |
| Decimals.HalfEvenUnique | MapPractice.java:28 | at most one integer is the half-even rounding of a ratio |
| Decimals.HalfEvenIsNearest | MapPractice.java:28 | the half-even rounding is a nearest integer to the ratio |
| Decimals.RoundHalfEvenSameRatio | MapPractice.java:28 | equal ratios round to the same integer |
| Decimals.RoundHalfEvenScale | MapPractice.java:28 | scaling the ratio's numerator and denominator by a non-zero factor does not change the rounding |
| Decimals.Multiply | MapPractice.java:28 | multiplying by an integer of scale 0 multiplies the value and keeps the denominator |
| Decimals.DivideHalfEven | MapPractice.java:28 | raises exactly for a zero divisor; otherwise the quotient has the requested scale and is rounded half-to-even |
| Numerals.ValueOf | MapPractice.java:46 | `String.valueOf(int)`: an optional '-' then at least one digit; the '-' is there exactly for a negative value |
| Numerals.DigitsRoundTrip | MapPractice.java:46 | reading the digits of a number gives the number back |
| Numerals.DigitsLength | MapPractice.java:46 | a number has at most k + 1 digits exactly when it is below 10^(k+1) |
| Numerals.ValueOfRoundTrip | MapPractice.java:46 | parsing `String.valueOf(n)` gives `n` back |
| Grouping.Group | MapPractice.java:33 | grouping by three from the right; a non-empty numeral of n digits becomes n + (n - 1) / 3 characters long |
| Grouping.GroupSigned | MapPractice.java:46 | grouping of a `String.valueOf` text: it never gets shorter and a leading '-' stays first |
| Grouping.GroupRemoveCommas | MapPractice.java:33 | grouping only inserts commas |
| Grouping.GroupLayout | MapPractice.java:33 | the grouped numeral's length, commas every four positions from the end, digits elsewhere, a digit first |
| Grouping.GroupUnchangedIff | MapPractice.java:33 | a numeral is unchanged by grouping exactly when it has at most three digits |
| Grouping.GroupSignedRemoveCommas | MapPractice.java:46 | removing the commas from a grouped `String.valueOf` text gives the text back |
| GroupingRegex.MatchesAt | MapPractice.java:33 | the pattern `\B(?=(\d{3})+(?!\d))` at a position: no word boundary there, and one or more groups of three digits follow with no digit after them; a match always lies between a word character and a digit |
| GroupingRegex.ReplaceAll | MapPractice.java:46 | `replaceAll` of the pattern by ",": a ',' before every position where the pattern matches, and after an empty match the search resumes one character later; the characters are kept and only commas are inserted |
| GroupingRegex.ReplaceAllFromCommas | MapPractice.java:46 | from any start position, the replacement only inserts commas into the rest of the text |
| GroupingRegex.TriplesOnDigits | MapPractice.java:33 | on digits, `(\d{3})+(?!\d)` matches exactly when the rest has a positive multiple of three digits |
| GroupingRegex.GroupFromTheLeft | MapPractice.java:33 | the recursive grouping is the first digit followed by a ',' before every later group of three |
| GroupingRegex.ReplaceAllInDigits | MapPractice.java:33 | inside a final run of digits the pattern matches where the grouping puts its commas |
| GroupingRegex.GroupSignedIsReplaceAll | MapPractice.java:33 | on every `String.valueOf` text, the `replaceAll` is the recursive grouping |

## Left out

- `main`, its `println` calls, and `printByIteratingMap`: console output. The values `main` prints are stated as sample lemmas.
- `BigDecimal.toString`: the model keeps the (unscaled value, scale) pair that would be printed.
- Locale-dependent symbols of `DecimalFormat`: the model uses ',' and '.', as in the default locale of the samples.
- `DecimalFormat` and `java.util.regex` in general: only the pattern `#,##0.0` and the one regular expression of the source are modelled.
- Decimals.DivideHalfEven: only takes a non-negative result scale. The source only calls it with scale 1.
- Decimals.DivideHalfEven and MapPractice.CalculatePercent: the scale of a `BigDecimal` is a 32-bit `int` in Java, and `divide` raises `ArithmeticException` when the result scale leaves that range for a non-zero dividend (for example a budget of `1E-2147483647`). The model keeps scales as unbounded integers and does not raise this exception.
- `DuplicateTest.java` and `Lambda.java` are not part of this model.

## Findings

| source | as written | input that shows it | evidently intended | confidence | as-written member | corrected member |
|---|---|---|---|---|---|---|
| MapPractice.java:25 | the zero guard `ticketBudget.equals(BigDecimal.ZERO)` also compares scales | `ticketBudget = new BigDecimal("0.00")` passes the guard and `divide` raises `ArithmeticException` | every budget whose value is zero gives zero (`signum() == 0`) | medium; not executed | MapPractice.ScaledZeroBudgetFails | MapPractice.CalculatePercentGuarded |

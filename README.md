# MortCalc payment calculator in Dafny

This project models `Calculator.CalculateMonthlyPayment` of MortCalc. The function
computes the monthly payment of a fixed-rate annuity mortgage and splits it into
a flat principal portion and an interest portion. It can also apply the Finnish
ASP interest subsidy. Above a soft-cap annual rate of 3.8%, the subsidy pays 70%
of the interest that exceeds the interest owed at the soft cap.

Files:

- `power.dfy` (module `Power`): `Pow`, an exact recursive power that replaces
  `Math.Pow`. It also holds `GeomSum`, the geometric series `1 + x + ... + x^(n-1)`,
  and the facts the annuity formula needs. These cover when `x^n` is one, the
  identity `x^n - 1 = (x - 1) * GeomSum(x, n)`, and strict monotonicity in the base.
- `calculator.dfy` (module `Calculator`): the `MonthlyPayment` record, the two
  constants `AspInterestSoftCap` (0.038) and `AspSubsidyPercentage` (0.7), and
  `CalculateMonthlyPayment` with its three branches (zero rate, subsidised,
  standard). `AnnuityFactor` is `r*g/(g-1)` with `g = (1+r)^n`, and
  `AnnuityPayment` is the principal times that factor. The file also holds the
  lemmas about the branches.

Modelling decisions:

- C# `decimal` is modelled as `real`, with exact arithmetic. The `uint` payment
  count is modelled as `nat`.
- The two constants are gathered into an `AspPolicy(softCap, subsidyShare)` value.
  `Calculator.Asp` is the source's pair (0.038, 0.7). `CalculateMonthlyPayment`
  takes the policy as a parameter, so the lemmas hold for any policy.
  `ValidPolicy` means a positive soft cap and a share in (0, 1].
- The code validates nothing. It throws a division by zero when there are no
  payments (line 30), or when an annuity denominator `(1+r)^n - 1` it divides by
  is zero (lines 49, 53, 74). Under exact arithmetic, the precondition `Computable`
  is exactly the set of inputs on which none of these divisions is by zero.
  Negative rates and principals are accepted, as in the code.
  `ComputableUnderAsp` gives the precise set for the source's constants: at least
  one payment, and not an annual rate of -24 with an even number of payments.
  `ComputableForNonNegativeRate` covers every rate `>= 0`.
- `aspSavings >= 0` holds for every non-negative principal under a valid policy
  (`AspSavingsNonNegative`). A negative principal gives a negative saving when the
  subsidy applies (`NegativePrincipalNegativeSaving`), and a saving of 0 otherwise.
- The record field the source spells `PricipalPortion` is named `principalPortion`.

## Model

| member | source | states |
|---|---|---|
| Calculator.CalculateMonthlyPayment | MortCalc.Core/Calculator.cs:22-82 | principal portion is `principal / numPayments` in every branch; amount = principal portion + interest portion; at a zero rate the result is `(P/n, P/n, 0, 0)` whatever the flag; saving is 0 unless the subsidy applies; without the subsidy the amount is the annuity payment at `rate/12`; with it, amount + saving is that annuity payment |
| Power.PowGreaterThanOne | MortCalc.Core/Calculator.cs:37-43 | a base above one raised to a positive exponent is above one |
| Power.PowIsOne | MortCalc.Core/Calculator.cs:37-43 | for `n >= 1`, `x^n == 1` exactly when `x == 1`, or `x == -1` and `n` is even |
| Power.GeomSumIdentity | MortCalc.Core/Calculator.cs:73-74 | `x^n - 1 == (x - 1) * (1 + x + ... + x^(n-1))` |
| Power.CrossSumLess | MortCalc.Core/Calculator.cs:45-53 | for `0 < x < y` and `1 <= m <= n`, `x^n * GeomSum(y, m) < y^n * GeomSum(x, m)`, the key step of the annuity factor's monotonicity |
| Calculator.AnnuityDefinedForPositiveRate | MortCalc.Core/Calculator.cs:42-53 | for a monthly rate `r > 0` and `n >= 1`, `(1+r)^n > 1`, so the denominators at lines 49, 53 and 74 are nonzero |
| Calculator.AnnuityDefinedIff | MortCalc.Core/Calculator.cs:73-74 | with `n >= 1` the denominator `(1+r)^n - 1` is nonzero exactly when `r != 0` and not (`r == -2` and `n` even) |
| Calculator.ComputableForNonNegativeRate | MortCalc.Core/Calculator.cs:29-53 | under a valid policy, every rate `>= 0` with at least one payment is computed without dividing by zero, with or without the subsidy |
| Calculator.ComputableUnderAsp | MortCalc.Core/Calculator.cs:8-53 | with the 3.8% / 70% constants, the calculation is defined exactly when `numPayments > 0` and not (annual rate `-24` and `numPayments` even) |
| Calculator.AnnuityFactorAsGeomSum | MortCalc.Core/Calculator.cs:73-74 | the annuity factor `r*g/(g-1)` equals `(1+r)^n / GeomSum(1+r, n)` |
| Calculator.AnnuityFactorStrictlyIncreasing | MortCalc.Core/Calculator.cs:45-53 | for monthly rates `0 < a < b` and `n >= 1`, the annuity factor at `a` is strictly below the one at `b` |
| Calculator.SubsidySplitsExcessInterest | MortCalc.Core/Calculator.cs:55-69 | in the subsidised branch the saving is the share (70%) of interest at the uncapped rate minus interest at the soft cap; interest and payment are the soft-cap interest and payment plus the remaining 30% of that excess |
| Calculator.SubsidyMovesSavingOffInterest | MortCalc.Core/Calculator.cs:52-81 | switching the subsidy on keeps the principal portion; the unsubsidised amount and interest are the subsidised ones plus the saving; the unsubsidised saving is 0 |
| Calculator.SubsidyIrrelevantAtOrBelowSoftCap | MortCalc.Core/Calculator.cs:39-81 | at a rate `<=` the soft cap the flag does not change the result |
| Calculator.UnsubsidisedIgnoresPolicy | MortCalc.Core/Calculator.cs:73-81 | with the flag off the result does not depend on the soft cap or the share |
| Calculator.SubsidyReducesPayment | MortCalc.Core/Calculator.cs:45-69 | for a positive principal above the soft cap the saving is strictly positive and the subsidised payment is strictly below the unsubsidised one, by exactly the saving |
| Calculator.SubsidyMattersIff | MortCalc.Core/Calculator.cs:39-81 | for a positive principal, the flag changes the result if and only if the rate is above the soft cap |
| Calculator.AspSavingsNonNegative | MortCalc.Core/Calculator.cs:60-69 | for a non-negative principal under a valid policy the saving is never negative |
| Calculator.NegativePrincipalNegativeSaving | MortCalc.Core/Calculator.cs:55-69 | for a negative principal above the soft cap under a valid policy, the subsidised saving is strictly negative |

## Left out

- MortCalc.Tool/Program.cs is left out. It holds command-line parsing and defaults, the percent-to-fraction conversion at the call site, and console formatting. All of it is I/O around a foreign library.
- The `double` round trip inside `Math.Pow` (lines 37, 42-43) is left out. Binary/decimal conversion error is floating-point behaviour, so the power is exact here. One consequence: for a rate so small that `1 + (double)monthly` rounds to `1.0`, the source divides by zero, but the exact model does not.
- C# `decimal` rounding to 28-29 significant digits is left out, and so is its overflow when casting a huge power back to `decimal`. The arithmetic here is exact. In particular, `monthly == 0` at line 32 is modelled as an exact test, so a nonzero rate that would round to a zero monthly rate is not captured.
- CalculateMonthlyPayment: the source's `DivideByZeroException` is not modelled as an error value. It is the precondition `Computable`, whose extent `ComputableUnderAsp` and `AnnuityDefinedIff` state exactly.
- Rounding of the displayed figures to two decimals is presentation, and is left out with the rest of the command-line tool.

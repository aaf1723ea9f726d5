/** The mortgage payment calculator: the monthly payment of a fixed-rate
    annuity loan, split into a flat principal part and an interest part, with
    the Finnish ASP interest subsidy applied above a soft-cap rate.

    Monetary amounts and rates are exact reals (the source uses C# `decimal`),
    and the power `(1 + r)^n` is the exact `Power.Pow`. */
module Calculator {
  import opened Power

  /** The four figures reported for one month. */
  datatype MonthlyPayment = MonthlyPayment(
    amountPerMonth: real,
    principalPortion: real,
    interestPortion: real,
    aspSavings: real)

  /** The subsidy rules: the annual rate above which the subsidy applies, and
      the share of the interest above that rate that the subsidy pays. */
  datatype AspPolicy = AspPolicy(softCap: real, subsidyShare: real)

  /** The annual rate, as a fraction, at which the ASP subsidy starts: 3.8%. */
  const AspInterestSoftCap: real := 0.038

  /** The share of the interest above the soft cap paid by the subsidy: 70%. */
  const AspSubsidyPercentage: real := 0.7

  /** The rules the calculator applies. */
  const Asp: AspPolicy := AspPolicy(AspInterestSoftCap, AspSubsidyPercentage)

  /** A soft cap above zero and a share that is a proper fraction. */
  predicate ValidPolicy(policy: AspPolicy)
  {
    0.0 < policy.softCap && 0.0 < policy.subsidyShare <= 1.0
  }

  /** The annuity denominator `(1 + r)^n - 1` is not zero. */
  predicate AnnuityDefined(r: real, n: nat)
  {
    Pow(1.0 + r, n) != 1.0
  }

  /** The annuity factor `r * g / (g - 1)` with `g = (1 + r)^n`: the payment
      per unit of principal at monthly rate `r` over `n` payments. */
  function AnnuityFactor(r: real, n: nat): real
    requires AnnuityDefined(r, n)
  {
    var g := Pow(1.0 + r, n);
    (r * g) / (g - 1.0)
  }

  /** The fixed monthly payment that repays `principal` at monthly rate `r`
      over `n` payments. */
  function AnnuityPayment(principal: real, r: real, n: nat): real
    requires AnnuityDefined(r, n)
  {
    principal * AnnuityFactor(r, n)
  }

  /** The subsidised branch is taken. */
  predicate SubsidyApplies(policy: AspPolicy, annualInterestRate: real, useAspSubsidy: bool)
  {
    useAspSubsidy && annualInterestRate > policy.softCap
  }

  /** The calculation divides by nothing that is zero: there is at least one
      payment, and every annuity denominator the chosen branch uses is
      nonzero.  Outside this set the source raises a division by zero. */
  predicate Computable(policy: AspPolicy, annualInterestRate: real, numPayments: nat, useAspSubsidy: bool)
  {
    && numPayments > 0
    && (annualInterestRate / 12.0 != 0.0 ==>
          && AnnuityDefined(annualInterestRate / 12.0, numPayments)
          && (SubsidyApplies(policy, annualInterestRate, useAspSubsidy) ==>
                AnnuityDefined(policy.softCap / 12.0, numPayments)))
  }

  /** The monthly payment for an annual rate (a fraction), a number of monthly
      payments, a principal and the subsidy flag. */
  function CalculateMonthlyPayment(
    policy: AspPolicy,
    annualInterestRate: real,
    numPayments: nat,
    principal: real,
    useAspSubsidy: bool
  ): (p: MonthlyPayment)
    requires Computable(policy, annualInterestRate, numPayments, useAspSubsidy)
    // the principal portion is the flat share of the principal, whatever the rate and flag
    ensures p.principalPortion == principal / numPayments as real
    // the payment is exactly principal plus interest
    ensures p.amountPerMonth == p.principalPortion + p.interestPortion
    // without interest the principal is spread evenly and nothing is saved
    ensures annualInterestRate == 0.0 ==>
              p == MonthlyPayment(principal / numPayments as real, principal / numPayments as real, 0.0, 0.0)
    // no saving unless the subsidy applies
    ensures !SubsidyApplies(policy, annualInterestRate, useAspSubsidy) ==> p.aspSavings == 0.0
    // otherwise, without the subsidy, the plain annuity payment
    ensures annualInterestRate != 0.0 && !SubsidyApplies(policy, annualInterestRate, useAspSubsidy) ==>
              p.amountPerMonth == AnnuityPayment(principal, annualInterestRate / 12.0, numPayments)
    // with the subsidy, what is paid plus what is saved is the plain annuity payment
    ensures annualInterestRate != 0.0 && SubsidyApplies(policy, annualInterestRate, useAspSubsidy) ==>
              p.amountPerMonth + p.aspSavings == AnnuityPayment(principal, annualInterestRate / 12.0, numPayments)
  {
    var monthly := annualInterestRate / 12.0;
    var monthlyPaymentNoInterest := principal / numPayments as real;
    if monthly == 0.0 then
      MonthlyPayment(monthlyPaymentNoInterest, monthlyPaymentNoInterest, 0.0, 0.0)
    else if SubsidyApplies(policy, annualInterestRate, useAspSubsidy) then
      var monthlySoftCapInterest := policy.softCap / 12.0;
      var monthlyPaymentAtSoftCap := AnnuityPayment(principal, monthlySoftCapInterest, numPayments);
      var monthlyPaymentWithNoSubsidy := AnnuityPayment(principal, monthly, numPayments);
      var preSoftCapInterestAmount := monthlyPaymentAtSoftCap - monthlyPaymentNoInterest;
      var interestAmountWithNoSubsidy := monthlyPaymentWithNoSubsidy - monthlyPaymentNoInterest;
      var amountCoveredBySubsidy := interestAmountWithNoSubsidy - preSoftCapInterestAmount;
      var monthlyPaymentWithSubsidy :=
        monthlyPaymentAtSoftCap + amountCoveredBySubsidy * (1.0 - policy.subsidyShare);
      MonthlyPayment(
        monthlyPaymentWithSubsidy,
        monthlyPaymentNoInterest,
        monthlyPaymentWithSubsidy - monthlyPaymentNoInterest,
        amountCoveredBySubsidy * policy.subsidyShare)
    else
      var amountPerMonth := AnnuityPayment(principal, monthly, numPayments);
      MonthlyPayment(amountPerMonth, monthlyPaymentNoInterest, amountPerMonth - monthlyPaymentNoInterest, 0.0)
  }

  /** The monthly interest of an annuity loan at monthly rate `r`: the
      annuity payment less the flat principal share. */
  function InterestAt(principal: real, r: real, n: nat): real
    requires n > 0 && AnnuityDefined(r, n)
  {
    AnnuityPayment(principal, r, n) - principal / n as real
  }

  // ---------------------------------------------------------------------
  // When the calculation is defined

  /** For a positive monthly rate and at least one payment, `(1 + r)^n > 1`,
      so the annuity denominator is nonzero. */
  lemma AnnuityDefinedForPositiveRate(r: real, n: nat)
    requires r > 0.0 && n >= 1
    ensures Pow(1.0 + r, n) > 1.0 && AnnuityDefined(r, n)
  {
    PowGreaterThanOne(1.0 + r, n);
  }

  /** With at least one payment the annuity denominator vanishes exactly at a
      zero rate, and at the rate -2 for an even number of payments. */
  lemma AnnuityDefinedIff(r: real, n: nat)
    requires n >= 1
    ensures AnnuityDefined(r, n) <==> r != 0.0 && !(r == -2.0 && n % 2 == 0)
  {
    PowIsOne(1.0 + r, n);
  }

  /** With a valid policy, every non-negative rate and positive number of
      payments can be calculated, with or without the subsidy. */
  lemma ComputableForNonNegativeRate(
    policy: AspPolicy, annualInterestRate: real, numPayments: nat, useAspSubsidy: bool)
    requires ValidPolicy(policy) && annualInterestRate >= 0.0 && numPayments > 0
    ensures Computable(policy, annualInterestRate, numPayments, useAspSubsidy)
  {
    if annualInterestRate > 0.0 {
      AnnuityDefinedForPositiveRate(annualInterestRate / 12.0, numPayments);
      AnnuityDefinedForPositiveRate(policy.softCap / 12.0, numPayments);
    }
  }

  /** Under the ASP rules the calculation fails only for zero payments, and
      for an annual rate of -24 (a monthly rate of -2) over an even number of
      payments. */
  lemma ComputableUnderAsp(annualInterestRate: real, numPayments: nat, useAspSubsidy: bool)
    ensures Computable(Asp, annualInterestRate, numPayments, useAspSubsidy)
        <==> numPayments > 0 && !(annualInterestRate == -24.0 && numPayments % 2 == 0)
  {
    if numPayments > 0 {
      AnnuityDefinedIff(annualInterestRate / 12.0, numPayments);
      AnnuityDefinedForPositiveRate(Asp.softCap / 12.0, numPayments);
    }
  }

  // ---------------------------------------------------------------------
  // The annuity factor

  /** Dividing out the geometric series: for a nonzero rate the annuity
      factor is `(1 + r)^n / (1 + (1 + r) + ... + (1 + r)^(n-1))`. */
  lemma AnnuityFactorAsGeomSum(r: real, n: nat)
    requires AnnuityDefined(r, n)
    ensures r != 0.0 && GeomSum(1.0 + r, n) != 0.0
    ensures AnnuityFactor(r, n) == Pow(1.0 + r, n) / GeomSum(1.0 + r, n)
  {
    var g, s := Pow(1.0 + r, n), GeomSum(1.0 + r, n);
    GeomSumIdentity(1.0 + r, n);
    assert g - 1.0 == r * s;
    CancelCommonFactor(r * g, g - 1.0, g, s, r);
  }

  /** `(r * g) / (r * s) == g / s` for nonzero `r` and `s`. */
  lemma CancelCommonFactor(num: real, den: real, g: real, s: real, r: real)
    requires num == r * g && den == r * s && r != 0.0 && s != 0.0
    ensures den != 0.0 && num / den == g / s
  {
    assert den != 0.0;
    assert (g / s) * den == num;
  }

  /** A higher positive monthly rate gives a strictly higher annuity factor. */
  lemma AnnuityFactorStrictlyIncreasing(a: real, b: real, n: nat)
    requires 0.0 < a < b && n >= 1
    ensures AnnuityDefined(a, n) && AnnuityDefined(b, n)
    ensures AnnuityFactor(a, n) < AnnuityFactor(b, n)
  {
    AnnuityDefinedForPositiveRate(a, n);
    AnnuityDefinedForPositiveRate(b, n);
    AnnuityFactorAsGeomSum(a, n);
    AnnuityFactorAsGeomSum(b, n);
    var x, y := 1.0 + a, 1.0 + b;
    GeomSumPositive(x, n);
    GeomSumPositive(y, n);
    CrossSumLess(x, y, n, n);
    QuotientLess(Pow(x, n), GeomSum(x, n), Pow(y, n), GeomSum(y, n));
  }

  /** `p / s < q / t` follows from `p * t < q * s` for positive `s` and `t`. */
  lemma QuotientLess(p: real, s: real, q: real, t: real)
    requires s > 0.0 && t > 0.0 && p * t < q * s
    ensures p / s < q / t
  {
    var u, v := p / s, q / t;
    assert p == u * s && q == v * t;
    assert (u * s) * t < (v * t) * s;
    assert u * (s * t) < v * (s * t);
  }

  // ---------------------------------------------------------------------
  // The subsidy

  /** In the subsidised branch the saving is the policy's share of the
      interest above the soft-cap interest, and the payment is the payment at
      the soft cap plus the rest of that excess. */
  lemma SubsidySplitsExcessInterest(
    policy: AspPolicy, annualInterestRate: real, numPayments: nat, principal: real)
    requires Computable(policy, annualInterestRate, numPayments, true)
    requires SubsidyApplies(policy, annualInterestRate, true) && annualInterestRate != 0.0
    ensures AnnuityDefined(annualInterestRate / 12.0, numPayments)
    ensures AnnuityDefined(policy.softCap / 12.0, numPayments)
    ensures
      var p := CalculateMonthlyPayment(policy, annualInterestRate, numPayments, principal, true);
      var excess := InterestAt(principal, annualInterestRate / 12.0, numPayments)
                  - InterestAt(principal, policy.softCap / 12.0, numPayments);
      && p.aspSavings == policy.subsidyShare * excess
      && p.interestPortion
           == InterestAt(principal, policy.softCap / 12.0, numPayments) + (1.0 - policy.subsidyShare) * excess
      && p.amountPerMonth
           == AnnuityPayment(principal, policy.softCap / 12.0, numPayments) + (1.0 - policy.subsidyShare) * excess
  {
  }

  /** Turning the subsidy on moves the saving off the interest and changes
      nothing else: the principal portion stays, and the unsubsidised payment
      and interest are the subsidised ones plus the saving. */
  lemma SubsidyMovesSavingOffInterest(
    policy: AspPolicy, annualInterestRate: real, numPayments: nat, principal: real)
    requires Computable(policy, annualInterestRate, numPayments, true)
    ensures Computable(policy, annualInterestRate, numPayments, false)
    ensures
      var on := CalculateMonthlyPayment(policy, annualInterestRate, numPayments, principal, true);
      var off := CalculateMonthlyPayment(policy, annualInterestRate, numPayments, principal, false);
      && off.aspSavings == 0.0
      && on.principalPortion == off.principalPortion
      && on.amountPerMonth + on.aspSavings == off.amountPerMonth
      && on.interestPortion + on.aspSavings == off.interestPortion
  {
  }

  /** At or below the soft cap the subsidy flag makes no difference. */
  lemma SubsidyIrrelevantAtOrBelowSoftCap(
    policy: AspPolicy, annualInterestRate: real, numPayments: nat, principal: real)
    requires Computable(policy, annualInterestRate, numPayments, true)
    requires annualInterestRate <= policy.softCap
    ensures Computable(policy, annualInterestRate, numPayments, false)
    ensures CalculateMonthlyPayment(policy, annualInterestRate, numPayments, principal, true)
         == CalculateMonthlyPayment(policy, annualInterestRate, numPayments, principal, false)
  {
  }

  /** With the subsidy off the result does not depend on the policy. */
  lemma UnsubsidisedIgnoresPolicy(
    policy: AspPolicy, other: AspPolicy, annualInterestRate: real, numPayments: nat, principal: real)
    requires Computable(policy, annualInterestRate, numPayments, false)
    ensures Computable(other, annualInterestRate, numPayments, false)
    ensures CalculateMonthlyPayment(policy, annualInterestRate, numPayments, principal, false)
         == CalculateMonthlyPayment(other, annualInterestRate, numPayments, principal, false)
  {
  }

  /** For a positive principal above the soft cap, the subsidy saves a
      positive amount, and the subsidised payment is strictly below the
      unsubsidised one by exactly that amount. */
  lemma SubsidyReducesPayment(
    policy: AspPolicy, annualInterestRate: real, numPayments: nat, principal: real)
    requires ValidPolicy(policy) && numPayments > 0 && principal > 0.0
    requires annualInterestRate > policy.softCap
    ensures Computable(policy, annualInterestRate, numPayments, true)
    ensures Computable(policy, annualInterestRate, numPayments, false)
    ensures
      var on := CalculateMonthlyPayment(policy, annualInterestRate, numPayments, principal, true);
      var off := CalculateMonthlyPayment(policy, annualInterestRate, numPayments, principal, false);
      && on.aspSavings > 0.0
      && on.amountPerMonth < off.amountPerMonth
      && off.amountPerMonth - on.amountPerMonth == on.aspSavings
  {
    ComputableForNonNegativeRate(policy, annualInterestRate, numPayments, true);
    var r, rc := annualInterestRate / 12.0, policy.softCap / 12.0;
    AnnuityFactorStrictlyIncreasing(rc, r, numPayments);
    var fr, frc := AnnuityFactor(r, numPayments), AnnuityFactor(rc, numPayments);
    ProductLessPositive(principal, frc, fr);
    var excess := principal * fr - principal * frc;
    assert excess > 0.0;
    assert policy.subsidyShare * excess > 0.0;
    SubsidySplitsExcessInterest(policy, annualInterestRate, numPayments, principal);
    SubsidyMovesSavingOffInterest(policy, annualInterestRate, numPayments, principal);
  }

  /** `c * a < c * b` for `a < b` and positive `c`. */
  lemma ProductLessPositive(c: real, a: real, b: real)
    requires c > 0.0 && a < b
    ensures c * a < c * b
  {
  }

  /** For a positive principal and a valid policy, the subsidy flag changes
      the result exactly when the rate is above the soft cap. */
  lemma SubsidyMattersIff(
    policy: AspPolicy, annualInterestRate: real, numPayments: nat, principal: real)
    requires ValidPolicy(policy) && principal > 0.0
    requires Computable(policy, annualInterestRate, numPayments, true)
    ensures Computable(policy, annualInterestRate, numPayments, false)
    ensures CalculateMonthlyPayment(policy, annualInterestRate, numPayments, principal, true)
         != CalculateMonthlyPayment(policy, annualInterestRate, numPayments, principal, false)
        <==> annualInterestRate > policy.softCap
  {
    if annualInterestRate > policy.softCap {
      SubsidyReducesPayment(policy, annualInterestRate, numPayments, principal);
    } else {
      SubsidyIrrelevantAtOrBelowSoftCap(policy, annualInterestRate, numPayments, principal);
    }
  }

  /** The saving is never negative for a non-negative principal under a
      valid policy. */
  lemma AspSavingsNonNegative(
    policy: AspPolicy, annualInterestRate: real, numPayments: nat, principal: real, useAspSubsidy: bool)
    requires ValidPolicy(policy) && principal >= 0.0
    requires Computable(policy, annualInterestRate, numPayments, useAspSubsidy)
    ensures CalculateMonthlyPayment(policy, annualInterestRate, numPayments, principal, useAspSubsidy).aspSavings >= 0.0
  {
    if SubsidyApplies(policy, annualInterestRate, useAspSubsidy) && principal > 0.0 {
      SubsidyReducesPayment(policy, annualInterestRate, numPayments, principal);
    }
  }

  /** The code accepts a negative principal; in the subsidised branch that
      gives a strictly negative saving. */
  lemma NegativePrincipalNegativeSaving(
    policy: AspPolicy, annualInterestRate: real, numPayments: nat, principal: real)
    requires ValidPolicy(policy) && numPayments > 0 && principal < 0.0
    requires annualInterestRate > policy.softCap
    ensures Computable(policy, annualInterestRate, numPayments, true)
    ensures CalculateMonthlyPayment(policy, annualInterestRate, numPayments, principal, true).aspSavings < 0.0
  {
    ComputableForNonNegativeRate(policy, annualInterestRate, numPayments, true);
    var r, rc := annualInterestRate / 12.0, policy.softCap / 12.0;
    AnnuityFactorStrictlyIncreasing(rc, r, numPayments);
    var fr, frc := AnnuityFactor(r, numPayments), AnnuityFactor(rc, numPayments);
    ProductLessPositive(-principal, frc, fr);
    var excess := principal * fr - principal * frc;
    assert excess < 0.0;
    assert policy.subsidyShare * excess < 0.0;
    SubsidySplitsExcessInterest(policy, annualInterestRate, numPayments, principal);
  }
}

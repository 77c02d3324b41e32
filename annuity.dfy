/** The fixed-rate annuity arithmetic shared by both calculator pages: the
    monthly rate, the fixed monthly payment, the running balance that the
    schedule loops carry, and the totals shown beside the schedule.
    Amounts are exact reals, so the laws of amortization hold exactly. */
module Annuity {
  import opened Sums

  datatype Error = DivisionByZero

  datatype Result<T> = Ok(value: T) | Err(error: Error)

  /** x raised to a whole power, as `**` with an integer exponent. */
  function Pow(x: real, n: nat): (p: real)
  {
    if n == 0 then 1.0 else x * Pow(x, n - 1)
  }

  lemma {:induction false} PowOfOne(n: nat)
    ensures Pow(1.0, n) == 1.0
  {
    if n > 0 {
      PowOfOne(n - 1);
    }
  }

  lemma {:induction false} PowPositive(x: real, n: nat)
    requires x > 0.0
    ensures Pow(x, n) > 0.0
  {
    if n > 0 {
      PowPositive(x, n - 1);
    }
  }

  lemma {:induction false} PowAboveOne(x: real, n: nat)
    requires x > 1.0 && n >= 1
    ensures Pow(x, n) > 1.0
  {
    if n > 1 {
      PowAboveOne(x, n - 1);
      assert x * Pow(x, n - 1) > 1.0 * Pow(x, n - 1);
    }
  }

  /** The monthly rate for an annual rate given in percent: rate / 100 / 12. */
  function MonthlyRate(annualPercent: real): (r: real)
    ensures r * 1200.0 == annualPercent
    ensures r > 0.0 <==> annualPercent > 0.0
    ensures r == 0.0 <==> annualPercent == 0.0
  {
    annualPercent / 100.0 / 12.0
  }

  /** The fixed monthly payment loan * (r * (1 + r)^n) / ((1 + r)^n - 1).
      Where the denominator is zero the division fails, as it does for a
      zero rate. A successful result solves the equation of value: n
      payments of it, discounted at r, repay the loan. */
  function MonthlyPayment(loan: real, r: real, n: nat): (res: Result<real>)
    ensures res.Ok? ==> res.value * (Pow(1.0 + r, n) - 1.0) == loan * r * Pow(1.0 + r, n)
    ensures res.Err? <==> Pow(1.0 + r, n) == 1.0
  {
    var q := Pow(1.0 + r, n);
    if q - 1.0 == 0.0 then Err(DivisionByZero)
    else Ok(loan * (r * q) / (q - 1.0))
  }

  /** For a non-negative rate the formula is defined exactly when the rate is
      positive and at least one payment is made. */
  lemma PaymentDefinedIff(loan: real, r: real, n: nat)
    requires r >= 0.0
    ensures MonthlyPayment(loan, r, n).Ok? <==> r > 0.0 && n >= 1
  {
    PowOfOne(n);
    if r > 0.0 && n >= 1 {
      PowAboveOne(1.0 + r, n);
    }
  }

  /** A zero annual rate, which the mortgage page accepts, makes the
      formula divide by zero. */
  lemma ZeroRateDividesByZero(loan: real, annualPercent: real, n: nat)
    requires annualPercent == 0.0
    ensures MonthlyPayment(loan, MonthlyRate(annualPercent), n) == Err(DivisionByZero)
  {
    PowOfOne(n);
  }

  /** The balance after k payments of m, as the mortgage.py loop computes
      it: interest = balance * r, principal = m - interest, balance -=
      principal. The app.py loop also clamps a negative balance to zero
      (App.ClampedBalance); the two agree for a positive loan and rate with
      the annuity payment (App.ClampNeverBinds). */
  function Balance(loan: real, r: real, m: real, k: nat): (b: real)
  {
    if k == 0 then loan
    else
      var prev := Balance(loan, r, m, k - 1);
      prev - (m - prev * r)
  }

  /** Interest charged in payment k + 1 (on the balance after k payments). */
  function Interest(loan: real, r: real, m: real, k: nat): (i: real)
  {
    Balance(loan, r, m, k) * r
  }

  /** The part of payment k + 1 that repays principal. */
  function Principal(loan: real, r: real, m: real, k: nat): (p: real)
  {
    m - Interest(loan, r, m, k)
  }

  /** Closed form of the balance, multiplied through by r:
      r * B(k) == r * loan * (1 + r)^k - m * ((1 + r)^k - 1). */
  lemma BalanceClosedForm(loan: real, r: real, m: real, k: nat)
    ensures r * Balance(loan, r, m, k) == r * loan * Pow(1.0 + r, k) - m * (Pow(1.0 + r, k) - 1.0)
  {
    PrincipalGrowth(loan, r, m, k);
    ClosedFromGrowth(loan, r, m, Balance(loan, r, m, k), Pow(1.0 + r, k));
  }

  /** The closed form follows from the principal portion m - b * r being
      (m - loan * r) * q. */
  lemma ClosedFromGrowth(loan: real, r: real, m: real, b: real, q: real)
    requires m - b * r == (m - loan * r) * q
    ensures r * b == r * loan * q - m * (q - 1.0)
  {
  }

  /** With the annuity payment the balance reaches exactly zero after the
      last of the n payments. */
  lemma AmortizesToZero(loan: real, r: real, n: nat, m: real)
    requires MonthlyPayment(loan, r, n) == Ok(m)
    ensures Balance(loan, r, m, n) == 0.0
  {
    PaymentEquation(loan, r, n, m);
    EquationAmortizes(loan, r, n, m);
  }

  /** Any payment solving the annuity equation clears the balance after n
      months. */
  lemma EquationAmortizes(loan: real, r: real, n: nat, m: real)
    requires Pow(1.0 + r, n) != 1.0 && (r == 0.0 ==> Pow(1.0 + r, n) == 1.0)
    requires m * (Pow(1.0 + r, n) - 1.0) == loan * r * Pow(1.0 + r, n)
    ensures Balance(loan, r, m, n) == 0.0
  {
    BalanceClosedForm(loan, r, m, n);
    ZeroFromClosedForm(loan, r, m, Pow(1.0 + r, n), Balance(loan, r, m, n));
  }

  /** What a defined payment tells about the rate and the growth factor
      q = (1 + r)^n: q is not 1, a zero rate would have made it 1, and
      the payment solves the annuity equation. */
  lemma PaymentEquation(loan: real, r: real, n: nat, m: real)
    requires MonthlyPayment(loan, r, n) == Ok(m)
    ensures Pow(1.0 + r, n) != 1.0 && (r == 0.0 ==> Pow(1.0 + r, n) == 1.0)
    ensures m * (Pow(1.0 + r, n) - 1.0) == loan * r * Pow(1.0 + r, n)
  {
    PowOfOne(n);
  }

  /** The closed form with the annuity equation leaves a zero balance. */
  lemma ZeroFromClosedForm(loan: real, r: real, m: real, q: real, b: real)
    requires q != 1.0 && (r == 0.0 ==> q == 1.0)
    requires r * b == r * loan * q - m * (q - 1.0)
    requires m * (q - 1.0) == loan * r * q
    ensures b == 0.0
  {
    assert r * loan * q == loan * r * q;
    assert r * b == 0.0;
  }

  /** For a positive loan and rate the payment exceeds the first month's
      interest, so every payment repays some principal. */
  lemma PaymentExceedsInterest(loan: real, r: real, n: nat, m: real)
    requires loan > 0.0 && r > 0.0
    requires MonthlyPayment(loan, r, n) == Ok(m)
    ensures m > loan * r
  {
    var q := Pow(1.0 + r, n);
    PowOfOne(n);
    assert n >= 1;
    PowAboveOne(1.0 + r, n);
    var excess, d := m - loan * r, q - 1.0;
    assert d > 0.0;
    assert excess * d == m * d - loan * r * q + loan * r;
    assert excess * d == loan * r;
    PositiveProduct(loan, r);
    PositiveFactor(excess, d);
  }

  lemma PositiveProduct(a: real, b: real)
    requires a > 0.0 && b > 0.0
    ensures a * b > 0.0
  {
  }

  lemma PositiveFactor(a: real, b: real)
    requires b > 0.0 && a * b > 0.0
    ensures a > 0.0
  {
  }

  /** The principal portion grows by the factor 1 + r every month. */
  lemma {:induction false} PrincipalGrowth(loan: real, r: real, m: real, k: nat)
    ensures Principal(loan, r, m, k) == (m - loan * r) * Pow(1.0 + r, k)
  {
    if k > 0 {
      PrincipalGrowth(loan, r, m, k - 1);
      PrincipalStep(loan, r, m, k);
      GrowthStep(r, Principal(loan, r, m, k - 1), Principal(loan, r, m, k),
                 m - loan * r, Pow(1.0 + r, k - 1), Pow(1.0 + r, k));
    }
  }

  /** Each principal portion is 1 + r times the previous one: the balance
      fell by the previous portion, so the interest fell by r times it. */
  lemma PrincipalStep(loan: real, r: real, m: real, k: nat)
    requires k > 0
    ensures Principal(loan, r, m, k) == (1.0 + r) * Principal(loan, r, m, k - 1)
  {
    NextPrincipal(r, m, Balance(loan, r, m, k - 1), Balance(loan, r, m, k));
  }

  /** One month on the principal portion m - b * r. */
  lemma NextPrincipal(r: real, m: real, b: real, b': real)
    requires b' == b - (m - b * r)
    ensures m - b' * r == (1.0 + r) * (m - b * r)
  {
  }

  /** One month of growth: if the portion x is c * p, the next portion
      x' == (1 + r) * x is c * p' with p' == (1 + r) * p. */
  lemma GrowthStep(r: real, x: real, x': real, c: real, p: real, p': real)
    requires x == c * p && x' == (1.0 + r) * x && p' == (1.0 + r) * p
    ensures x' == c * p'
  {
  }

  /** For a positive loan and rate every principal portion is positive. */
  lemma PrincipalPositive(loan: real, r: real, n: nat, m: real, k: nat)
    requires loan > 0.0 && r > 0.0
    requires MonthlyPayment(loan, r, n) == Ok(m)
    ensures Principal(loan, r, m, k) > 0.0
    ensures Balance(loan, r, m, k + 1) < Balance(loan, r, m, k)
  {
    PaymentExceedsInterest(loan, r, n, m);
    PrincipalGrowth(loan, r, m, k);
    PowPositive(1.0 + r, k);
  }

  /** For a positive loan and rate the balance strictly decreases. */
  lemma {:induction false} BalanceDecreasing(loan: real, r: real, n: nat, m: real, j: nat, k: nat)
    requires loan > 0.0 && r > 0.0
    requires MonthlyPayment(loan, r, n) == Ok(m)
    requires j < k
    ensures Balance(loan, r, m, k) < Balance(loan, r, m, j)
  {
    PrincipalPositive(loan, r, n, m, k - 1);
    if j < k - 1 {
      BalanceDecreasing(loan, r, n, m, j, k - 1);
    }
  }

  /** For a positive loan and rate the balance stays positive until the last
      payment and is never negative up to it. */
  lemma BalancePositiveBeforeEnd(loan: real, r: real, n: nat, m: real, k: nat)
    requires loan > 0.0 && r > 0.0
    requires MonthlyPayment(loan, r, n) == Ok(m)
    requires k <= n
    ensures Balance(loan, r, m, k) >= 0.0
    ensures k < n ==> Balance(loan, r, m, k) > 0.0
  {
    AmortizesToZero(loan, r, n, m);
    if k < n {
      BalanceDecreasing(loan, r, n, m, k, n);
    }
  }

  /** The principal portions of the first n payments, in order. */
  function PrincipalColumn(loan: real, r: real, m: real, n: nat): (col: seq<real>)
    ensures |col| == n
  {
    seq(n, j requires 0 <= j < n => Principal(loan, r, m, j))
  }

  /** The interest portions of the first n payments, in order. */
  function InterestColumn(loan: real, r: real, m: real, n: nat): (col: seq<real>)
    ensures |col| == n
  {
    seq(n, j requires 0 <= j < n => Interest(loan, r, m, j))
  }

  /** The principal repaid by the first k payments is the drop in balance. */
  lemma {:induction false} PrincipalsTelescope(loan: real, r: real, m: real, n: nat, k: nat)
    requires k <= n
    ensures Sum(PrincipalColumn(loan, r, m, n), 0, k) == loan - Balance(loan, r, m, k)
  {
    if k > 0 {
      PrincipalsTelescope(loan, r, m, n, k - 1);
    }
  }

  /** The interest paid by the first k payments is what was paid beyond the
      principal repaid. */
  lemma {:induction false} InterestsTelescope(loan: real, r: real, m: real, n: nat, k: nat)
    requires k <= n
    ensures Sum(InterestColumn(loan, r, m, n), 0, k) == k as real * m - (loan - Balance(loan, r, m, k))
  {
    if k > 0 {
      InterestsTelescope(loan, r, m, n, k - 1);
    }
  }

  /** With the annuity payment the principal portions add up to the loan. */
  lemma PrincipalsRepayLoan(loan: real, r: real, n: nat, m: real)
    requires MonthlyPayment(loan, r, n) == Ok(m)
    ensures Sum(PrincipalColumn(loan, r, m, n), 0, n) == loan
  {
    PrincipalsTelescope(loan, r, m, n, n);
    AmortizesToZero(loan, r, n, m);
  }

  /** Total repayments and total interest, as shown beside the schedule. */
  datatype Totals = Totals(totalPayments: real, totalInterest: real)

  /** payment * n in all, of which everything beyond the loan is interest. */
  function LoanTotals(m: real, n: nat, loan: real): (t: Totals)
  {
    var total := m * n as real;
    Totals(total, total - loan)
  }

  /** The totals agree with the schedule: total repayments are the n equal
      payments, total interest is the sum of the interest portions, and
      principal plus interest make up the total. */
  lemma TotalsMatchSchedule(loan: real, r: real, n: nat, m: real)
    requires MonthlyPayment(loan, r, n) == Ok(m)
    ensures Sum(seq(n, j requires 0 <= j < n => m), 0, n) == LoanTotals(m, n, loan).totalPayments
    ensures Sum(InterestColumn(loan, r, m, n), 0, n) == LoanTotals(m, n, loan).totalInterest
    ensures Sum(PrincipalColumn(loan, r, m, n), 0, n) + LoanTotals(m, n, loan).totalInterest
         == LoanTotals(m, n, loan).totalPayments
  {
    AmortizesToZero(loan, r, n, m);
    ClearedTotals(loan, r, n, m);
  }

  /** The totals of a schedule whose balance is cleared after n months. */
  lemma ClearedTotals(loan: real, r: real, n: nat, m: real)
    requires Balance(loan, r, m, n) == 0.0
    ensures Sum(seq(n, j requires 0 <= j < n => m), 0, n) == LoanTotals(m, n, loan).totalPayments
    ensures Sum(InterestColumn(loan, r, m, n), 0, n) == LoanTotals(m, n, loan).totalInterest
    ensures Sum(PrincipalColumn(loan, r, m, n), 0, n) + LoanTotals(m, n, loan).totalInterest
         == LoanTotals(m, n, loan).totalPayments
  {
    SumOfConstant(seq(n, j requires 0 <= j < n => m), m, 0, n);
    InterestsTelescope(loan, r, m, n, n);
    PrincipalsTelescope(loan, r, m, n, n);
  }

  /** With a zero rate no interest accrues and each payment repays m. */
  lemma {:induction false} ZeroRateBalance(loan: real, m: real, k: nat)
    ensures Balance(loan, 0.0, m, k) == loan - k as real * m
    ensures Interest(loan, 0.0, m, k) == 0.0
  {
    if k > 0 {
      ZeroRateBalance(loan, m, k - 1);
    }
  }

  /** The payment with the zero-rate case handled: straight-line repayment
      loan / n where the annuity formula divides by zero. */
  function CorrectedPayment(loan: real, r: real, n: nat): (m: real)
    requires r >= 0.0 && n >= 1
    ensures r == 0.0 ==> m * n as real == loan
    ensures r > 0.0 ==> MonthlyPayment(loan, r, n) == Ok(m)
  {
    PaymentDefinedIff(loan, r, n);
    match MonthlyPayment(loan, r, n)
    case Ok(m) => m
    case Err(_) => loan / n as real
  }

  /** The corrected payment amortizes the loan for every non-negative rate. */
  lemma CorrectedPaymentAmortizes(loan: real, r: real, n: nat)
    requires r >= 0.0 && n >= 1
    ensures Balance(loan, r, CorrectedPayment(loan, r, n), n) == 0.0
  {
    var m := CorrectedPayment(loan, r, n);
    if r == 0.0 {
      ZeroRateBalance(loan, m, n);
    } else {
      AmortizesToZero(loan, r, n, m);
    }
  }
}

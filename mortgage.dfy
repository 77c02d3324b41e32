/** The repayments page of mortgage.py: the loan from home value and
    deposit, the month-by-month payment schedule with its year tag, the
    lowest remaining balance of each year and the first year's rows. */
module Mortgage {
  import opened Sums
  import opened Annuity

  /** The loan is the home value less the deposit. Both inputs are only
      required to be non-negative, so a deposit at or above the home value
      leaves a loan of zero or less. */
  function LoanAmount(homeValue: nat, deposit: nat): (loan: int)
    ensures loan + deposit == homeValue
    ensures loan <= 0 <==> deposit >= homeValue
    ensures loan <= homeValue
  {
    homeValue - deposit
  }

  /** One schedule row: Month, Payment, Principal, Interest, Remaining Balance, Year. */
  datatype Row = Row(month: int, payment: real, principal: real, interest: real, balance: real, year: int)

  /** ceil(month / 12), the year of the loan a month falls in. */
  function YearOf(month: int): (y: int)
    requires month >= 1
    ensures y >= 1
    ensures 12 * (y - 1) < month <= 12 * y
  {
    (month + 11) / 12
  }

  /** The row for a month that opens at balance b: the interest is b * r,
      the rest of the payment m repays principal, and the balance drops by
      the principal. */
  function RowFrom(month: int, m: real, b: real, r: real): (row: Row)
    requires month >= 1
  {
    var interest := b * r;
    var principal := m - interest;
    Row(month, m, principal, interest, b - principal, YearOf(month))
  }

  /** Row k (0-based) of the schedule for a loan repaid by payments of m. */
  function ScheduleRow(loan: real, r: real, m: real, k: nat): (row: Row)
  {
    RowFrom(k + 1, m, Balance(loan, r, m, k), r)
  }

  /** The first n rows of the schedule. */
  function Schedule(loan: real, r: real, m: real, n: nat): (s: seq<Row>)
    ensures |s| == n
  {
    if n == 0 then [] else Schedule(loan, r, m, n - 1) + [ScheduleRow(loan, r, m, n - 1)]
  }

  /** Row k of the first n rows is ScheduleRow(.., k), whatever n is. */
  lemma {:induction false} ScheduleAt(loan: real, r: real, m: real, n: nat, k: nat)
    requires k < n
    ensures Schedule(loan, r, m, n)[k] == ScheduleRow(loan, r, m, k)
  {
    if k < n - 1 {
      ScheduleAt(loan, r, m, n - 1, k);
    }
  }

  /** A row is month `month` paying m at rate r from an opening balance:
      the interest is the opening balance times r, interest and principal
      make up the payment, the balance drops by the principal, and the year
      tag is ceil(month / 12). */
  predicate RowSplits(row: Row, month: int, m: real, opening: real, r: real)
    requires month >= 1
  {
    && row.month == month
    && row.payment == m
    && row.interest == opening * r
    && row.principal + row.interest == m
    && row.balance == opening - row.principal
    && row.year == YearOf(month)
  }

  /** The remaining balance after row k is the balance after k + 1 payments. */
  lemma ScheduleBalance(loan: real, r: real, m: real, n: nat, k: nat)
    requires k < n
    ensures Schedule(loan, r, m, n)[k].balance == Balance(loan, r, m, k + 1)
  {
    ScheduleAt(loan, r, m, n, k);
  }

  /** Row k of the schedule opens at the loan (first row) or at the previous
      row's remaining balance, and splits the payment as the loop does. */
  lemma ScheduleRowSplits(loan: real, r: real, m: real, n: nat, k: nat)
    requires k < n
    ensures k == 0 ==> RowSplits(Schedule(loan, r, m, n)[k], k + 1, m, loan, r)
    ensures k > 0 ==> RowSplits(Schedule(loan, r, m, n)[k], k + 1, m, Schedule(loan, r, m, n)[k - 1].balance, r)
  {
    ScheduleAt(loan, r, m, n, k);
    assert Schedule(loan, r, m, n)[k] == RowFrom(k + 1, m, Balance(loan, r, m, k), r);
    assert RowSplits(Schedule(loan, r, m, n)[k], k + 1, m, Balance(loan, r, m, k), r);
    if k > 0 {
      ScheduleBalance(loan, r, m, n, k - 1);
    }
  }

  /** One pass of the loop: on the balance after k payments, the row it
      builds is row k and it leaves the balance after k + 1 payments. */
  lemma LoopStep(loan: real, r: real, m: real, k: nat, opening: real, row: Row)
    requires opening == Balance(loan, r, m, k)
    requires row.month == k + 1 && row.payment == m && row.year == YearOf(k + 1)
    requires row.interest == opening * r && row.principal == m - row.interest
    requires row.balance == opening - row.principal
    ensures row == ScheduleRow(loan, r, m, k)
    ensures row.balance == Balance(loan, r, m, k + 1)
  {
    assert ScheduleRow(loan, r, m, k) == RowFrom(k + 1, m, opening, r);
  }

  /** The schedule loop: n rows numbered 1..n, each splitting the fixed
      payment into interest on the running balance and principal, and
      reducing the balance by the principal. No clamp is applied. */
  method PaymentSchedule(loanAmount: real, monthlyRate: real, numberOfPayments: nat, monthlyPayment: real)
    returns (schedule: seq<Row>)
    ensures schedule == Schedule(loanAmount, monthlyRate, monthlyPayment, numberOfPayments)
    ensures |schedule| == numberOfPayments
    ensures |schedule| > 0 ==> RowSplits(schedule[0], 1, monthlyPayment, loanAmount, monthlyRate)
    ensures forall k :: 0 < k < |schedule| ==>
      RowSplits(schedule[k], k + 1, monthlyPayment, schedule[k - 1].balance, monthlyRate)
  {
    schedule := [];
    var remainingBalance := loanAmount;
    for i := 1 to numberOfPayments + 1
      invariant schedule == Schedule(loanAmount, monthlyRate, monthlyPayment, i - 1)
      invariant remainingBalance == Balance(loanAmount, monthlyRate, monthlyPayment, i - 1)
    {
      ghost var opening := remainingBalance;
      var interestPayment := remainingBalance * monthlyRate;
      var principalPayment := monthlyPayment - interestPayment;
      remainingBalance := remainingBalance - principalPayment;
      var year := YearOf(i);
      var row := Row(i, monthlyPayment, principalPayment, interestPayment, remainingBalance, year);
      LoopStep(loanAmount, monthlyRate, monthlyPayment, i - 1, opening, row);
      schedule := schedule + [row];
    }
    assert |schedule| == numberOfPayments;
    if numberOfPayments > 0 {
      ScheduleRowSplits(loanAmount, monthlyRate, monthlyPayment, numberOfPayments, 0);
    }
    forall k | 0 < k < |schedule|
      ensures RowSplits(schedule[k], k + 1, monthlyPayment, schedule[k - 1].balance, monthlyRate)
    {
      ScheduleRowSplits(loanAmount, monthlyRate, monthlyPayment, numberOfPayments, k);
    }
  }

  /** With the annuity payment the last row's remaining balance is zero. */
  lemma ScheduleEndsAtZero(loan: real, r: real, n: nat, m: real)
    requires n >= 1
    requires MonthlyPayment(loan, r, n) == Ok(m)
    ensures Schedule(loan, r, m, n)[n - 1].balance == 0.0
  {
    AmortizesToZero(loan, r, n, m);
    ScheduleBalance(loan, r, m, n, n - 1);
  }

  /** With the zero-rate case handled, the schedule ends at zero for every
      rate the input accepts, zero included. */
  lemma CorrectedScheduleEndsAtZero(loan: real, annualPercent: real, n: nat)
    requires annualPercent >= 0.0 && n >= 1
    ensures Schedule(loan, MonthlyRate(annualPercent), CorrectedPayment(loan, MonthlyRate(annualPercent), n), n)[n - 1].balance == 0.0
  {
    CorrectedPaymentAmortizes(loan, MonthlyRate(annualPercent), n);
    ScheduleBalance(loan, MonthlyRate(annualPercent), CorrectedPayment(loan, MonthlyRate(annualPercent), n), n, n - 1);
  }

  /** For a positive loan and rate every row repays principal and leaves
      a remaining balance below the one it opened at. */
  lemma ScheduleDecreasing(loan: real, r: real, n: nat, m: real)
    requires loan > 0.0 && r > 0.0
    requires MonthlyPayment(loan, r, n) == Ok(m)
    ensures forall k :: 0 <= k < n ==> Schedule(loan, r, m, n)[k].principal > 0.0
    ensures n > 0 ==> Schedule(loan, r, m, n)[0].balance < loan
    ensures forall k :: 0 < k < n ==> Schedule(loan, r, m, n)[k].balance < Schedule(loan, r, m, n)[k - 1].balance
  {
    var s := Schedule(loan, r, m, n);
    forall k | 0 <= k < n
      ensures s[k].principal > 0.0
      ensures s[k].balance < Balance(loan, r, m, k)
    {
      ScheduleAt(loan, r, m, n, k);
      PrincipalPositive(loan, r, n, m, k);
    }
    forall k | 0 < k < n
      ensures s[k].balance < s[k - 1].balance
    {
      ScheduleBalance(loan, r, m, n, k - 1);
    }
  }

  function Principals(s: seq<Row>): (col: seq<real>)
    ensures |col| == |s|
  {
    seq(|s|, i requires 0 <= i < |s| => s[i].principal)
  }

  function Interests(s: seq<Row>): (col: seq<real>)
    ensures |col| == |s|
  {
    seq(|s|, i requires 0 <= i < |s| => s[i].interest)
  }

  function Payments(s: seq<Row>): (col: seq<real>)
    ensures |col| == |s|
  {
    seq(|s|, i requires 0 <= i < |s| => s[i].payment)
  }

  /** With the annuity payment the Principal column adds up to the loan,
      the Payment column to the total repayments and the Interest column to
      the total interest. */
  lemma ScheduleColumnTotals(loan: real, r: real, n: nat, m: real)
    requires MonthlyPayment(loan, r, n) == Ok(m)
    ensures Sum(Principals(Schedule(loan, r, m, n)), 0, n) == loan
    ensures Sum(Payments(Schedule(loan, r, m, n)), 0, n) == LoanTotals(m, n, loan).totalPayments
    ensures Sum(Interests(Schedule(loan, r, m, n)), 0, n) == LoanTotals(m, n, loan).totalInterest
  {
    var s := Schedule(loan, r, m, n);
    var principals, interests, payments := Principals(s), Interests(s), Payments(s);
    var ps, ins, ms := PrincipalColumn(loan, r, m, n), InterestColumn(loan, r, m, n), seq(n, j requires 0 <= j < n => m);
    forall k | 0 <= k < n
      ensures principals[k] == ps[k] && interests[k] == ins[k] && payments[k] == ms[k]
    {
      ScheduleAt(loan, r, m, n, k);
    }
    SumPointwise(principals, ps, 0, n);
    SumPointwise(interests, ins, 0, n);
    SumPointwise(payments, ms, 0, n);
    PrincipalsRepayLoan(loan, r, n, m);
    TotalsMatchSchedule(loan, r, n, m);
  }

  /** The year tags of a schedule of n = 12 * loanTerm rows run from 1 to
      loanTerm and row k (month k + 1) belongs to year y exactly when
      12 * (y - 1) <= k < 12 * y. */
  lemma ScheduleYears(loan: real, r: real, m: real, loanTerm: nat)
    ensures forall k :: 0 <= k < 12 * loanTerm ==> 1 <= Schedule(loan, r, m, 12 * loanTerm)[k].year <= loanTerm
    ensures forall k :: 0 <= k < 12 * loanTerm ==>
      12 * (Schedule(loan, r, m, 12 * loanTerm)[k].year - 1) <= k < 12 * Schedule(loan, r, m, 12 * loanTerm)[k].year
  {
    var n := 12 * loanTerm;
    var s := Schedule(loan, r, m, n);
    forall k | 0 <= k < n
      ensures 1 <= s[k].year <= loanTerm
      ensures 12 * (s[k].year - 1) <= k < 12 * s[k].year
    {
      ScheduleAt(loan, r, m, n, k);
    }
  }

  /** The year tags never decrease down the schedule. */
  lemma ScheduleYearsNonDecreasing(loan: real, r: real, m: real, loanTerm: nat)
    ensures forall j, k :: 0 <= j <= k < 12 * loanTerm ==>
      Schedule(loan, r, m, 12 * loanTerm)[j].year <= Schedule(loan, r, m, 12 * loanTerm)[k].year
  {
    ScheduleYears(loan, r, m, loanTerm);
  }

  /** The rows whose Year is y, in schedule order (df[df["Year"] == y]). */
  function RowsOfYear(s: seq<Row>, y: int): (rows: seq<Row>)
    ensures |rows| <= |s|
    ensures forall j :: 0 <= j < |rows| ==> rows[j].year == y
  {
    if s == [] then []
    else (if s[0].year == y then [s[0]] else []) + RowsOfYear(s[1..], y)
  }

  /** Every row of year y is kept by the filter. */
  lemma {:induction false} RowsOfYearKeeps(s: seq<Row>, y: int, i: nat)
    requires i < |s| && s[i].year == y
    ensures s[i] in RowsOfYear(s, y)
    decreases |s|
  {
    if i > 0 {
      assert s[1..][i - 1] == s[i];
      RowsOfYearKeeps(s[1..], y, i - 1);
    }
  }

  /** The filter keeps only rows of the schedule. */
  lemma {:induction false} RowsOfYearFrom(s: seq<Row>, y: int, row: Row)
    requires row in RowsOfYear(s, y)
    ensures row in s
    decreases |s|
  {
    if s != [] && row != s[0] {
      RowsOfYearFrom(s[1..], y, row);
    }
  }

  /** A year that occurs in the schedule has at least one row. */
  lemma RowsOfYearNonEmpty(s: seq<Row>, y: int)
    requires y in Years(s)
    ensures RowsOfYear(s, y) != []
  {
    var i :| 0 <= i < |s| && s[i].year == y;
    RowsOfYearKeeps(s, y, i);
  }

  /** When exactly the rows at lo..hi - 1 have year y, the rows of year y
      are that slice. */
  lemma {:induction false} RowsOfYearSlice(s: seq<Row>, y: int, lo: nat, hi: nat)
    requires lo <= hi <= |s|
    requires forall i :: 0 <= i < |s| ==> (s[i].year == y <==> lo <= i < hi)
    ensures RowsOfYear(s, y) == s[lo..hi]
    decreases |s|
  {
    if s != [] {
      var t := s[1..];
      var lo', hi' := if lo > 0 then lo - 1 else 0, if hi > 0 then hi - 1 else 0;
      forall i | 0 <= i < |t|
        ensures t[i].year == y <==> lo' <= i < hi'
      {
        assert t[i] == s[i + 1];
      }
      RowsOfYearSlice(t, y, lo', hi');
      if lo > 0 {
        assert s[0].year != y;
        assert t[lo'..hi'] == s[lo..hi];
      } else if hi > 0 {
        assert s[0].year == y;
        assert [s[0]] + t[0..hi'] == s[0..hi];
      } else {
        assert s[0].year != y;
      }
    }
  }

  /** The lowest remaining balance among some rows. */
  function MinBalance(rows: seq<Row>): (b: real)
    requires rows != []
    ensures forall i :: 0 <= i < |rows| ==> b <= rows[i].balance
    ensures exists i :: 0 <= i < |rows| && b == rows[i].balance
  {
    if |rows| == 1 then rows[0].balance
    else
      var rest := MinBalance(rows[1..]);
      if rows[0].balance <= rest then rows[0].balance else rest
  }

  /** The Year values that occur in a schedule. */
  function Years(s: seq<Row>): (ys: set<int>)
  {
    set i | 0 <= i < |s| :: s[i].year
  }

  /** df[["Year", "Remaining Balance"]].groupby("Year").min(): for each year
      that occurs, the lowest remaining balance among its rows. */
  function YearlyMinBalance(s: seq<Row>): (mins: map<int, real>)
    ensures mins.Keys == Years(s)
  {
    map y | y in Years(s) :: RowsOfYearNonEmpty(s, y); MinBalance(RowsOfYear(s, y))
  }

  /** The entry for year y is at most every balance of year y and equal to
      one of them. */
  lemma YearlyMinIsLowest(s: seq<Row>, y: int)
    requires y in Years(s)
    ensures forall i :: 0 <= i < |s| && s[i].year == y ==> YearlyMinBalance(s)[y] <= s[i].balance
    ensures exists i :: 0 <= i < |s| && s[i].year == y && YearlyMinBalance(s)[y] == s[i].balance
  {
    var rows := RowsOfYear(s, y);
    RowsOfYearNonEmpty(s, y);
    var b := MinBalance(rows);
    assert YearlyMinBalance(s)[y] == b;
    forall i | 0 <= i < |s| && s[i].year == y
      ensures b <= s[i].balance
    {
      RowsOfYearKeeps(s, y, i);
      var j :| 0 <= j < |rows| && rows[j] == s[i];
    }
    var j :| 0 <= j < |rows| && b == rows[j].balance;
    RowsOfYearFrom(s, y, rows[j]);
    var i :| 0 <= i < |s| && s[i] == rows[j];
    assert s[i].year == y;
  }

  /** The years that occur in a loanTerm-year schedule are 1..loanTerm. */
  lemma ScheduleYearSet(loan: real, r: real, m: real, loanTerm: nat)
    ensures forall y :: y in Years(Schedule(loan, r, m, 12 * loanTerm)) <==> 1 <= y <= loanTerm
  {
    var s := Schedule(loan, r, m, 12 * loanTerm);
    ScheduleYears(loan, r, m, loanTerm);
    forall y | 1 <= y <= loanTerm
      ensures y in Years(s)
    {
      assert s[12 * y - 1].year == y;
    }
  }

  /** For a positive loan and rate with the annuity payment, year y's
      lowest balance is the balance at its twelfth month, 12 * y. */
  lemma YearEndIsLowest(loan: real, r: real, loanTerm: nat, m: real, y: int)
    requires loan > 0.0 && r > 0.0
    requires MonthlyPayment(loan, r, 12 * loanTerm) == Ok(m)
    requires 1 <= y <= loanTerm
    ensures y in YearlyMinBalance(Schedule(loan, r, m, 12 * loanTerm))
    ensures YearlyMinBalance(Schedule(loan, r, m, 12 * loanTerm))[y] == Schedule(loan, r, m, 12 * loanTerm)[12 * y - 1].balance
  {
    var n := 12 * loanTerm;
    var s := Schedule(loan, r, m, n);
    var last := 12 * y - 1;
    ScheduleYears(loan, r, m, loanTerm);
    assert s[last].year == y;
    YearlyMinIsLowest(s, y);
    var i :| 0 <= i < |s| && s[i].year == y && YearlyMinBalance(s)[y] == s[i].balance;
    assert i <= last;
    if i < last {
      ScheduleDecreasesBetween(loan, r, n, m, i, last);
    }
  }

  /** For a positive loan and rate with the annuity payment, a later row
      leaves a lower balance than an earlier one. */
  lemma ScheduleDecreasesBetween(loan: real, r: real, n: nat, m: real, i: nat, j: nat)
    requires loan > 0.0 && r > 0.0
    requires MonthlyPayment(loan, r, n) == Ok(m)
    requires i < j < n
    ensures Schedule(loan, r, m, n)[j].balance < Schedule(loan, r, m, n)[i].balance
  {
    ScheduleBalance(loan, r, m, n, i);
    ScheduleBalance(loan, r, m, n, j);
    BalanceDecreasing(loan, r, n, m, i + 1, j + 1);
  }

  /** For a positive loan and rate with the annuity payment, the years of a
      loanTerm-year schedule are 1..loanTerm and each year's lowest balance
      is the balance at its twelfth month, 12 * y. */
  lemma YearlyMinIsYearEnd(loan: real, r: real, loanTerm: nat, m: real)
    requires loan > 0.0 && r > 0.0
    requires MonthlyPayment(loan, r, 12 * loanTerm) == Ok(m)
    ensures forall y :: y in Years(Schedule(loan, r, m, 12 * loanTerm)) <==> 1 <= y <= loanTerm
    ensures forall y :: 1 <= y <= loanTerm ==>
      YearlyMinBalance(Schedule(loan, r, m, 12 * loanTerm))[y] == Schedule(loan, r, m, 12 * loanTerm)[12 * y - 1].balance
  {
    ScheduleYearSet(loan, r, m, loanTerm);
    forall y | 1 <= y <= loanTerm
      ensures YearlyMinBalance(Schedule(loan, r, m, 12 * loanTerm))[y] == Schedule(loan, r, m, 12 * loanTerm)[12 * y - 1].balance
    {
      YearEndIsLowest(loan, r, loanTerm, m, y);
    }
  }

  /** df[df["Year"] == 1]: the first year's rows. */
  function FirstYear(s: seq<Row>): (rows: seq<Row>)
  {
    RowsOfYear(s, 1)
  }

  /** The first year of a schedule of at least one year is its first twelve
      rows, months 1..12. */
  lemma FirstYearIsFirstTwelveMonths(loan: real, r: real, m: real, loanTerm: nat)
    requires loanTerm >= 1
    ensures FirstYear(Schedule(loan, r, m, 12 * loanTerm)) == Schedule(loan, r, m, 12 * loanTerm)[..12]
    ensures forall k :: 0 <= k < 12 ==> FirstYear(Schedule(loan, r, m, 12 * loanTerm))[k].month == k + 1
  {
    var n := 12 * loanTerm;
    var s := Schedule(loan, r, m, n);
    ScheduleYears(loan, r, m, loanTerm);
    forall i | 0 <= i < n
      ensures s[i].year == 1 <==> 0 <= i < 12
    {
    }
    RowsOfYearSlice(s, 1, 0, 12);
    forall k | 0 <= k < 12
      ensures s[k].month == k + 1
    {
      ScheduleAt(loan, r, m, n, k);
    }
  }
}

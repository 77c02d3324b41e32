/** The single-page calculator: the same annuity payment, a schedule whose
    running balance is clamped at zero, the sampled indices that the
    balance chart plots, the per-year interest and principal buckets, and
    the first-year table. */
module App {
  import opened Sums
  import opened Annuity

  /** The ranges the sidebar inputs accept: loan 10000..10000000, annual
      rate 0.1..20.0 percent, term 1..40 years. */
  predicate ValidInputs(loanAmount: real, interestRate: real, loanTerm: nat)
  {
    10000.0 <= loanAmount <= 10000000.0 && 0.1 <= interestRate <= 20.0 && 1 <= loanTerm <= 40
  }

  /** Under the sidebar ranges the monthly rate is positive and the payment
      formula is defined for the term's n = 12 * loanTerm payments. */
  lemma ValidInputsDefinePayment(loanAmount: real, interestRate: real, loanTerm: nat)
    requires ValidInputs(loanAmount, interestRate, loanTerm)
    ensures MonthlyRate(interestRate) > 0.0
    ensures MonthlyPayment(loanAmount, MonthlyRate(interestRate), loanTerm * 12).Ok?
  {
    PaymentDefinedIff(loanAmount, MonthlyRate(interestRate), loanTerm * 12);
  }

  /** One row of the amortization table. */
  datatype Row = Row(paymentNo: int, paymentAmount: real, principal: real, interest: real, balance: real)

  /** The rounding guard: a negative balance is replaced by zero. */
  function Clamp(x: real): (c: real)
    ensures c >= 0.0
    ensures x >= 0.0 ==> c == x
    ensures x < 0.0 ==> c == 0.0
  {
    if x < 0.0 then 0.0 else x
  }

  /** The running balance of the clamped loop after k payments. */
  function ClampedBalance(loan: real, r: real, m: real, k: nat): (balance: real)
  {
    if k == 0 then loan
    else
      var c := ClampedBalance(loan, r, m, k - 1);
      Clamp(c - (m - c * r))
  }

  /** The row for payment number paymentNo on opening balance c. */
  function RowOn(paymentNo: int, m: real, c: real, r: real): (row: Row)
  {
    var interest := c * r;
    var principal := m - interest;
    Row(paymentNo, m, principal, interest, Clamp(c - principal))
  }

  /** The row the loop appends for payment k + 1. */
  function ClampedRow(loan: real, r: real, m: real, k: nat): (row: Row)
  {
    RowOn(k + 1, m, ClampedBalance(loan, r, m, k), r)
  }

  /** The balance a row leaves is the clamped running balance one payment
      later. */
  lemma ClampedRowBalance(loan: real, r: real, m: real, k: nat)
    ensures ClampedRow(loan, r, m, k).balance == ClampedBalance(loan, r, m, k + 1)
  {
  }

  /** One pass of the loop: on the running balance after k payments, the row
      it builds is row k and it leaves the running balance after k + 1. */
  lemma LoopStep(loan: real, r: real, m: real, k: nat, opening: real, row: Row)
    requires opening == ClampedBalance(loan, r, m, k)
    requires row.paymentNo == k + 1 && row.paymentAmount == m
    requires row.interest == opening * r && row.principal == m - row.interest
    requires row.balance == Clamp(opening - row.principal)
    ensures row == ClampedRow(loan, r, m, k)
    ensures row.balance == ClampedBalance(loan, r, m, k + 1)
  {
    assert ClampedRow(loan, r, m, k) == RowOn(k + 1, m, opening, r);
    ClampedRowBalance(loan, r, m, k);
  }

  /** The first n rows of the clamped schedule. */
  function Schedule(loan: real, r: real, m: real, n: nat): (s: seq<Row>)
    ensures |s| == n
  {
    if n == 0 then [] else Schedule(loan, r, m, n - 1) + [ClampedRow(loan, r, m, n - 1)]
  }

  lemma {:induction false} ScheduleAt(loan: real, r: real, m: real, n: nat, k: nat)
    requires k < n
    ensures Schedule(loan, r, m, n)[k] == ClampedRow(loan, r, m, k)
    decreases n
  {
    if k < n - 1 {
      ScheduleAt(loan, r, m, n - 1, k);
    }
  }

  /** A row for payment number paymentNo on an opening balance: interest is
      opening * r, principal and interest add up to the payment m, and the
      new balance is opening - principal, or zero when that is negative. */
  predicate RowSplits(row: Row, paymentNo: int, m: real, opening: real, r: real)
  {
    && row.paymentNo == paymentNo
    && row.paymentAmount == m
    && row.interest == opening * r
    && row.principal + row.interest == m
    && row.balance >= 0.0
    && (opening - row.principal >= 0.0 ==> row.balance == opening - row.principal)
    && (opening - row.principal < 0.0 ==> row.balance == 0.0)
  }

  /** Row k's remaining balance is the clamped running balance after k + 1
      payments. */
  lemma ScheduleBalance(loan: real, r: real, m: real, n: nat, k: nat)
    requires k < n
    ensures Schedule(loan, r, m, n)[k].balance == ClampedBalance(loan, r, m, k + 1)
  {
    ScheduleAt(loan, r, m, n, k);
  }

  /** Every row splits the payment on the balance the previous row left. */
  lemma ScheduleRowSplits(loan: real, r: real, m: real, n: nat, k: nat)
    requires k < n
    ensures k == 0 ==> RowSplits(Schedule(loan, r, m, n)[k], k + 1, m, loan, r)
    ensures k > 0 ==> RowSplits(Schedule(loan, r, m, n)[k], k + 1, m, Schedule(loan, r, m, n)[k - 1].balance, r)
  {
    ScheduleAt(loan, r, m, n, k);
    assert Schedule(loan, r, m, n)[k] == RowOn(k + 1, m, ClampedBalance(loan, r, m, k), r);
    assert RowSplits(Schedule(loan, r, m, n)[k], k + 1, m, ClampedBalance(loan, r, m, k), r);
    if k > 0 {
      ScheduleBalance(loan, r, m, n, k - 1);
    }
  }

  /** create_amortization_schedule, with the payment the page computed
      passed in rather than read from the enclosing script. */
  method CreateAmortizationSchedule(loanAmount: real, interestRate: real, loanTerm: nat, monthlyPayment: real)
    returns (schedule: seq<Row>)
    ensures schedule == Schedule(loanAmount, MonthlyRate(interestRate), monthlyPayment, loanTerm * 12)
    ensures |schedule| == loanTerm * 12
    ensures |schedule| > 0 ==> RowSplits(schedule[0], 1, monthlyPayment, loanAmount, MonthlyRate(interestRate))
    ensures forall k :: 0 < k < |schedule| ==>
      RowSplits(schedule[k], k + 1, monthlyPayment, schedule[k - 1].balance, MonthlyRate(interestRate))
  {
    var monthlyRate := interestRate / 100.0 / 12.0;
    var totalPayments := loanTerm * 12;
    schedule := [];
    var remainingBalance := loanAmount;
    for paymentNo := 1 to totalPayments + 1
      invariant schedule == Schedule(loanAmount, monthlyRate, monthlyPayment, paymentNo - 1)
      invariant remainingBalance == ClampedBalance(loanAmount, monthlyRate, monthlyPayment, paymentNo - 1)
    {
      ghost var opening := remainingBalance;
      var interestPayment := remainingBalance * monthlyRate;
      var principalPayment := monthlyPayment - interestPayment;
      remainingBalance := remainingBalance - principalPayment;
      if remainingBalance < 0.0 {
        remainingBalance := 0.0;
      }
      var row := Row(paymentNo, monthlyPayment, principalPayment, interestPayment, remainingBalance);
      LoopStep(loanAmount, monthlyRate, monthlyPayment, paymentNo - 1, opening, row);
      schedule := schedule + [row];
    }
    assert |schedule| == totalPayments;
    if totalPayments > 0 {
      ScheduleRowSplits(loanAmount, monthlyRate, monthlyPayment, totalPayments, 0);
    }
    forall k | 0 < k < |schedule|
      ensures RowSplits(schedule[k], k + 1, monthlyPayment, schedule[k - 1].balance, monthlyRate)
    {
      ScheduleRowSplits(loanAmount, monthlyRate, monthlyPayment, totalPayments, k);
    }
  }

  /** Whenever a row's interest does not exceed the payment, its balance is
      at most the one it opened at (for the first row, when the loan is not
      negative). */
  lemma ScheduleNonIncreasing(loan: real, r: real, m: real, n: nat)
    ensures n > 0 && loan >= 0.0 && Schedule(loan, r, m, n)[0].interest <= m ==>
      Schedule(loan, r, m, n)[0].balance <= loan
    ensures forall k :: 0 < k < n && Schedule(loan, r, m, n)[k].interest <= m ==>
      Schedule(loan, r, m, n)[k].balance <= Schedule(loan, r, m, n)[k - 1].balance
  {
    var s := Schedule(loan, r, m, n);
    if n > 0 {
      ScheduleRowSplits(loan, r, m, n, 0);
    }
    forall k | 0 < k < n && s[k].interest <= m
      ensures s[k].balance <= s[k - 1].balance
    {
      ScheduleRowSplits(loan, r, m, n, k - 1);
      ScheduleRowSplits(loan, r, m, n, k);
    }
  }

  /** For a positive loan and rate with the annuity payment, the clamp never
      changes a value: the clamped running balance is the exact one for the
      whole term. */
  lemma {:induction false} ClampNeverBinds(loan: real, r: real, n: nat, m: real, k: nat)
    requires loan > 0.0 && r > 0.0
    requires MonthlyPayment(loan, r, n) == Ok(m)
    requires k <= n
    ensures ClampedBalance(loan, r, m, k) == Balance(loan, r, m, k)
  {
    if k > 0 {
      ClampNeverBinds(loan, r, n, m, k - 1);
      BalancePositiveBeforeEnd(loan, r, n, m, k);
      ClampStep(loan, r, m, k);
    }
  }

  /** One month of the clamp: if the clamped balance agreed with the exact
      one before a payment and the exact one stays non-negative, they agree
      after it. */
  lemma ClampStep(loan: real, r: real, m: real, k: nat)
    requires k > 0
    requires ClampedBalance(loan, r, m, k - 1) == Balance(loan, r, m, k - 1)
    requires Balance(loan, r, m, k) >= 0.0
    ensures ClampedBalance(loan, r, m, k) == Balance(loan, r, m, k)
  {
  }

  /** For a positive loan and rate with the annuity payment, row k of the
      clamped schedule carries the exact interest, principal and balance. */
  lemma RowIsExact(loan: real, r: real, n: nat, m: real, k: nat)
    requires loan > 0.0 && r > 0.0
    requires MonthlyPayment(loan, r, n) == Ok(m)
    requires k < n
    ensures Schedule(loan, r, m, n)[k].interest == Interest(loan, r, m, k)
    ensures Schedule(loan, r, m, n)[k].principal == Principal(loan, r, m, k)
    ensures Schedule(loan, r, m, n)[k].balance == Balance(loan, r, m, k + 1)
  {
    ClampNeverBinds(loan, r, n, m, k);
    ClampNeverBinds(loan, r, n, m, k + 1);
    RowFromExactBalances(loan, r, m, n, k);
  }

  /** Where the clamped balances before and after row k are the exact ones,
      row k carries the exact interest, principal and balance. */
  lemma RowFromExactBalances(loan: real, r: real, m: real, n: nat, k: nat)
    requires k < n
    requires ClampedBalance(loan, r, m, k) == Balance(loan, r, m, k)
    requires ClampedBalance(loan, r, m, k + 1) == Balance(loan, r, m, k + 1)
    ensures Schedule(loan, r, m, n)[k].interest == Interest(loan, r, m, k)
    ensures Schedule(loan, r, m, n)[k].principal == Principal(loan, r, m, k)
    ensures Schedule(loan, r, m, n)[k].balance == Balance(loan, r, m, k + 1)
  {
    ScheduleAt(loan, r, m, n, k);
    assert Schedule(loan, r, m, n)[k] == RowOn(k + 1, m, Balance(loan, r, m, k), r);
    ExactRowFields(loan, r, m, k);
    ScheduleBalance(loan, r, m, n, k);
  }

  /** The row on the exact opening balance carries the exact interest and
      principal. */
  lemma ExactRowFields(loan: real, r: real, m: real, k: nat)
    ensures RowOn(k + 1, m, Balance(loan, r, m, k), r).interest == Interest(loan, r, m, k)
    ensures RowOn(k + 1, m, Balance(loan, r, m, k), r).principal == Principal(loan, r, m, k)
  {
  }

  /** For a positive loan and rate with the annuity payment, every row of
      the clamped schedule carries the exact interest, principal and
      balance, and the last balance is zero. */
  lemma ClampedScheduleIsExact(loan: real, r: real, n: nat, m: real)
    requires loan > 0.0 && r > 0.0
    requires MonthlyPayment(loan, r, n) == Ok(m)
    ensures forall k :: 0 <= k < n ==>
      && Schedule(loan, r, m, n)[k].interest == Interest(loan, r, m, k)
      && Schedule(loan, r, m, n)[k].principal == Principal(loan, r, m, k)
      && Schedule(loan, r, m, n)[k].balance == Balance(loan, r, m, k + 1)
    ensures n > 0 ==> Schedule(loan, r, m, n)[n - 1].balance == 0.0
  {
    forall k | 0 <= k < n
      ensures Schedule(loan, r, m, n)[k].interest == Interest(loan, r, m, k)
      ensures Schedule(loan, r, m, n)[k].principal == Principal(loan, r, m, k)
      ensures Schedule(loan, r, m, n)[k].balance == Balance(loan, r, m, k + 1)
    {
      RowIsExact(loan, r, n, m, k);
    }
    if n > 0 {
      AmortizesToZero(loan, r, n, m);
    }
  }

  /** On any inputs the sidebar accepts, the page's schedule ends at a zero
      balance without the clamp ever acting. */
  lemma PageScheduleEndsAtZero(loanAmount: real, interestRate: real, loanTerm: nat)
    requires ValidInputs(loanAmount, interestRate, loanTerm)
    ensures MonthlyPayment(loanAmount, MonthlyRate(interestRate), loanTerm * 12).Ok?
    ensures
      var r := MonthlyRate(interestRate);
      var m := MonthlyPayment(loanAmount, r, loanTerm * 12).value;
      Schedule(loanAmount, r, m, loanTerm * 12)[loanTerm * 12 - 1].balance == 0.0
  {
    ValidInputsDefinePayment(loanAmount, interestRate, loanTerm);
    var r := MonthlyRate(interestRate);
    var m := MonthlyPayment(loanAmount, r, loanTerm * 12).value;
    ClampNeverBinds(loanAmount, r, loanTerm * 12, m, loanTerm * 12);
    ScheduleBalance(loanAmount, r, m, loanTerm * 12, loanTerm * 12 - 1);
    AmortizesToZero(loanAmount, r, loanTerm * 12, m);
  }

  /** The number of multiples 12 * i with i >= 1 below scheduleLength. */
  function MultiplesBelow(scheduleLength: nat): (c: int)
    ensures c >= 0
    ensures forall i :: 1 <= i ==> (12 * i < scheduleLength <==> i <= c)
  {
    if scheduleLength == 0 then 0 else (scheduleLength - 1) / 12
  }

  /** yearly_points: 0, then 12 * i for i in 1..loanTerm while 12 * i is a
      row index, then the last row index unless it is already present. */
  method YearlyPoints(scheduleLength: nat, loanTerm: nat) returns (points: seq<int>)
    ensures |points| >= 1 && points[0] == 0
    ensures points[|points| - 1] == scheduleLength - 1
    ensures forall j :: 0 <= j < |points| - 1 ==> points[j] == 12 * j
    ensures forall i :: 1 <= i <= loanTerm ==> (12 * i in points <==> 12 * i < scheduleLength)
    ensures scheduleLength >= 1 ==> forall j :: 0 < j < |points| ==> points[j - 1] < points[j]
    ensures scheduleLength >= 1 ==> forall j :: 0 <= j < |points| ==> 0 <= points[j] < scheduleLength
    ensures scheduleLength == 12 * loanTerm && loanTerm >= 1 ==> |points| == loanTerm + 1
    ensures |points| <= loanTerm + 2
  {
    ghost var cap := MultiplesBelow(scheduleLength);
    points := [0];
    for i := 1 to loanTerm + 1
      invariant |points| == 1 + if i - 1 <= cap then i - 1 else cap
      invariant forall j :: 0 <= j < |points| ==> points[j] == 12 * j
    {
      if i * 12 < scheduleLength {
        points := points + [i * 12];
      }
    }
    ghost var count := |points|;
    ghost var multiples := points;
    assert forall j :: 0 <= j < count ==> 12 * j < scheduleLength || j == 0;
    if scheduleLength - 1 !in points {
      points := points + [scheduleLength - 1];
    } else {
      var j :| 0 <= j < |points| && points[j] == scheduleLength - 1;
      assert j == |points| - 1;
    }
    forall i | 1 <= i <= loanTerm && 12 * i < scheduleLength
      ensures 12 * i in points
    {
      assert points[i] == 12 * i;
    }
  }

  /** One point of the yearly principal/interest chart: the bucket's
      Payment label and its summed Interest and Principal. */
  datatype Bucket = Bucket(payment: int, interest: real, principal: real)

  function Interests(s: seq<Row>): (col: seq<real>)
    ensures |col| == |s|
  {
    seq(|s|, i requires 0 <= i < |s| => s[i].interest)
  }

  function Principals(s: seq<Row>): (col: seq<real>)
    ensures |col| == |s|
  {
    seq(|s|, i requires 0 <= i < |s| => s[i].principal)
  }

  /** The number of groups of index // 12 over len rows. */
  function BucketCount(len: nat): (c: nat)
    ensures forall i :: 0 <= i < len ==> i / 12 < c
    ensures forall g :: 0 <= g < c ==> 12 * g < len
  {
    (len + 11) / 12
  }

  /** The column with every entry outside group g (index // 12 != g) zeroed. */
  function Masked(xs: seq<real>, g: int): (ys: seq<real>)
    ensures |ys| == |xs|
  {
    seq(|xs|, i requires 0 <= i < |xs| => if i / 12 == g then xs[i] else 0.0)
  }

  /** groupby(index // 12).sum() for group g. */
  function GroupSum(xs: seq<real>, g: int): (total: real)
  {
    Sum(Masked(xs, g), 0, |xs|)
  }

  /** The yearly buckets: one per group k = index // 12, labelled
      (k + 1) * 12. */
  function YearlyBuckets(s: seq<Row>): (b: seq<Bucket>)
    ensures |b| == BucketCount(|s|)
    ensures forall k :: 0 <= k < |b| ==> b[k].payment == (k + 1) * 12
  {
    seq(BucketCount(|s|), k requires 0 <= k < BucketCount(|s|) =>
      Bucket((k + 1) * 12, GroupSum(Interests(s), k), GroupSum(Principals(s), k)))
  }

  /** The end of group g's block of rows. */
  function BlockEnd(len: nat, g: nat): (e: nat)
  {
    if 12 * g + 12 <= len then 12 * g + 12 else len
  }

  /** Group g holds exactly the rows 12 * g .. 12 * g + 11 that exist. */
  lemma GroupSumIsBlock(xs: seq<real>, g: nat)
    requires g < BucketCount(|xs|)
    ensures GroupSum(xs, g) == Sum(xs, 12 * g, BlockEnd(|xs|, g))
  {
    var ys := Masked(xs, g);
    var lo, hi := 12 * g, BlockEnd(|xs|, g);
    SumSplit(ys, 0, lo, |xs|);
    SumSplit(ys, lo, hi, |xs|);
    forall i | 0 <= i < lo
      ensures ys[i] == 0.0
    {
      assert i / 12 < g;
    }
    SumOfZeros(ys, 0, lo);
    forall i | hi <= i < |xs|
      ensures ys[i] == 0.0
    {
      assert i / 12 > g;
    }
    SumOfZeros(ys, hi, |xs|);
    forall i | lo <= i < hi
      ensures ys[i] == xs[i]
    {
      assert i / 12 == g;
    }
    SumPointwise(ys, xs, lo, hi);
  }

  /** The first k blocks together cover the rows before the end of block
      k - 1. */
  lemma {:induction false} BlocksCover(xs: seq<real>, k: nat)
    requires k <= BucketCount(|xs|)
    ensures Sum(seq(k, g requires 0 <= g < k => GroupSum(xs, g)), 0, k)
         == Sum(xs, 0, if k == 0 then 0 else BlockEnd(|xs|, k - 1))
  {
    if k > 0 {
      var sums := seq(k, g requires 0 <= g < k => GroupSum(xs, g));
      var fewer := seq(k - 1, g requires 0 <= g < k - 1 => GroupSum(xs, g));
      BlocksCover(xs, k - 1);
      SumPointwise(sums, fewer, 0, k - 1);
      GroupSumIsBlock(xs, k - 1);
      SumSplit(xs, 0, 12 * (k - 1), BlockEnd(|xs|, k - 1));
    }
  }

  function BucketInterests(b: seq<Bucket>): (col: seq<real>)
    ensures |col| == |b|
  {
    seq(|b|, k requires 0 <= k < |b| => b[k].interest)
  }

  function BucketPrincipals(b: seq<Bucket>): (col: seq<real>)
    ensures |col| == |b|
  {
    seq(|b|, k requires 0 <= k < |b| => b[k].principal)
  }

  /** A column of group sums, one per group, adds up to the whole column. */
  lemma GroupSumsAddUp(xs: seq<real>, sums: seq<real>)
    requires |sums| == BucketCount(|xs|)
    requires forall g :: 0 <= g < |sums| ==> sums[g] == GroupSum(xs, g)
    ensures Sum(sums, 0, |sums|) == Sum(xs, 0, |xs|)
  {
    var c := |sums|;
    SumPointwise(sums, seq(c, g requires 0 <= g < c => GroupSum(xs, g)), 0, c);
    BlocksCover(xs, c);
    if c > 0 {
      assert BlockEnd(|xs|, c - 1) == |xs|;
    }
  }

  /** The yearly Interest buckets add up to the Interest column and the
      yearly Principal buckets to the Principal column. */
  lemma BucketsAddUp(s: seq<Row>)
    ensures Sum(BucketInterests(YearlyBuckets(s)), 0, BucketCount(|s|)) == Sum(Interests(s), 0, |s|)
    ensures Sum(BucketPrincipals(YearlyBuckets(s)), 0, BucketCount(|s|)) == Sum(Principals(s), 0, |s|)
  {
    var b := YearlyBuckets(s);
    forall g | 0 <= g < |b|
      ensures BucketInterests(b)[g] == GroupSum(Interests(s), g)
      ensures BucketPrincipals(b)[g] == GroupSum(Principals(s), g)
    {
    }
    GroupSumsAddUp(Interests(s), BucketInterests(b));
    GroupSumsAddUp(Principals(s), BucketPrincipals(b));
  }

  /** For a positive loan and rate with the annuity payment, the pie chart's
      two slices match the schedule: the Principal slice (the loan) is the
      sum of the Principal column and the Interest slice (total interest)
      the sum of the Interest column. */
  lemma PieChartMatchesSchedule(loan: real, r: real, n: nat, m: real)
    requires loan > 0.0 && r > 0.0
    requires MonthlyPayment(loan, r, n) == Ok(m)
    ensures Sum(Interests(Schedule(loan, r, m, n)), 0, n) == LoanTotals(m, n, loan).totalInterest
    ensures Sum(Principals(Schedule(loan, r, m, n)), 0, n) == loan
  {
    ClampedScheduleIsExact(loan, r, n, m);
    SumPointwise(Interests(Schedule(loan, r, m, n)), InterestColumn(loan, r, m, n), 0, n);
    SumPointwise(Principals(Schedule(loan, r, m, n)), PrincipalColumn(loan, r, m, n), 0, n);
    TotalsMatchSchedule(loan, r, n, m);
    PrincipalsRepayLoan(loan, r, n, m);
  }

  /** For a positive loan and rate with the annuity payment, the yearly
      Interest buckets add up to the total interest the page reports and
      the yearly Principal buckets to the loan. */
  lemma BucketsMatchTotals(loan: real, r: real, n: nat, m: real)
    requires loan > 0.0 && r > 0.0
    requires MonthlyPayment(loan, r, n) == Ok(m)
    ensures Sum(BucketInterests(YearlyBuckets(Schedule(loan, r, m, n))), 0, BucketCount(n))
         == LoanTotals(m, n, loan).totalInterest
    ensures Sum(BucketPrincipals(YearlyBuckets(Schedule(loan, r, m, n))), 0, BucketCount(n)) == loan
  {
    BucketsAddUp(Schedule(loan, r, m, n));
    PieChartMatchesSchedule(loan, r, n, m);
  }

  /** amortization_df.head(12). */
  function FirstYear(s: seq<Row>): (rows: seq<Row>)
  {
    if |s| <= 12 then s else s[..12]
  }

  /** The first-year table of a schedule of at least one year is its first
      twelve rows, payments 1..12. */
  lemma FirstYearIsFirstTwelvePayments(loan: real, r: real, m: real, loanTerm: nat)
    requires loanTerm >= 1
    ensures |FirstYear(Schedule(loan, r, m, loanTerm * 12))| == 12
    ensures forall k :: 0 <= k < 12 ==>
      FirstYear(Schedule(loan, r, m, loanTerm * 12))[k] == Schedule(loan, r, m, loanTerm * 12)[k]
    ensures forall k :: 0 <= k < 12 ==> FirstYear(Schedule(loan, r, m, loanTerm * 12))[k].paymentNo == k + 1
  {
    var s := Schedule(loan, r, m, loanTerm * 12);
    forall k | 0 <= k < 12
      ensures s[k].paymentNo == k + 1
    {
      ScheduleAt(loan, r, m, loanTerm * 12, k);
    }
  }
}

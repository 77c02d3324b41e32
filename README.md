# Fixed-rate mortgage amortization

This project models the arithmetic core of two Streamlit mortgage calculators, `mortgage.py` and `app.py`, and proves properties of it.

The shared part of the two pages:

- An annual percentage rate becomes a monthly rate, `rate / 100 / 12`.
- A term in years becomes `term * 12` monthly payments.
- The fixed annuity payment is `loan * r(1+r)^n / ((1+r)^n - 1)`.
- Total repayments are `payment * n`, and total interest is that total less the loan.

Each page builds a payment schedule with a loop that carries a running balance. Each month:

- the interest is balance times rate;
- the rest of the payment repays principal;
- the balance drops by that principal.

The two schedules differ slightly:

- `mortgage.py` tags each month with its year of the loan, `ceil(month / 12)`.
- `app.py` instead resets a negative balance to zero.

Over the schedule, the pages derive some report views:

- the lowest remaining balance of each year;
- the first year's rows;
- the sampled month indices for the balance chart;
- per-year sums of interest and principal, grouped by `index // 12`.

Files:

- `sums.dfy` (module `Sums`): range sums over a column of reals, used for every total.
- `annuity.dfy` (module `Annuity`): the shared parts. These are the rate and the payment, with the zero-rate division as an explicit error. It also holds the unclamped balance recurrence of the `mortgage.py` loop, and the totals. The `app.py` loop computes the clamped recurrence `App.ClampedBalance` instead, which is proved equal to `Annuity.Balance` for a positive loan and rate with the annuity payment (`App.ClampNeverBinds`). The theorems proved here are:
  - the closed form of the balance;
  - the annuity payment clears the loan in exactly n months;
  - for a positive loan and rate, it exceeds the first month's interest, so the balance strictly decreases;
  - the principal portions repay the loan;
  - the interest portions add up to the total interest.
- `mortgage.dfy` (module `Mortgage`): the repayments page of `mortgage.py`. It holds the loan from home value and deposit, the schedule loop with its year tag, the yearly minimum balance as a map from year to balance, and the first-year filter.
- `app.dfy` (module `App`): the `app.py` page. It holds the input bounds, `create_amortization_schedule` with its clamp, the `yearly_points` sampling, the `index // 12` buckets and `head(12)`.

Which function models which expression:

- In `annuity.dfy`:
  - `Annuity.MonthlyRate` models `rate / 100 / 12`.
  - `Annuity.MonthlyPayment` models the payment formula.
  - `Annuity.LoanTotals` models total repayments and total interest (`mortgage.py` lines 64-65, `app.py` lines 53-54 and 161).
  - `Annuity.Balance`, `Annuity.Interest` and `Annuity.Principal` model the running balance and the two portions of `mortgage.py` lines 78-80.
- In `mortgage.dfy`:
  - `Mortgage.LoanAmount` models the loan.
  - `Mortgage.YearOf` models the year tag.
  - `Mortgage.Schedule` models the loop, and `Mortgage.PaymentSchedule` is the loop itself.
  - `Mortgage.RowsOfYear` models the year filter, and `Mortgage.YearlyMinBalance` models `groupby("Year").min()`.
  - `Mortgage.FirstYear` models `df[df["Year"] == 1]` (line 107).
- In `app.dfy`:
  - `App.ValidInputs` models the sidebar bounds (lines 21-43).
  - `App.Clamp` and `App.ClampedBalance` model the clamped running balance (lines 65-71).
  - `App.Schedule` models the loop, and `App.CreateAmortizationSchedule` is the loop itself.
  - `App.YearlyPoints` models the sampled indices.
  - `App.GroupSum` models one group of `groupby(index // 12).sum()` (line 127), and `App.YearlyBuckets` models both grouped sums with their labels.
  - `App.FirstYear` models `head(12)` (line 179).

Both loops are written as `method`s. Each is proved equal to a recursive specification function of the schedule. The properties are proved about that function.

## Model

| member | source | states |
|---|---|---|
| Annuity.MonthlyRate | mortgage.py:55 | the monthly rate is the annual percentage divided by 1200; it is positive, or zero, exactly when the annual rate is; app.py:46 converts the same way |
| Annuity.MonthlyPayment | mortgage.py:57-61 | a defined payment m satisfies the annuity equation m((1+r)^n - 1) = loan·r(1+r)^n; it fails, with a division by zero, exactly when (1+r)^n = 1; app.py:48 uses the same formula |
| Annuity.PaymentDefinedIff | mortgage.py:57-61 | for r ≥ 0, the payment is defined if and only if r > 0 and n ≥ 1 |
| Annuity.ZeroRateDividesByZero | mortgage.py:50-61 | a zero annual rate, which the input allows, makes the payment formula divide by zero |
| Annuity.BalanceClosedForm | mortgage.py:77-80 | after k payments, r·B(k) = r·loan(1+r)^k - m((1+r)^k - 1) |
| Annuity.PrincipalGrowth | mortgage.py:78-80 | the principal portion grows geometrically: P(k) = (m - loan·r)(1+r)^k |
| Annuity.PrincipalStep | mortgage.py:78-80 | each principal portion is (1+r) times the previous one |
| Annuity.AmortizesToZero | mortgage.py:57-61 | with the annuity payment, the running balance is exactly zero after n payments |
| Annuity.PaymentExceedsInterest | mortgage.py:57-61 | for a positive loan and rate, the annuity payment exceeds the first month's interest loan·r |
| Annuity.PrincipalPositive | mortgage.py:78-80 | for a positive loan and rate, every principal portion is positive and every payment lowers the balance |
| Annuity.BalanceDecreasing | mortgage.py:78-80 | for a positive loan and rate, the balance is strictly decreasing in the number of payments made |
| Annuity.BalancePositiveBeforeEnd | mortgage.py:77-80 | for a positive loan and rate, the balance stays positive before the last payment and is never negative |
| Annuity.PrincipalsTelescope | mortgage.py:79-80 | the first k principal portions sum to the loan less the balance after k payments |
| Annuity.InterestsTelescope | mortgage.py:78-80 | the first k interest portions sum to k payments less the principal repaid so far |
| Annuity.PrincipalsRepayLoan | mortgage.py:77-80 | with the annuity payment, the principal portions of all n payments sum to the loan |
| Annuity.TotalsMatchSchedule | mortgage.py:64-65 | total repayments are the sum of the n payments; total interest is the sum of the interest portions; principal plus interest make up the total; app.py:52-54 shows the same totals |
| Annuity.ClearedTotals | mortgage.py:64-65 | the totals agree with any schedule whose balance is cleared after n payments |
| Annuity.ZeroRateBalance | mortgage.py:78-80 | at a zero rate no interest accrues and the balance drops by the payment each month |
| Annuity.CorrectedPayment | mortgage.py:57-61 | the payment with the zero-rate case handled: loan / n at a zero rate, the annuity payment otherwise |
| Annuity.CorrectedPaymentAmortizes | mortgage.py:57-61 | the corrected payment clears the loan in n months for every non-negative rate |
| Mortgage.LoanAmount | mortgage.py:48-54 | the loan is the home value less the deposit; it is zero or negative exactly when the deposit reaches the home value |
| Mortgage.YearOf | mortgage.py:81 | the year tag of a month is ceil(month / 12): at least 1, and month lies in (12(y-1), 12y] |
| Mortgage.Schedule | mortgage.py:74-91 | the specification schedule has one row per payment |
| Mortgage.ScheduleAt | mortgage.py:77-91 | row k of the schedule is the row for month k+1 from the balance after k payments, whatever the schedule length |
| Mortgage.ScheduleBalance | mortgage.py:80-88 | row k's remaining balance is the balance after k+1 payments |
| Mortgage.ScheduleRowSplits | mortgage.py:77-91 | each row is month k+1 and pays m; interest is the opening balance times r; principal and interest make up the payment; the balance drops by the principal; the year is ceil(month/12) |
| Mortgage.LoopStep | mortgage.py:78-91 | one pass of the loop body from the running balance appends exactly the specification row and leaves the next running balance |
| Mortgage.PaymentSchedule | mortgage.py:74-91 | the loop returns the specification schedule of n rows; the first row opens at the loan, and each later row opens at the previous row's balance |
| Mortgage.ScheduleEndsAtZero | mortgage.py:57-91 | with the annuity payment, the last row's remaining balance is zero |
| Mortgage.CorrectedScheduleEndsAtZero | mortgage.py:50-91 | with the zero-rate case handled, the schedule ends at a zero balance for every non-negative annual rate the input accepts |
| Mortgage.ScheduleDecreasing | mortgage.py:78-88 | for a positive loan and rate, every principal is positive and every row's balance is below the previous one, the first below the loan |
| Mortgage.ScheduleDecreasesBetween | mortgage.py:78-88 | for a positive loan and rate, a later row always has a lower balance than an earlier one |
| Mortgage.ScheduleColumnTotals | mortgage.py:64-91 | the Principal column sums to the loan; the Payment column sums to the total repayments; the Interest column sums to the total interest |
| Mortgage.ScheduleYears | mortgage.py:81 | with n = 12·term, every row's year is in 1..term, and row k lies in months 12(y-1)+1 .. 12y of its year y |
| Mortgage.ScheduleYearsNonDecreasing | mortgage.py:81 | the year column is non-decreasing |
| Mortgage.RowsOfYear | mortgage.py:100 | the filter by year keeps only rows of that year and never more rows than the schedule has |
| Mortgage.RowsOfYearKeeps | mortgage.py:100 | every row of the year is kept by the filter |
| Mortgage.RowsOfYearFrom | mortgage.py:100 | every row the filter keeps comes from the schedule |
| Mortgage.RowsOfYearSlice | mortgage.py:100 | when a year's rows are exactly the index range lo..hi, the filter returns that slice in order |
| Mortgage.MinBalance | mortgage.py:100 | the minimum is no greater than every balance in the group and is one of them |
| Mortgage.YearlyMinBalance | mortgage.py:100 | the group-by-year map has exactly the years present in the schedule as keys |
| Mortgage.YearlyMinIsLowest | mortgage.py:100 | a year's entry is no greater than every balance of that year and is the balance of one of its rows |
| Mortgage.ScheduleYearSet | mortgage.py:81-100 | the years present in a 12·term-month schedule are exactly 1..term |
| Mortgage.YearEndIsLowest | mortgage.py:100 | for a positive loan and rate with the annuity payment, year y's minimum is the balance after month 12y |
| Mortgage.YearlyMinIsYearEnd | mortgage.py:100 | the map has keys 1..term, and each year's minimum is the balance at the year's last month |
| Mortgage.FirstYearIsFirstTwelveMonths | mortgage.py:107 | for a term of at least one year, the year-1 rows are exactly the first twelve rows, months 1 to 12 |
| App.ValidInputsDefinePayment | app.py:21-48 | on any inputs the sidebar accepts, the monthly rate is positive and the payment is defined |
| App.Clamp | app.py:69-71 | the clamped balance is never negative; it equals the balance when that is non-negative and is zero otherwise |
| App.ClampedRowBalance | app.py:67-78 | a row's remaining balance is the clamped running balance after that payment |
| App.Schedule | app.py:57-81 | the specification schedule has one row per payment |
| App.ScheduleAt | app.py:64-79 | row k of the schedule is the row for payment k+1 from the clamped balance after k payments |
| App.ScheduleBalance | app.py:67-78 | row k's remaining balance is the clamped balance after k+1 payments |
| App.ScheduleRowSplits | app.py:64-79 | each row is payment k+1 for amount m; interest is the opening balance times r; principal and interest make up the payment; the balance is opening less principal, or zero if that is negative, and never negative |
| App.LoopStep | app.py:65-79 | one pass of the loop body appends exactly the specification row and leaves the next clamped running balance |
| App.CreateAmortizationSchedule | app.py:57-81 | the loop returns the specification schedule of term·12 rows at rate rate/1200; the first row opens at the loan and each later row at the previous balance |
| App.ScheduleNonIncreasing | app.py:65-71 | where a row's interest does not exceed the payment, its balance is no higher than the previous one |
| App.ClampNeverBinds | app.py:69-71 | for a positive loan and rate with the annuity payment, the clamped running balance equals the unclamped one throughout |
| App.ClampStep | app.py:67-71 | if the balances agree before a payment and the unclamped balance after it is non-negative, they agree after it too |
| App.RowFromExactBalances | app.py:65-78 | if the clamp has not acted up to a row, that row's fields are the unclamped interest, principal and balance |
| App.ExactRowFields | app.py:65-66 | a row built from the unclamped balance carries the unclamped interest and principal |
| App.RowIsExact | app.py:65-78 | for a positive loan and rate with the annuity payment, every row's interest, principal and balance are those of the unclamped schedule |
| App.ClampedScheduleIsExact | app.py:57-81 | the whole clamped schedule equals the unclamped one field by field, and it ends at zero |
| App.PageScheduleEndsAtZero | app.py:21-84 | on any inputs the sidebar accepts, the page's schedule ends at exactly zero |
| App.MultiplesBelow | app.py:98 | the number of positive multiples of 12 below the length: 12i < length exactly when i is at most it |
| App.YearlyPoints | app.py:98-100 | the points start at 0 and end at length-1; apart from the last they are 0, 12, 24, …; 12i for i in 1..term is present exactly when it is below the length; for a non-empty schedule they are strictly increasing and within it; there are at most term+2 points, so only the last can lie beyond 12·term; a full schedule gives term+1 points |
| App.BucketCount | app.py:127 | every index i of the schedule falls into a bucket i // 12 below the count, and every bucket starts inside the schedule |
| App.YearlyBuckets | app.py:127-133 | there is one bucket per group, and bucket k is labelled payment (k+1)·12 |
| App.GroupSumIsBlock | app.py:127 | group g's sum is the sum over rows 12g up to 12g+11, cut at the schedule's end |
| App.BlocksCover | app.py:127-131 | the first k group sums add up to the column sum over the first 12k rows, cut at the end |
| App.GroupSumsAddUp | app.py:127-131 | the group sums together equal the whole column's sum |
| App.BucketsAddUp | app.py:127-133 | the bucketed interest and principal add up to the Interest and Principal column totals |
| App.PieChartMatchesSchedule | app.py:161-165 | the pie chart's interest equals the Interest column's sum, and its principal, the loan, equals the Principal column's sum |
| App.BucketsMatchTotals | app.py:127-165 | the yearly interest buckets add up to the total interest and the principal buckets to the loan |
| App.FirstYearIsFirstTwelvePayments | app.py:179 | for a term of at least a year, the first rows shown are twelve, payments 1 to 12 of the schedule |

## Left out

- The Streamlit widgets, sidebar, tabs, metrics and page layout are left out: they are display only. The input bounds of `app.py` are kept as `App.ValidInputs`.
- The chat page of `mortgage.py` is left out: it is network I/O to a foreign API.
- pandas data frames, styling, CSV export, caching and the download button are left out. A schedule is a sequence of row values.
- The charts and the division by 1000 for display are left out, and so is the currency formatting of the totals.
- Floating point is not modelled. All amounts and rates are exact reals, and `(1+r)^n` is an exact power. Rounding drift, the case the clamp in `app.py` guards against, is therefore not modelled. `App.ClampNeverBinds` shows the clamp is a no-op in exact arithmetic for a positive loan and rate with the annuity payment, which covers every input the sidebar accepts (`App.PageScheduleEndsAtZero`). A larger payment would still drive the exact balance below zero, and the clamp would then act.
- The loan amounts are integers on both pages but reals in the model (`App.ValidInputs`, `Mortgage.PaymentSchedule`). `Mortgage.LoanAmount` keeps the integer difference, and no member converts it to a real.
- The term and the payment count stay `nat`, and are converted to reals only where they multiply an amount.
- `App.CreateAmortizationSchedule` takes the payment as a parameter. In the source it reads the page's global `monthly_payment`.
- `Mortgage.PaymentSchedule` takes the already derived loan, monthly rate, payment count and payment. The page computes them in line before the loop.
- `iloc` row selection from the sampled points and the `reset_index` / `drop` column plumbing are left out. `App.YearlyPoints` models the index list itself, and `App.YearlyBuckets` pairs each bucket's label with its sums.
- Concrete numeric examples are not evaluated.
- Mortgage.YearEndIsLowest: proved only for a positive loan, a positive rate and the annuity payment. These are the conditions under which the balance strictly decreases.
- Mortgage.YearlyMinIsYearEnd: proved only for a positive loan, a positive rate and the annuity payment, for the same reason.
- App.ClampNeverBinds: proved only for a positive loan, a positive rate and the annuity payment. These cover every input the sidebar accepts (`App.PageScheduleEndsAtZero`).

## Findings

| source | as written | input that shows it | evidently intended | confidence | as-written member | corrected member |
|---|---|---|---|---|---|---|
| mortgage.py:50-61 | the annuity formula divides by (1+r)^n - 1, which is zero at a zero rate | interest_rate = 0.0, which the rate input allows (minimum 0.0) | an interest-free loan repaid in equal parts, loan / n per month | not executed | Annuity.ZeroRateDividesByZero | Annuity.CorrectedPaymentAmortizes |

# Loan amortization engine, modelled in Dafny

The loan calculator builds a month-by-month amortization schedule for a
fixed-payment loan. Given a principal, a monthly interest rate, a fixed
monthly payment and a term in years, `calculate_amortization` walks the term
year by year and month by month. Each month it does the following:

- it charges interest on the remaining balance, rounded to the cent;
- it takes the rest of the payment as the principal portion;
- on the payoff month, where that portion would exceed the balance, it clamps
  the portion to the balance and lowers the payment to match;
- it updates the running totals and appends one record;
- it returns as soon as the balance reaches zero or below.

The page then shows the payoff time as years and months.

This project models that engine and the payoff-time split, and proves what
the schedule guarantees.

- `rounding.dfy` (module `Rounding`): rounding a real number of cents to a
  whole cent, ties to the even cent, as Python's `round(x, 2)` does.
- `amortization.dfy` (module `Amortization`): the record type and the
  functional description of the schedule (`PayPeriod`, `Emit`, `Run`,
  `Schedule`). It also holds `CalculateAmortization`, the engine as the
  source writes it: nested year and month loops that update the balance and
  totals and return early. It is proved to produce exactly `Schedule`, with
  totals equal to the sums of the records and a month count equal to the
  number of records.
- `schedule_properties.dfy` (module `ScheduleProperties`): properties of every
  schedule. They cover month numbering, years, length, the per-month
  arithmetic, the clamp, a balance that is never negative, conservation of
  principal, early termination, the direction of the balance, and
  interest-free loans.
- `payoff.dfy` (module `Payoff`): the years/months split of the month count,
  and how it agrees with the last record.
- `scenarios.dfy` (module `Scenarios`): worked loans. One is an interest-free
  loan of exactly `k` payments. The other is a loan whose second month is the
  clamped payoff month.

Money is whole cents (`int`) and the monthly rate is a `real`. Only the
interest needs rounding. Everything after it is exact integer arithmetic.

What the code does, where a reader might expect otherwise:

- The code validates nothing: a non-positive principal or payment, a
  negative rate or a term under one year is walked like any other input. So
  the model has no error path and no preconditions. A term under one year
  gives an empty schedule.
- The remaining balance rises whenever the payment does not cover the
  month's interest. `BalanceDirection` proves exactly when it falls and when
  it rises.
- In exact cents the payment equals interest plus principal on every record,
  not only on the clamped one. The balance after a month is never negative,
  whatever the opening balance, because both branches of the clamp leave a
  non-negative remainder.

## Model

| member | source | states |
|---|---|---|
| `Rounding.RoundCents` | app.py:45 | the result is within half a cent of the amount, a tie goes to the even cent, and a whole-cent amount is returned unchanged |
| `Rounding.RoundCentsUnique` | app.py:45 | any whole cent within half a cent of the amount (ties resolved to even) is the rounded value, so the rounding is fully determined |
| `Rounding.RoundCentsWhole` | app.py:48 | rounding an amount that is already whole cents (payment minus rounded interest, and the stored balance and totals) leaves it unchanged |
| `Rounding.RoundCentsNonNegative` | app.py:45 | a non-negative amount never rounds to a negative number of cents; `EmitApplied` uses it so that interest on a non-negative balance at a non-negative rate is never negative |
| `Amortization.Periods` | app.py:40-41 | the walk covers `max_years * 12` months, and none when the term is under one year |
| `Amortization.YearOf` | app.py:40-65 | the `Year` column of month m: the year y whose twelve months contain m, (y - 1) * 12 < m <= y * 12 |
| `Amortization.YearOfMonth` | app.py:40-42 | month `month` of loop year `year` is overall month (year - 1) * 12 + month, and its year is `year` |
| `Amortization.PayPeriod` | app.py:44-55 | one month: interest within half a cent of balance times rate; payment is interest plus principal and never exceeds the fixed payment; the principal portion never exceeds the balance; a payment below the fixed one happens only when the whole balance is repaid; otherwise the fixed payment is paid |
| `Amortization.Emit` | app.py:57-72 | the record one month appends: the next month number and its year; payment is interest plus principal; the balance after is the balance before less the principal portion and is never negative; the interest total grows by the month's interest; principal repaid plus balance is unchanged |
| `Amortization.Run` | app.py:40-78 | the nested loops from any month, balance and totals, stopping after the first month that leaves no balance: at most the months left are emitted, at least one when any is left, and the last record still has principal repaid plus balance equal to the starting amount |
| `Amortization.RunStep` | app.py:42-76 | the loop's recurrence: a record that leaves no balance is the last one (the early return), and a record that leaves a balance, with a month still available, is followed by the next month paid on that balance and its totals |
| `Amortization.EngineMonth` | app.py:42-72 | the statements of one loop iteration (rounded interest, the clamp, the total updates) build exactly the record `Emit` describes |
| `Amortization.Schedule` | app.py:34-41 | the walk from the opening state (month 0, the whole principal owed, zero totals): at most `max_years * 12` records; the first is month 1 of year 1, its totals are its own amounts and its balance is the principal less its principal portion; at the end principal repaid plus balance left is the principal |
| `Amortization.CalculateAmortization` | app.py:33-78 | the nested loops with early return produce exactly the schedule `Schedule` describes; the returned totals are the sums of the records' interest and principal; the returned month number is the number of records |
| `ScheduleProperties.RunMonths` | app.py:40-42 | from any starting month, records are numbered consecutively, carry the year of their month, and number at most the months left (at least one if any) |
| `ScheduleProperties.MonthsContiguous` | app.py:63-64 | record month numbers are exactly 1..N |
| `ScheduleProperties.YearsOfTwelveMonths` | app.py:40-65 | record i is in year i/12 + 1 (its month's year), and two records of the same year are fewer than twelve positions apart, so a year holds at most twelve records |
| `ScheduleProperties.ScheduleLength` | app.py:40-78 | a schedule never exceeds `max_years * 12` records, has at least one when the term is at least one year, and is empty otherwise |
| `ScheduleProperties.EmitApplied` | app.py:44-72 | the record of a month is that month applied to its opening balance (the per-month facts of `MonthApplied`) |
| `ScheduleProperties.RunPeriodAt` | app.py:44-72 | every record of a walk is its month applied to the previous record's balance (the opening balance for the first) |
| `ScheduleProperties.SchedulePeriods` | app.py:44-72 | the same for every record of a whole schedule |
| `ScheduleProperties.BalanceNeverNegative` | app.py:51-60 | every remaining balance is at least zero, and every principal portion is at most the balance it is paid on |
| `ScheduleProperties.PaymentAmounts` | app.py:51-66 | every payment is interest plus principal and at most the fixed payment; every record but the last pays the fixed payment; a last record paying anything else repays exactly its opening balance and leaves zero |
| `ScheduleProperties.RunStops` | app.py:74-78 | from any state, every record but the last has a positive balance, and a last record with a positive balance means all available months were used |
| `ScheduleProperties.EarlyTermination` | app.py:74-78 | no record before the last has a zero balance; the last record either has a zero balance or is month `max_years * 12`; a schedule shorter than the term ends on a zero balance |
| `ScheduleProperties.RunTotalsAt` | app.py:57-71 | from any state, each record's running totals are the opening totals plus the sums of amounts so far, and repaid principal plus balance stays constant |
| `ScheduleProperties.Conservation` | app.py:57-71 | at every record, total principal repaid plus remaining balance is the original principal, and both running totals are the sums of the amounts so far |
| `ScheduleProperties.PrincipalRepaid` | app.py:58-78 | the sum of all principal amounts plus the final balance (the principal itself when there are no records) is the original principal |
| `ScheduleProperties.BalanceDirection` | app.py:45-60 | for a non-negative principal, a month leaves the balance no higher than it found it exactly when the payment covers the interest; when it does not, the principal portion is negative and the balance rises |
| `ScheduleProperties.NonIncreasingBalance` | app.py:45-60 | when every month's interest is covered by the payment, the first balance is at most the principal and no balance exceeds an earlier one |
| `ScheduleProperties.ZeroRate` | app.py:45-53 | at a zero rate every interest amount is zero, every record but the last repays exactly the fixed payment, and the last repays the fixed payment or the smaller balance that was left |
| `Payoff.PayoffSplit` | app.py:99-100 | years times 12 plus the leftover months is the month count, with leftover months in 0..11 |
| `Payoff.PayoffSplitUnique` | app.py:99-100 | that pair is the only one with this property |
| `Payoff.PayoffMatchesLastRecord` | app.py:99-101 | for a schedule's month count, the payoff years are between 0 and the term, and the last record's year is the payoff years, plus one when there are leftover months |
| `Scenarios.ZeroRatePaysOffInK` | app.py:40-76 | an interest-free balance of exactly k payments, with k months available, is paid off in exactly k records, with no interest and the whole balance repaid |
| `Scenarios.InterestFreeLoanOfKPayments` | app.py:33-78 | the same for a whole schedule whose term has at least k months |
| `Scenarios.TenThousandInTen` | app.py:33-78 | 10,000.00 interest-free at 1,000.00 a month over one year: ten records, no interest, the whole loan repaid and nothing left |
| `Scenarios.ClampedSecondMonth` | app.py:44-76 | for a 1,000.00 loan at 1% a month with a 1,000.00 payment, the schedule is two records, and the second is clamped to the 10.00 left with a 10.10 payment |

## Left out

- Page setup, sidebar widgets, metrics, warnings and success messages (app.py:6-30, 89-107) are user interface and are not modelled. The widget bounds are not preconditions either, because the engine itself needs none.
- The Plotly charts (app.py:110-173) are presentation through a foreign library and are not modelled.
- The pandas DataFrame, the year and first-N-months table filters, the string formatting and the CSV download (app.py:86, 176-213) are library wrappers and I/O and are not modelled.
- The percentage and ratio insights (app.py:216-233) are floating-point display arithmetic and are not modelled.
- Binary floating point is not modelled. The source holds money in Python floats, so `round` acts on the nearest double, and repeated float subtraction can leave a tiny non-zero balance. The model holds money exactly in cents. It rounds the exact product of balance and rate, half to even.
- The roundings at app.py:48 and app.py:69-71 act on amounts that are already whole cents, so the model leaves those amounts as they are. `Rounding.RoundCentsWhole` proves this changes nothing.
- Inputs are whole cents. The widgets supply whole dollars, and the monthly rate stays a real.
- No parameter-validation error is modelled, because the code raises none.
- Idempotence needs no lemma: every member is a deterministic function of its inputs.
- The 90,000 at 17% a year example is not worked through concretely, because it needs sixty months of real arithmetic. The general lemmas cover it: `EarlyTermination` says that a loan still owing at the end has used every month.
- ScheduleProperties.YearsOfTwelveMonths: states "at most twelve records a year" as an index distance between same-year records, not as the length of the year filter at app.py:186-190, which is not modelled.

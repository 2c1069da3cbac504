/** The amortization engine: a fixed-payment loan walked month by month.

    All money is in whole cents; the monthly interest rate is a real number.
    `Schedule` is the functional description of the schedule the engine
    produces, and `CalculateAmortization` is the engine itself, a nested
    year/month loop with an early return, proved to produce exactly
    `Schedule` together with the running totals and the month count. */
module Amortization {
  import opened Rounding

  /** One row of the schedule: the month, its loan year, the cash actually
      paid, how it splits into interest and principal, and snapshots of the
      remaining balance and of the running totals after the month. */
  datatype Record = Record(
    month: int,
    year: int,
    payment: int,
    interest: int,
    principal: int,
    balance: int,
    totalInterest: int,
    totalPrincipal: int)

  /** What one month does to a balance: its interest, the principal it
      repays and the cash actually paid. */
  datatype Period = Period(interest: int, principal: int, payment: int)

  /** Months in a loan year. */
  const MonthsPerYear := 12

  /** The number of months the engine walks through at most. */
  function Periods(maxYears: int): (n: nat)
    ensures maxYears >= 1 ==> n == maxYears * 12
    ensures maxYears < 1 ==> n == 0
  {
    if maxYears < 1 then 0 else maxYears * MonthsPerYear
  }

  /** The loan year (1-based) that month `m` (1-based) falls in: the year
      whose twelve months contain it. */
  function YearOf(m: int): (y: int)
    ensures m >= 1 ==> 1 <= y && (y - 1) * 12 < m <= y * 12
  {
    (m - 1) / MonthsPerYear + 1
  }

  /** Month `month` of loan year `year` is overall month
      `(year - 1) * 12 + month`, and that month's year is `year`. */
  lemma YearOfMonth(year: int, month: int)
    requires 1 <= month <= MonthsPerYear
    ensures YearOf((year - 1) * 12 + month) == year
  {
  }

  /** One month on a balance: interest is the balance times the rate rounded
      to the cent, the principal portion is what the fixed payment leaves
      after interest, clamped to the balance on the payoff month, where the
      cash paid is lowered to match. */
  function PayPeriod(balance: int, rate: real, payment: int): (p: Period)
    ensures -0.5 <= p.interest as real - balance as real * rate <= 0.5
    ensures p.payment == p.interest + p.principal
    ensures p.payment <= payment
    ensures p.principal <= balance
    ensures p.payment < payment ==> p.principal == balance
    ensures p.principal == balance || p.payment == payment
  {
    var interest := RoundCents(balance as real * rate);
    var principal := payment - interest;
    if principal > balance then
      Period(interest, balance, interest + balance)
    else
      Period(interest, principal, payment)
  }

  /** The record of month `month + 1`, paid on `balance` with the running
      totals so far: it carries the next month and its year, pays interest
      plus principal, leaves a balance that is never negative, adds its
      interest to the interest total, and moves its principal from the
      balance to the principal total. */
  function Emit(rate: real, payment: int, month: int,
                balance: int, totalInterest: int, totalPrincipal: int): (r: Record)
    ensures r.month == month + 1 && r.year == YearOf(r.month)
    ensures r.payment == r.interest + r.principal
    ensures r.balance == balance - r.principal >= 0
    ensures r.totalInterest - totalInterest == r.interest
    ensures r.totalPrincipal + r.balance == totalPrincipal + balance
  {
    var p := PayPeriod(balance, rate, payment);
    Record(month + 1, YearOf(month + 1), p.payment, p.interest, p.principal,
           balance - p.principal, totalInterest + p.interest,
           totalPrincipal + p.principal)
  }

  /** The records the engine emits for at most `left` more months, starting
      after month `month` with the given balance and running totals. The walk
      stops right after the first month that leaves a balance of zero or less.
      It emits at most `left` records, at least one when any month is left,
      and the last one still holds principal repaid plus balance constant. */
  function Run(rate: real, payment: int, left: nat, month: int,
               balance: int, totalInterest: int, totalPrincipal: int): (s: seq<Record>)
    ensures |s| <= left
    ensures left > 0 ==> s != []
    ensures s != [] ==> s[|s| - 1].totalPrincipal + s[|s| - 1].balance == totalPrincipal + balance
    decreases left
  {
    if left == 0 then []
    else
      var r := Emit(rate, payment, month, balance, totalInterest, totalPrincipal);
      if r.balance <= 0 then [r]
      else [r] + Run(rate, payment, left - 1, r.month, r.balance, r.totalInterest, r.totalPrincipal)
  }

  /** The walk's recurrence, record by record: a record that leaves no
      balance is the last one, and a record that leaves a balance, with a
      month still available, is followed by the next month paid on that
      balance with its running totals. */
  lemma {:induction false} RunStep(rate: real, payment: int, left: nat, month: int,
                                   balance: int, totalInterest: int, totalPrincipal: int, i: nat)
    requires i < |Run(rate, payment, left, month, balance, totalInterest, totalPrincipal)|
    ensures var s := Run(rate, payment, left, month, balance, totalInterest, totalPrincipal);
      && (s[i].balance <= 0 ==> |s| == i + 1)
      && (s[i].balance > 0 && i + 1 < left ==>
            i + 1 < |s| &&
            s[i + 1] == Emit(rate, payment, s[i].month, s[i].balance, s[i].totalInterest, s[i].totalPrincipal))
    decreases left
  {
    var r := Emit(rate, payment, month, balance, totalInterest, totalPrincipal);
    if r.balance > 0 {
      var s := Run(rate, payment, left, month, balance, totalInterest, totalPrincipal);
      var rest := Run(rate, payment, left - 1, r.month, r.balance, r.totalInterest, r.totalPrincipal);
      assert s == [r] + rest;
      if i > 0 {
        RunStep(rate, payment, left - 1, r.month, r.balance, r.totalInterest, r.totalPrincipal, i - 1);
        assert s[i] == rest[i - 1];
      }
    }
  }

  /** One month as the engine computes it: with `interest` the balance's
      interest rounded to the cent, and the principal portion and the cash
      paid chosen by the clamp, the record it appends is the walk's record
      of that month. */
  lemma EngineMonth(rate: real, payment: int, month: int, year: int,
                    balance: int, totalInterest: int, totalPrincipal: int,
                    interest: int, principal: int, paid: int)
    requires year == YearOf(month + 1)
    requires interest == RoundCents(balance as real * rate)
    requires if payment - interest > balance then principal == balance && paid == interest + balance
             else principal == payment - interest && paid == payment
    ensures Emit(rate, payment, month, balance, totalInterest, totalPrincipal)
         == Record(month + 1, year, paid, interest, principal, balance - principal,
                   totalInterest + interest, totalPrincipal + principal)
  {
    assert PayPeriod(balance, rate, payment) == Period(interest, principal, paid);
  }

  /** The whole schedule for a loan of `principal` cents, walked from month 0
      with the whole principal owed and nothing paid yet: its first record is
      month 1 of year 1, whose totals are that month's own amounts, and at the
      end the principal repaid plus the balance left is the principal. */
  function Schedule(principal: int, rate: real, payment: int, maxYears: int): (s: seq<Record>)
    ensures |s| <= Periods(maxYears)
    ensures s != [] ==> && s[0].month == 1 && s[0].year == 1
                        && s[0].totalInterest == s[0].interest
                        && s[0].totalPrincipal == s[0].principal
                        && s[0].balance == principal - s[0].principal
    ensures s != [] ==> s[|s| - 1].totalPrincipal + s[|s| - 1].balance == principal
  {
    Run(rate, payment, Periods(maxYears), 0, principal, 0, 0)
  }

  /** The last record of a non-empty schedule. */
  function Last(s: seq<Record>): Record
    requires s != []
  {
    s[|s| - 1]
  }

  /** Sum of the interest amounts of the records. */
  function SumInterest(s: seq<Record>): int
  {
    if s == [] then 0 else s[0].interest + SumInterest(s[1..])
  }

  /** Sum of the principal amounts of the records. */
  function SumPrincipal(s: seq<Record>): int
  {
    if s == [] then 0 else s[0].principal + SumPrincipal(s[1..])
  }

  /** Appending a record adds its amounts to the sums. */
  lemma {:induction false} SumsAppend(s: seq<Record>, r: Record)
    ensures SumInterest(s + [r]) == SumInterest(s) + r.interest
    ensures SumPrincipal(s + [r]) == SumPrincipal(s) + r.principal
  {
    if s != [] {
      assert (s + [r])[1..] == s[1..] + [r];
      SumsAppend(s[1..], r);
    }
  }

  /** The engine: walks `maxYears` loan years of twelve months each, emits one
      record per month and returns as soon as a month leaves the balance at
      zero or below. It returns the records, the interest and principal
      totals, and the number of the last month walked. */
  method CalculateAmortization(principal: int, monthlyRate: real, monthlyPayment: int, maxYears: int)
    returns (schedule: seq<Record>, totalInterestPaid: int, totalPrincipalPaid: int, monthNum: int)
    ensures schedule == Schedule(principal, monthlyRate, monthlyPayment, maxYears)
    ensures monthNum == |schedule|
    ensures totalInterestPaid == SumInterest(schedule)
    ensures totalPrincipalPaid == SumPrincipal(schedule)
  {
    ghost var whole := Schedule(principal, monthlyRate, monthlyPayment, maxYears);
    ghost var n := Periods(maxYears);
    schedule := [];
    var remainingPrincipal := principal;
    totalInterestPaid := 0;
    totalPrincipalPaid := 0;
    monthNum := 0;

    var year := 1;
    while year <= maxYears
      invariant 1 <= year && (maxYears >= 1 ==> year <= maxYears + 1)
      invariant monthNum == (year - 1) * 12 == |schedule| <= |whole|
      invariant schedule == whole[..monthNum]
      invariant monthNum < n ==>
        monthNum < |whole| &&
        whole[monthNum] == Emit(monthlyRate, monthlyPayment, monthNum,
                                remainingPrincipal, totalInterestPaid, totalPrincipalPaid)
      invariant totalInterestPaid == SumInterest(schedule)
      invariant totalPrincipalPaid == SumPrincipal(schedule)
    {
      var month := 1;
      while month <= 12
        invariant 1 <= month <= 13
        invariant monthNum == (year - 1) * 12 + month - 1 == |schedule| <= |whole|
        invariant schedule == whole[..monthNum]
        invariant monthNum < n ==>
          monthNum < |whole| &&
          whole[monthNum] == Emit(monthlyRate, monthlyPayment, monthNum,
                                  remainingPrincipal, totalInterestPaid, totalPrincipalPaid)
        invariant totalInterestPaid == SumInterest(schedule)
        invariant totalPrincipalPaid == SumPrincipal(schedule)
      {
        // the state before this month, for the proof
        ghost var monthBefore, balanceBefore, interestBefore, principalBefore :=
          monthNum, remainingPrincipal, totalInterestPaid, totalPrincipalPaid;
        monthNum := monthNum + 1;

        var interestPayment := RoundCents(remainingPrincipal as real * monthlyRate);
        var principalPayment := monthlyPayment - interestPayment;
        var actualPayment;
        if principalPayment > remainingPrincipal {
          principalPayment := remainingPrincipal;
          actualPayment := interestPayment + principalPayment;
        } else {
          actualPayment := monthlyPayment;
        }

        totalInterestPaid := totalInterestPaid + interestPayment;
        totalPrincipalPaid := totalPrincipalPaid + principalPayment;
        remainingPrincipal := remainingPrincipal - principalPayment;

        var record := Record(monthNum, year, actualPayment, interestPayment, principalPayment,
                             remainingPrincipal, totalInterestPaid,
                             totalPrincipalPaid);
        YearOfMonth(year, month);
        EngineMonth(monthlyRate, monthlyPayment, monthBefore, year, balanceBefore, interestBefore,
                    principalBefore, interestPayment, principalPayment, actualPayment);
        assert record == whole[monthBefore];
        RunStep(monthlyRate, monthlyPayment, n, 0, principal, 0, 0, monthBefore);
        assert whole[..monthNum] == whole[..monthBefore] + [record];
        SumsAppend(schedule, record);
        schedule := schedule + [record];

        if remainingPrincipal <= 0 {
          assert whole[..monthNum] == whole;
          return;
        }
        month := month + 1;
      }
      year := year + 1;
    }
    assert whole[..monthNum] == whole;
  }
}

/** What the amortization schedule guarantees.

    Each property is first proved of `Run`, the walk from an arbitrary
    month, balance and running totals, by induction on the months left; the
    statement about a whole `Schedule` follows by taking the opening state
    (month 0, the loan principal, zero totals). */
module ScheduleProperties {
  import opened Rounding
  import opened Amortization

  /** The balance a record's month starts from: the loan's opening balance
      for the first record, the previous record's balance otherwise. */
  function BalanceBefore(s: seq<Record>, opening: int, i: int): int
    requires 0 <= i < |s|
  {
    if i == 0 then opening else s[i - 1].balance
  }

  // ---------------------------------------------------------------------
  // Month numbering and length

  /** Months are numbered consecutively from the month after `month`, each
      record carries the year its month falls in, and at most `left`
      records are emitted (at least one when any month is left). */
  lemma {:induction false} RunMonths(rate: real, payment: int, left: nat, month: int,
                                     balance: int, totalInterest: int, totalPrincipal: int)
    ensures var s := Run(rate, payment, left, month, balance, totalInterest, totalPrincipal);
      && |s| <= left
      && (left > 0 ==> |s| > 0)
      && forall i :: 0 <= i < |s| ==> s[i].month == month + i + 1 && s[i].year == YearOf(month + i + 1)
    decreases left
  {
    if left > 0 {
      var r := Emit(rate, payment, month, balance, totalInterest, totalPrincipal);
      if r.balance > 0 {
        RunMonths(rate, payment, left - 1, r.month, r.balance, r.totalInterest, r.totalPrincipal);
        var s := Run(rate, payment, left, month, balance, totalInterest, totalPrincipal);
        var rest := Run(rate, payment, left - 1, r.month, r.balance, r.totalInterest, r.totalPrincipal);
        assert s == [r] + rest;
      }
    }
  }

  /** The record month numbers are exactly 1, 2, ..., N, where N (the month
      count the engine returns) is the number of records. */
  lemma MonthsContiguous(principal: int, rate: real, payment: int, maxYears: int)
    ensures var s := Schedule(principal, rate, payment, maxYears);
      forall i :: 0 <= i < |s| ==> s[i].month == i + 1
  {
    RunMonths(rate, payment, Periods(maxYears), 0, principal, 0, 0);
  }

  /** Month i + 1 falls in year i / 12 + 1, so the records of one year are
      fewer than twelve positions apart: a year holds at most twelve records. */
  lemma YearsOfTwelveMonths(principal: int, rate: real, payment: int, maxYears: int)
    ensures var s := Schedule(principal, rate, payment, maxYears);
      && (forall i :: 0 <= i < |s| ==> s[i].year == YearOf(s[i].month) == i / 12 + 1)
      && (forall i, j :: 0 <= i < |s| && 0 <= j < |s| && s[i].year == s[j].year ==> -12 < i - j < 12)
  {
    RunMonths(rate, payment, Periods(maxYears), 0, principal, 0, 0);
  }

  /** The schedule never runs past `maxYears` years of twelve months, and it
      has at least one record whenever the term is at least one year. */
  lemma ScheduleLength(principal: int, rate: real, payment: int, maxYears: int)
    ensures var s := Schedule(principal, rate, payment, maxYears);
      && |s| <= Periods(maxYears)
      && (maxYears >= 1 ==> 1 <= |s|)
      && (maxYears < 1 ==> s == [])
  {
    RunMonths(rate, payment, Periods(maxYears), 0, principal, 0, 0);
  }

  // ---------------------------------------------------------------------
  // One month at a time

  /** Record `rec` is one month applied to the balance `before` it: the
      interest is that balance times the rate, to within half a cent; the
      principal portion is at most that balance (equal to it when clamped),
      and the balance after the month is what is left, never negative; the
      cash paid is interest plus principal, never more than the fixed
      payment, and either the fixed payment or the whole remaining balance
      plus interest, in which case the loan is paid off. Interest on a
      non-negative balance at a non-negative rate is never negative. */
  ghost predicate MonthApplied(rec: Record, before: int, rate: real, payment: int)
  {
    && -0.5 <= rec.interest as real - before as real * rate <= 0.5
    && (before >= 0 && rate >= 0.0 ==> rec.interest >= 0)
    && rec.principal <= before
    && rec.balance == before - rec.principal
    && rec.balance >= 0
    && rec.payment == rec.interest + rec.principal
    && rec.payment <= payment
    && (rec.payment == payment || rec.principal == before)
    && (rec.payment < payment ==> rec.balance == 0)
  }

  /** The record of one month is that month applied to the balance it
      starts from. */
  lemma EmitApplied(rate: real, payment: int, month: int,
                    balance: int, totalInterest: int, totalPrincipal: int)
    ensures MonthApplied(Emit(rate, payment, month, balance, totalInterest, totalPrincipal),
                         balance, rate, payment)
  {
    var p := PayPeriod(balance, rate, payment);
    assert -0.5 <= p.interest as real - balance as real * rate <= 0.5;
    if balance >= 0 && rate >= 0.0 {
      RoundCentsNonNegative(balance as real * rate);
    }
  }

  /** Every record of a walk is one month applied to the balance before it. */
  lemma {:induction false} RunPeriodAt(rate: real, payment: int, left: nat, month: int,
                                       balance: int, totalInterest: int, totalPrincipal: int, i: int)
    requires 0 <= i < |Run(rate, payment, left, month, balance, totalInterest, totalPrincipal)|
    ensures var s := Run(rate, payment, left, month, balance, totalInterest, totalPrincipal);
      MonthApplied(s[i], BalanceBefore(s, balance, i), rate, payment)
    decreases left
  {
    var r := Emit(rate, payment, month, balance, totalInterest, totalPrincipal);
    var s := Run(rate, payment, left, month, balance, totalInterest, totalPrincipal);
    if i == 0 {
      EmitApplied(rate, payment, month, balance, totalInterest, totalPrincipal);
      assert s[0] == r;
    } else {
      var rest := Run(rate, payment, left - 1, r.month, r.balance, r.totalInterest, r.totalPrincipal);
      assert s == [r] + rest;
      RunPeriodAt(rate, payment, left - 1, r.month, r.balance, r.totalInterest, r.totalPrincipal, i - 1);
      assert s[i] == rest[i - 1];
      assert BalanceBefore(s, balance, i) == BalanceBefore(rest, r.balance, i - 1);
    }
  }

  /** `RunPeriodAt` for every record of a whole schedule. */
  lemma SchedulePeriods(principal: int, rate: real, payment: int, maxYears: int)
    ensures var s := Schedule(principal, rate, payment, maxYears);
      forall i :: 0 <= i < |s| ==> MonthApplied(s[i], BalanceBefore(s, principal, i), rate, payment)
  {
    var s := Schedule(principal, rate, payment, maxYears);
    forall i | 0 <= i < |s|
      ensures MonthApplied(s[i], BalanceBefore(s, principal, i), rate, payment)
    {
      RunPeriodAt(rate, payment, Periods(maxYears), 0, principal, 0, 0, i);
    }
  }

  /** The remaining balance is never negative, and each month's principal
      portion is at most the balance it is paid on. */
  lemma BalanceNeverNegative(principal: int, rate: real, payment: int, maxYears: int)
    ensures var s := Schedule(principal, rate, payment, maxYears);
      forall i :: 0 <= i < |s| ==>
        s[i].balance >= 0 && s[i].principal <= BalanceBefore(s, principal, i)
  {
    SchedulePeriods(principal, rate, payment, maxYears);
  }

  /** Every record's cash payment is its interest plus its principal; it is
      the fixed monthly payment on every record but the last, and on the
      last it is either the fixed payment or the smaller payoff amount. */
  lemma PaymentAmounts(principal: int, rate: real, payment: int, maxYears: int)
    ensures var s := Schedule(principal, rate, payment, maxYears);
      && (forall i :: 0 <= i < |s| ==>
            s[i].payment == s[i].interest + s[i].principal && s[i].payment <= payment)
      && (forall i :: 0 <= i < |s| - 1 ==> s[i].payment == payment)
      && (s != [] && Last(s).payment != payment ==>
            Last(s).principal == BalanceBefore(s, principal, |s| - 1) && Last(s).balance == 0)
  {
    SchedulePeriods(principal, rate, payment, maxYears);
    RunStops(rate, payment, Periods(maxYears), 0, principal, 0, 0);
  }

  // ---------------------------------------------------------------------
  // Early termination

  /** The walk goes on only while the balance is positive: every record but
      the last has a positive balance, and a last record with a positive
      balance means every month available was used. */
  lemma {:induction false} RunStops(rate: real, payment: int, left: nat, month: int,
                                    balance: int, totalInterest: int, totalPrincipal: int)
    ensures var s := Run(rate, payment, left, month, balance, totalInterest, totalPrincipal);
      && (forall i :: 0 <= i < |s| - 1 ==> s[i].balance > 0)
      && (s != [] && Last(s).balance > 0 ==> |s| == left)
    decreases left
  {
    if left > 0 {
      var r := Emit(rate, payment, month, balance, totalInterest, totalPrincipal);
      if r.balance > 0 {
        RunStops(rate, payment, left - 1, r.month, r.balance, r.totalInterest, r.totalPrincipal);
        var s := Run(rate, payment, left, month, balance, totalInterest, totalPrincipal);
        var rest := Run(rate, payment, left - 1, r.month, r.balance, r.totalInterest, r.totalPrincipal);
        assert s == [r] + rest;
        RunMonths(rate, payment, left - 1, r.month, r.balance, r.totalInterest, r.totalPrincipal);
        if rest != [] {
          assert Last(s) == Last(rest);
        }
      }
    }
  }

  /** The engine stops exactly at the first month that pays the loan off:
      no earlier record has a zero balance, the schedule ends early only on
      a zero balance, and a loan still owing at the end has used all
      `maxYears * 12` months. */
  lemma EarlyTermination(principal: int, rate: real, payment: int, maxYears: int)
    ensures var s := Schedule(principal, rate, payment, maxYears);
      && (forall i :: 0 <= i < |s| - 1 ==> s[i].balance > 0)
      && (s != [] ==> (Last(s).balance == 0 || |s| == Periods(maxYears)))
      && (s != [] && Last(s).balance > 0 ==> |s| == Periods(maxYears))
      && (|s| < Periods(maxYears) ==> s != [] && Last(s).balance == 0)
  {
    RunStops(rate, payment, Periods(maxYears), 0, principal, 0, 0);
    SchedulePeriods(principal, rate, payment, maxYears);
    RunMonths(rate, payment, Periods(maxYears), 0, principal, 0, 0);
  }

  // ---------------------------------------------------------------------
  // Running totals

  /** Each record's running totals are the opening totals plus the sums of
      the amounts so far, and principal repaid plus balance left is constant. */
  lemma {:induction false} RunTotalsAt(rate: real, payment: int, left: nat, month: int,
                                       balance: int, totalInterest: int, totalPrincipal: int, i: int)
    requires 0 <= i < |Run(rate, payment, left, month, balance, totalInterest, totalPrincipal)|
    ensures var s := Run(rate, payment, left, month, balance, totalInterest, totalPrincipal);
      && s[i].totalInterest == totalInterest + SumInterest(s[..i + 1])
      && s[i].totalPrincipal == totalPrincipal + SumPrincipal(s[..i + 1])
      && s[i].totalPrincipal + s[i].balance == totalPrincipal + balance
    decreases left
  {
    var r := Emit(rate, payment, month, balance, totalInterest, totalPrincipal);
    var s := Run(rate, payment, left, month, balance, totalInterest, totalPrincipal);
    if i == 0 {
      assert s[..1] == [r];
    } else {
      var rest := Run(rate, payment, left - 1, r.month, r.balance, r.totalInterest, r.totalPrincipal);
      assert s == [r] + rest;
      RunTotalsAt(rate, payment, left - 1, r.month, r.balance, r.totalInterest, r.totalPrincipal, i - 1);
      var prefix := s[..i + 1];
      assert s[i] == rest[i - 1];
      assert prefix[0] == r && prefix[1..] == rest[..i];
    }
  }

  /** Conservation: at every record the principal repaid so far plus the
      remaining balance is the original principal, and the running totals
      are the sums of the interest and principal amounts so far. */
  lemma Conservation(principal: int, rate: real, payment: int, maxYears: int)
    ensures var s := Schedule(principal, rate, payment, maxYears);
      forall i :: 0 <= i < |s| ==>
        && s[i].totalPrincipal + s[i].balance == principal
        && s[i].totalInterest == SumInterest(s[..i + 1])
        && s[i].totalPrincipal == SumPrincipal(s[..i + 1])
  {
    var s := Schedule(principal, rate, payment, maxYears);
    forall i | 0 <= i < |s|
      ensures s[i].totalPrincipal + s[i].balance == principal
      ensures s[i].totalInterest == SumInterest(s[..i + 1])
      ensures s[i].totalPrincipal == SumPrincipal(s[..i + 1])
    {
      RunTotalsAt(rate, payment, Periods(maxYears), 0, principal, 0, 0, i);
    }
  }

  /** The totals the engine returns: the principal repaid over the whole
      schedule plus the final balance is the original principal. */
  lemma PrincipalRepaid(principal: int, rate: real, payment: int, maxYears: int)
    ensures var s := Schedule(principal, rate, payment, maxYears);
      SumPrincipal(s) + (if s == [] then principal else Last(s).balance) == principal
  {
    var s := Schedule(principal, rate, payment, maxYears);
    Conservation(principal, rate, payment, maxYears);
    if s != [] {
      assert s[..|s|] == s;
    }
  }

  // ---------------------------------------------------------------------
  // Direction of the balance

  /** On a loan that starts from a non-negative balance, a month lowers (or
      keeps) the balance exactly when the payment covers its interest;
      when it does not, the principal portion is negative and the balance
      grows. */
  lemma BalanceDirection(principal: int, rate: real, payment: int, maxYears: int)
    requires principal >= 0
    ensures var s := Schedule(principal, rate, payment, maxYears);
      forall i :: 0 <= i < |s| ==>
        && (s[i].balance <= BalanceBefore(s, principal, i) <==> s[i].interest <= payment)
        && (s[i].interest > payment ==> s[i].principal < 0)
  {
    SchedulePeriods(principal, rate, payment, maxYears);
  }

  /** When the payment covers the interest of every month, the remaining
      balance never goes up from one record to a later one. */
  lemma NonIncreasingBalance(principal: int, rate: real, payment: int, maxYears: int)
    requires principal >= 0
    requires var s := Schedule(principal, rate, payment, maxYears);
      forall i :: 0 <= i < |s| ==> s[i].interest <= payment
    ensures var s := Schedule(principal, rate, payment, maxYears);
      && (s != [] ==> s[0].balance <= principal)
      && forall i, j :: 0 <= i <= j < |s| ==> s[j].balance <= s[i].balance
  {
    var s := Schedule(principal, rate, payment, maxYears);
    BalanceDirection(principal, rate, payment, maxYears);
    forall i, j | 0 <= i <= j < |s|
      ensures s[j].balance <= s[i].balance
    {
      DescendingFrom(s, principal, payment, i, j);
    }
  }

  /** Chains the month-by-month decrease from record i to record j. */
  lemma {:induction false} DescendingFrom(s: seq<Record>, principal: int, payment: int, i: int, j: int)
    requires 0 <= i <= j < |s|
    requires forall k :: 0 <= k < |s| ==> s[k].balance <= BalanceBefore(s, principal, k)
    ensures s[j].balance <= s[i].balance
    decreases j - i
  {
    if i < j {
      DescendingFrom(s, principal, payment, i, j - 1);
      assert s[j].balance <= BalanceBefore(s, principal, j);
    }
  }

  // ---------------------------------------------------------------------
  // Interest-free loans

  /** At a zero rate no interest is charged, and every record but the last
      repays exactly the fixed payment of principal; the last repays either
      that or the smaller balance that was left. */
  lemma ZeroRate(principal: int, payment: int, maxYears: int)
    ensures var s := Schedule(principal, 0.0, payment, maxYears);
      && (forall i :: 0 <= i < |s| ==> s[i].interest == 0)
      && (forall i :: 0 <= i < |s| - 1 ==> s[i].principal == payment)
      && (s != [] ==> Last(s).principal == payment ||
                      Last(s).principal == BalanceBefore(s, principal, |s| - 1) < payment)
  {
    SchedulePeriods(principal, 0.0, payment, maxYears);
    PaymentAmounts(principal, 0.0, payment, maxYears);
  }
}

/** Worked loans: an interest-free loan that divides evenly into payments,
    and a loan whose second month is the clamped payoff month. */
module Scenarios {
  import opened Rounding
  import opened Amortization

  /** An interest-free balance of exactly `k` payments, with at least `k`
      months available, is paid off in exactly `k` records: the last one
      leaves a zero balance, no interest has been charged and the whole
      balance has been repaid as principal. */
  lemma {:induction false} ZeroRatePaysOffInK(payment: int, k: nat, left: nat, month: int,
                                              totalInterest: int, totalPrincipal: int)
    requires payment > 0 && 1 <= k <= left
    ensures var s := Run(0.0, payment, left, month, k * payment, totalInterest, totalPrincipal);
      && |s| == k
      && Last(s).balance == 0
      && Last(s).totalInterest == totalInterest
      && Last(s).totalPrincipal == totalPrincipal + k * payment
    decreases k
  {
    var balance := k * payment;
    var s := Run(0.0, payment, left, month, balance, totalInterest, totalPrincipal);
    var r := Emit(0.0, payment, month, balance, totalInterest, totalPrincipal);
    assert balance as real * 0.0 == 0.0;
    assert r.interest == 0 && r.principal == payment;
    assert r.balance == (k - 1) * payment;
    if k == 1 {
      assert s == [r];
    } else {
      var rest := Run(0.0, payment, left - 1, r.month, r.balance, r.totalInterest, r.totalPrincipal);
      assert s == [r] + rest;
      ZeroRatePaysOffInK(payment, k - 1, left - 1, r.month, r.totalInterest, r.totalPrincipal);
      assert r.totalPrincipal + (k - 1) * payment == totalPrincipal + k * payment;
      assert Last(s) == Last(rest);
    }
  }

  /** An interest-free loan of exactly `k` payments, with a term long enough
      for them, is paid off in exactly `k` records with no interest and the
      whole loan repaid as principal. */
  lemma InterestFreeLoanOfKPayments(payment: int, k: nat, maxYears: int)
    requires payment > 0 && 1 <= k <= maxYears * 12
    ensures var s := Schedule(k * payment, 0.0, payment, maxYears);
      && |s| == k
      && Last(s).balance == 0
      && Last(s).totalInterest == 0
      && Last(s).totalPrincipal == k * payment
  {
    ZeroRatePaysOffInK(payment, k, Periods(maxYears), 0, 0, 0);
  }

  /** 10,000.00 interest-free, paid 1,000.00 a month over a one-year term:
      ten records, no interest, the whole loan repaid, nothing left. */
  lemma TenThousandInTen()
    ensures var s := Schedule(1_000_000, 0.0, 100_000, 1);
      && |s| == 10
      && Last(s).balance == 0
      && Last(s).totalInterest == 0
      && Last(s).totalPrincipal == 1_000_000
  {
    InterestFreeLoanOfKPayments(100_000, 10, 1);
  }

  /** A 1,000.00 loan at 1% a month, paid 1,000.00 a month: the first month
      charges 10.00 of interest and repays 990.00, leaving 10.00; the second
      month's 999.90 principal portion exceeds that balance, so it is
      clamped to 10.00 and the payment lowered to 10.10, and the loan is
      paid off after two records. */
  lemma ClampedSecondMonth()
    ensures Schedule(100_000, 0.01, 100_000, 1) ==
      [Record(1, 1, 100_000, 1_000, 99_000, 1_000, 1_000, 99_000),
       Record(2, 1, 1_010, 10, 1_000, 0, 1_010, 100_000)]
  {
    var first := Emit(0.01, 100_000, 0, 100_000, 0, 0);
    assert 100_000 as real * 0.01 == 1_000.0;
    assert first == Record(1, 1, 100_000, 1_000, 99_000, 1_000, 1_000, 99_000);
    var second := Emit(0.01, 100_000, 1, 1_000, 1_000, 99_000);
    assert 1_000 as real * 0.01 == 10.0;
    assert second == Record(2, 1, 1_010, 10, 1_000, 0, 1_010, 100_000);
    assert Run(0.01, 100_000, 11, 1, 1_000, 1_000, 99_000) == [second];
  }
}

/** The payoff time shown beside the schedule: the month count the engine
    returns, split into whole years and the months left over. */
module Payoff {
  import opened Amortization
  import opened ScheduleProperties

  /** Years and leftover months of a month count. Python's `//` and `%`
      round toward negative infinity; with the positive divisor 12 that is
      the same as Dafny's Euclidean `/` and `%`, for every count. */
  function PayoffSplit(months: int): (ym: (int, int))
    ensures ym.0 * 12 + ym.1 == months
    ensures 0 <= ym.1 < 12
  {
    (months / 12, months % 12)
  }

  /** The split is the only pair of years and months in 0..11 that adds up
      to the count, so years and months can be read back unambiguously. */
  lemma PayoffSplitUnique(months: int, years: int, rest: int)
    requires years * 12 + rest == months && 0 <= rest < 12
    ensures PayoffSplit(months) == (years, rest)
  {
  }

  /** For the month count of a schedule, the payoff years never exceed the
      loan term, and the years shown agree with the year column of the last
      record: a split with leftover months lies inside the last record's
      year, one without ends exactly on it. */
  lemma PayoffMatchesLastRecord(principal: int, rate: real, payment: int, maxYears: int)
    ensures var s := Schedule(principal, rate, payment, maxYears);
      var ym := PayoffSplit(|s|);
      && 0 <= ym.0 <= (if maxYears < 1 then 0 else maxYears)
      && (s != [] ==> Last(s).year == (if ym.1 == 0 then ym.0 else ym.0 + 1))
  {
    var s := Schedule(principal, rate, payment, maxYears);
    ScheduleLength(principal, rate, payment, maxYears);
    YearsOfTwelveMonths(principal, rate, payment, maxYears);
    var ym := PayoffSplit(|s|);
    if s != [] {
      assert Last(s).year == (|s| - 1) / 12 + 1;
    }
  }
}

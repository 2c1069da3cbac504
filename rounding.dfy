/** Rounding of money amounts to whole cents.

    Money is held as an integer number of cents. An amount computed with a
    real interest rate is a real number of cents, and rounding it "to two
    decimal places" means rounding it to the nearest whole cent. Ties go to
    the even cent, the convention of Python's built-in round. */
module Rounding {

  /** The whole cent nearest to `amount` (a real number of cents), ties to even. */
  function RoundCents(amount: real): (c: int)
    ensures -0.5 <= c as real - amount <= 0.5
    ensures c as real - amount == 0.5 || c as real - amount == -0.5 ==> c % 2 == 0
    ensures amount == amount.Floor as real ==> c == amount.Floor
  {
    var whole := amount.Floor;
    var frac := amount - whole as real;
    if frac < 0.5 then whole
    else if frac > 0.5 then whole + 1
    else if whole % 2 == 0 then whole
    else whole + 1
  }

  /** Rounding is fully determined by its contract: a cent strictly closer
      than half a cent, or a tie resolved to the even cent, is the result. */
  lemma RoundCentsUnique(amount: real, n: int)
    requires -0.5 <= n as real - amount <= 0.5
    requires n as real - amount == 0.5 || n as real - amount == -0.5 ==> n % 2 == 0
    ensures n == RoundCents(amount)
  {
  }

  /** A whole number of cents is left as it is. */
  lemma RoundCentsWhole(n: int)
    ensures RoundCents(n as real) == n
  {
  }

  /** Rounding a non-negative amount never gives a negative number of cents. */
  lemma RoundCentsNonNegative(amount: real)
    requires amount >= 0.0
    ensures RoundCents(amount) >= 0
  {
  }
}

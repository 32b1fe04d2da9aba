/// The late-fee rule of the lending ledger (`apply_late_fees`). Dates are day
/// numbers and money is in cents: every fee the rule produces is a multiple of
/// $0.25, so cents represent it exactly.
module Fees {

  /** Days at the low rate before the high rate starts. */
  const LowRateDays: nat := 6
  /** Cents per late day during the first six days ($0.25). */
  const LowRate: nat := 25
  /** Cents per late day from the seventh day on ($2.00). */
  const HighRate: nat := 200

  /** What `apply_late_fees` reports: the days late and the fee in cents. */
  datatype Assessment = Assessment(daysLate: nat, feeCents: nat)

  /** The fee for a book returned `days` days late, as the branch of the rule computes it. */
  function FeeCents(days: nat): (fee: nat)
    ensures fee == 0 <==> days == 0
    ensures fee % LowRate == 0
  {
    if days <= LowRateDays then days * LowRate
    else LowRateDays * LowRate + HighRate * (days - LowRateDays)
  }

  /** The rate charged for the `k`-th late day (k >= 1): an independent day-by-day reading of the rule. */
  function DailyRate(k: nat): nat
  {
    if k <= LowRateDays then LowRate else HighRate
  }

  /** The fee accrued by charging each of the first `days` late days its daily rate. */
  function Accrued(days: nat): nat
  {
    if days == 0 then 0 else Accrued(days - 1) + DailyRate(days)
  }

  /** The assessment for a book due on day `due` and returned on day `returned`. */
  function LateFee(due: int, returned: int): (a: Assessment)
    ensures returned <= due <==> a == Assessment(0, 0)
    ensures returned > due ==> a.daysLate == returned - due && a.feeCents > 0
    ensures returned > due ==> a.feeCents == Accrued(returned - due)
  {
    if returned > due then
      FeeIsSumOfDailyRates(returned - due);
      Assessment(returned - due, FeeCents(returned - due))
    else Assessment(0, 0)
  }

  /** The closed form of the rule is the sum of the daily rates of every late day. */
  lemma {:induction false} FeeIsSumOfDailyRates(days: nat)
    ensures FeeCents(days) == Accrued(days)
  {
    if days > 0 {
      FeeIsSumOfDailyRates(days - 1);
    }
  }

  /** Accrued fees never decrease as days go by. */
  lemma {:induction false} AccruedMonotone(d1: nat, d2: nat)
    requires d1 <= d2
    ensures Accrued(d1) <= Accrued(d2)
    decreases d2
  {
    if d1 < d2 {
      AccruedMonotone(d1, d2 - 1);
    }
  }

  /** The fee is non-decreasing in the number of days late. */
  lemma FeeMonotone(d1: nat, d2: nat)
    requires d1 <= d2
    ensures FeeCents(d1) <= FeeCents(d2)
  {
    FeeIsSumOfDailyRates(d1);
    FeeIsSumOfDailyRates(d2);
    AccruedMonotone(d1, d2);
  }

  /** For a fixed due date, returning later never costs less. */
  lemma LateFeeMonotone(due: int, r1: int, r2: int)
    requires r1 <= r2
    ensures LateFee(due, r1).feeCents <= LateFee(due, r2).feeCents
    ensures LateFee(due, r1).daysLate <= LateFee(due, r2).daysLate
  {
    if r1 > due {
      FeeMonotone(r1 - due, r2 - due);
    }
  }

  /** Each day after the sixth adds exactly $2.00, each day up to it $0.25. */
  lemma {:induction false} FeeStep(days: nat)
    ensures FeeCents(days + 1) == FeeCents(days) + DailyRate(days + 1)
  {
    FeeIsSumOfDailyRates(days);
    FeeIsSumOfDailyRates(days + 1);
  }

  /** Worked cases: on time, four days late, fifteen days late. */
  lemma FeeExamples(due: int)
    ensures LateFee(due, due) == Assessment(0, 0)
    ensures LateFee(due, due + 4) == Assessment(4, 100)
    ensures LateFee(due, due + 15) == Assessment(15, 1950)
  {
  }
}

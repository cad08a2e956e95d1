/**
 * The dynamic late fee of calculateDynamicLateFee, over exact rationals:
 * 0.5 per overdue day, times 1.5 for a bestseller, then times 0.8 for a
 * premium member. Negative overdue days are an invalid argument.
 */
module LateFee {

  datatype Result<T> = Success(value: T) | Failure(error: string)

  const NegativeDaysMessage: string := "Overdue days cannot be negative."

  const BaseDailyFee: real := 0.5
  const BestsellerMultiplier: real := 1.5
  const PremiumMultiplier: real := 0.8

  /** The fee for one overdue day under each combination of flags: the one-day rows of the fee table. */
  function DailyFee(isBestseller: bool, isPremiumMember: bool): real {
    match (isBestseller, isPremiumMember)
    case (false, false) => 0.5
    case (true, false) => 0.75
    case (false, true) => 0.4
    case (true, true) => 0.6
  }

  /** The fee grows linearly with the overdue days at the daily fee of the book and member. */
  function CalculateDynamicLateFee(overdueDays: int, isBestseller: bool, isPremiumMember: bool): (r: Result<real>)
    ensures r.Failure? <==> overdueDays < 0
    ensures r.Failure? ==> r.error == NegativeDaysMessage
    ensures r.Success? ==> r.value == overdueDays as real * DailyFee(isBestseller, isPremiumMember)
    ensures r.Success? ==> r.value >= 0.0
  {
    if overdueDays < 0 then
      Failure(NegativeDaysMessage)
    else
      var fee := overdueDays as real * BaseDailyFee;
      var fee := if isBestseller then fee * BestsellerMultiplier else fee;
      var fee := if isPremiumMember then fee * PremiumMultiplier else fee;
      Success(fee)
  }

  /** The parameterised fee table, row by row, and the rejected negative day count. */
  lemma FeeTable()
    ensures CalculateDynamicLateFee(-1, false, false) == Failure(NegativeDaysMessage)
    ensures CalculateDynamicLateFee(0, false, false) == Success(0.0)
    ensures CalculateDynamicLateFee(1, false, false) == Success(0.5)
    ensures CalculateDynamicLateFee(1, true, false) == Success(0.75)
    ensures CalculateDynamicLateFee(1, false, true) == Success(0.4)
    ensures CalculateDynamicLateFee(1, true, true) == Success(0.6)
    ensures CalculateDynamicLateFee(2, false, false) == Success(1.0)
    ensures CalculateDynamicLateFee(2, true, false) == Success(1.5)
    ensures CalculateDynamicLateFee(2, false, true) == Success(0.8)
    ensures CalculateDynamicLateFee(2, true, true) == Success(1.2)
  {
  }

  /** The fees of two overdue periods add up to the fee of their total. */
  lemma FeeAdditive(d1: nat, d2: nat, isBestseller: bool, isPremiumMember: bool)
    ensures CalculateDynamicLateFee(d1 + d2, isBestseller, isPremiumMember).value
      == CalculateDynamicLateFee(d1, isBestseller, isPremiumMember).value
       + CalculateDynamicLateFee(d2, isBestseller, isPremiumMember).value
  {
  }

  /**
   * More overdue days never cost less; the bestseller surcharge never lowers
   * the fee and the premium discount never raises it.
   */
  lemma FeeOrdering(d1: nat, d2: nat, isBestseller: bool, isPremiumMember: bool)
    requires d1 <= d2
    ensures CalculateDynamicLateFee(d1, isBestseller, isPremiumMember).value
      <= CalculateDynamicLateFee(d2, isBestseller, isPremiumMember).value
    ensures CalculateDynamicLateFee(d1, false, isPremiumMember).value
      <= CalculateDynamicLateFee(d1, true, isPremiumMember).value
    ensures CalculateDynamicLateFee(d1, isBestseller, true).value
      <= CalculateDynamicLateFee(d1, isBestseller, false).value
  {
  }
}

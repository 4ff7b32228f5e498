/** Amounts of money, counted in base units. */
module Amounts {

  const COIN: int := 100_000_000
  const CENT: int := 1_000_000
  const MAX_MONEY: int := 2_000_000_000 * COIN

  predicate MoneyRange(value: int) {
    0 <= value <= MAX_MONEY
  }
}

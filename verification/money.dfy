/**
  Fixed-point money. Every money column of the store is a decimal with two
  fractional digits and fifteen digits in all, so an amount is a whole number
  of cents whose magnitude stays below 10^15 (at most 9,999,999,999,999.99).
 */
module Money {

  /** An amount of money in cents (hundredths of the currency unit). */
  type Cents = int

  /** One more than the largest magnitude a decimal(15, 2) column can hold, in cents. */
  const MaxCents: int := 1_000_000_000_000_000

  /** True iff `x` can be stored in a decimal(15, 2) column. */
  predicate Fits(x: Cents) {
    -MaxCents < x < MaxCents
  }

  /** The smallest amount a credit request or a sale may carry: 0.01. */
  const MinAmount: Cents := 1

  /** An amount the request serializers accept: at least 0.01 and within the column's precision. */
  predicate ValidAmount(x: Cents) {
    MinAmount <= x < MaxCents
  }
}

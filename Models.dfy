/**
 * The record type shared by the parser, the writer and the queries (Go's
 * `models.Price`), with the calendar date and exact decimal it carries.
 */
module Models {

  /** A calendar date without a time of day (`time.Time` truncated to a day). */
  datatype Date = Date(year: int, month: int, day: int)

  /** The exact decimal `units / 10^scale` that a decimal price text denotes. */
  datatype Decimal = Decimal(units: int, scale: nat)

  /** One price record: Go's `models.Price`. */
  datatype Price = Price(id: int, name: string, category: string, price: Decimal, createdAt: Date)

  /** Go's zero value `models.Price{}`; `time.Time{}` is 1 January of year 1. */
  const ZeroPrice := Price(0, "", "", Decimal(0, 0), Date(1, 1, 1))

  /** Chronological order on dates: year, then month, then day. */
  predicate DateLe(a: Date, b: Date)
  {
    a.year < b.year
    || (a.year == b.year && a.month < b.month)
    || (a.year == b.year && a.month == b.month && a.day <= b.day)
  }
}

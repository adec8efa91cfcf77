/**
 * The unit table: the fixed length of every duration unit in milliseconds.
 * Months are 30 days and years 365 days, not calendar-accurate.
 */
module Times {

  const MILLISECOND: nat := 1
  const SECOND: nat := 1000 * MILLISECOND
  const MINUTE: nat := 60 * SECOND
  const HOUR: nat := 60 * MINUTE
  const DAY: nat := 24 * HOUR
  const WEEK: nat := 7 * DAY
  const MONTH: nat := 30 * DAY
  const YEAR: nat := 365 * DAY

  datatype Unit = Millisecond | Second | Minute | Hour | Day | Week | Month | Year

  /** The length of a unit in milliseconds. */
  function Length(u: Unit): (n: nat)
    ensures n >= 1 && n % MILLISECOND == 0
  {
    match u
    case Millisecond => MILLISECOND
    case Second => SECOND
    case Minute => MINUTE
    case Hour => HOUR
    case Day => DAY
    case Week => WEEK
    case Month => MONTH
    case Year => YEAR
  }

  /** The milliseconds in `quantity` of unit `u`. */
  function Scale(quantity: int, u: Unit): int {
    quantity * Length(u)
  }

  /** The identifier the formatter writes after a quantity of this unit. */
  function Symbol(u: Unit): string {
    match u
    case Millisecond => "ms"
    case Second => "s"
    case Minute => "m"
    case Hour => "h"
    case Day => "d"
    case Week => "w"
    case Month => "mo"
    case Year => "y"
  }

  /** The position of a unit in the formatter's output order: year first, millisecond last. */
  function Rank(u: Unit): nat {
    match u
    case Year => 0
    case Month => 1
    case Week => 2
    case Day => 3
    case Hour => 4
    case Minute => 5
    case Second => 6
    case Millisecond => 7
  }

  /** The units the formatter divides by, largest first; milliseconds take what is left. */
  const Descending: seq<Unit> := [Year, Month, Week, Day, Hour, Minute, Second]

  /** The unit just above `u` in the table. */
  function Above(u: Unit): (v: Unit)
    requires u != Year
    ensures Rank(v) + 1 == Rank(u)
  {
    match u
    case Millisecond => Second
    case Second => Minute
    case Minute => Hour
    case Hour => Day
    case Day => Week
    case Week => Month
    case Month => Year
  }

  /** The table's values, each derived from the one below it. */
  lemma UnitValues()
    ensures MILLISECOND == 1 && SECOND == 1000
    ensures MINUTE == 60000 && HOUR == 3600000
    ensures DAY == 86400000 && WEEK == 604800000
    ensures MONTH == 2592000000 && YEAR == 31536000000
  {
  }

  /** The lengths strictly increase from millisecond to year: a lower rank means a longer unit. */
  lemma LengthsIncrease(u: Unit, v: Unit)
    ensures Rank(u) < Rank(v) <==> Length(u) > Length(v)
  {
  }

  /** Weeks, months and years are whole numbers of days; a month is not whole weeks, a year not whole months. */
  lemma DayMultiples()
    ensures WEEK % DAY == 0 && MONTH % DAY == 0 && YEAR % DAY == 0
    ensures MONTH % WEEK != 0 && YEAR % MONTH != 0
  {
  }

  /** Descending lists every unit but the millisecond, each at the position of its rank. */
  lemma DescendingRanks(k: nat)
    requires k < |Descending|
    ensures Rank(Descending[k]) == k && Descending[k] != Millisecond
    ensures k > 0 ==> Above(Descending[k]) == Descending[k - 1]
  {
  }

  /** Every unit but the millisecond sits in Descending at the position of its rank. */
  lemma RankPosition(u: Unit)
    requires u != Millisecond
    ensures Rank(u) < |Descending| && Descending[Rank(u)] == u
  {
  }

  /** The symbols are distinct, so the unit can be read back from its symbol. */
  lemma SymbolsDistinct(u: Unit, v: Unit)
    ensures Symbol(u) == Symbol(v) <==> u == v
  {
  }
}

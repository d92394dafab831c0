/** The rows the GnuCash SQLite file supplies: accounts, splits (joined with
    their transaction) and the latest price of each commodity in the
    reporting currency. Everything here is a value: the core never changes
    a row it was given. */
module Ledger {
  import opened Wrappers

  /** A GnuCash guid (or any other opaque identifier). */
  type Id = string

  /** One row of the `accounts` table, with the columns the core reads. */
  datatype Account = Account(
    guid: Id,
    parentGuid: Option<Id>,   // NULL only for the root account
    name: string,
    accountType: string,      // "ROOT", "ASSET", "EXPENSE", ...
    placeholder: int,         // 0 or 1, as stored by GnuCash
    commodityGuid: Id)

  /** A calendar day. Time of day is not modelled. */
  datatype Date = Date(year: int, month: int, day: int)

  /** The `"%Y-%m"` bucket of a date, as a (year, month) pair. */
  datatype Month = Month(year: int, month: int)

  predicate DateLe(a: Date, b: Date) {
    a.year < b.year || (a.year == b.year && (a.month < b.month || (a.month == b.month && a.day <= b.day)))
  }

  predicate MonthLt(a: Month, b: Month) {
    a.year < b.year || (a.year == b.year && a.month < b.month)
  }

  function MonthOf(d: Date): Month {
    Month(d.year, d.month)
  }

  /** A split joined with its transaction's posting date and currency. */
  datatype Split = Split(
    postDate: Date,
    currencyGuid: Id,
    valueNum: int,
    valueDenom: int,
    accountGuid: Id)

  /** The latest price row of one commodity, quoted in the reporting currency. */
  datatype Price = Price(valueNum: int, valueDenom: int)

  /** A rational number given as numerator and denominator; undefined when
      the denominator is zero (pandas would give an infinite or NaN float). */
  function Ratio(num: int, den: int): (r: Option<real>)
    ensures r.Some? <==> den != 0
    ensures r.Some? ==> r.value * den as real == num as real
  {
    if den == 0 then None else Some(num as real / den as real)
  }

  /** The Python exceptions the core raises, one constructor per cause. */
  datatype Fault =
    | DatasetsFound(count: nat)   // RuntimeError("<count> Datasets found")
    | NotAnException              // TypeError: a plain string was raised
    | NoRootAccount               // IndexError: no ROOT row named "Root Account"
    | NotIterable                 // TypeError: the direct-children lookup gave None
    | WrongShape                  // the frame does not fit the requested axis
    | UnknownAxis                 // UnboundLocalError: an axis other than 0 or 1
}

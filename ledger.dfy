/**
 * The records of the ledger package (transaction.go, directive.go): transactions with their
 * postings, and the directives stored beside them. Amounts are integers in ten-thousandths of
 * a dollar. Dates are calendar days, the only part of a time.Time the parser fills in.
 */
module Ledger {

  /** The optional cleared indicator of a transaction or posting: none, '!' or '*'. */
  datatype Status = StatusUndefined | StatusPending | StatusClear

  /** A time.Time at midnight UTC, as time.Parse("2006/01/02", ...) returns it. */
  datatype Date = Date(year: int, month: int, day: int)

  /** The zero time.Time: January 1 of year 1. A transaction without "=date" keeps it as ClearDate. */
  const ZeroDate := Date(1, 1, 1)

  /** time.Time.Before: strictly earlier. */
  predicate Before(a: Date, b: Date)
  {
    || a.year < b.year
    || (a.year == b.year && a.month < b.month)
    || (a.year == b.year && a.month == b.month && a.day < b.day)
  }

  /** time.Time.After. */
  predicate After(a: Date, b: Date) { Before(b, a) }

  /** Before is a strict total order on dates. */
  lemma BeforeOrder(a: Date, b: Date, c: Date)
    ensures !Before(a, a)
    ensures Before(a, b) ==> !Before(b, a)
    ensures Before(a, b) && Before(b, c) ==> Before(a, c)
    ensures a == b || Before(a, b) || Before(b, a)
  {
  }

  /** Gregorian leap years, as the time package computes them. */
  predicate IsLeap(year: int)
  {
    year % 4 == 0 && (year % 100 != 0 || year % 400 == 0)
  }

  function DaysIn(month: int, year: int): int
    requires 1 <= month <= 12
  {
    if month == 2 then (if IsLeap(year) then 29 else 28)
    else if month == 4 || month == 6 || month == 9 || month == 11 then 30
    else 31
  }

  /** The range checks time.Parse applies to a month and a day. */
  predicate ValidDate(year: int, month: int, day: int)
  {
    1 <= month <= 12 && 1 <= day <= DaysIn(month, year)
  }

  /** One item line of a transaction. Value is meaningless when isNull (Go Null) is set. */
  datatype Posting = Posting(status: Status, account: string, value: int, isNull: bool, note: string)

  /** A transaction from a ledger file. Tags is the key set of the map[string]bool the parser fills. */
  datatype Transaction = Transaction(
    date: Date,
    clearDate: Date,
    status: Status,
    code: string,
    description: string,
    postings: seq<Posting>,
    comments: seq<string>,
    tags: set<string>,
    kvPairs: map<string, string>,
    line: int)

  /** A transaction as ParseLedgerRaw starts it: empty collections and the zero dates. */
  function NewTransaction(line: int): (t: Transaction)
    ensures t.postings == [] && t.comments == [] && t.tags == {} && t.kvPairs == map[]
    ensures t.line == line && t.clearDate == ZeroDate
  {
    Transaction(ZeroDate, ZeroDate, StatusUndefined, "", "", [], [], {}, map[], line)
  }

  /** A partially parsed command directive: its keyword, the rest of its first line, its indented lines. */
  datatype Directive = Directive(
    kind: string,
    argument: string,
    lines: seq<string>,
    foundBefore: int,
    location: bv64)

  /** The error values of transaction.go, file.go, write.go and tools/zipper.go. */
  datatype LedgerError =
    | BalanceError(index: int, line: int)
    | MultipleNullError(index: int, line: int)
    | ErrImproperInterleave
    | ErrMalformedAccountName(name: string, location: bv64)
    | CouldNotOrder
    | IndexOutOfRange
}

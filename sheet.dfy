/**
 * Spreadsheet cell values as the workbook reader hands them over, their
 * Python truthiness and `str()` forms, and the exceptions the front end
 * raises while reading a sheet.
 */
module Sheet {
  import opened Wrappers
  import opened Strings

  type Year = y: int | 1 <= y <= 9999 witness 1
  type Month = m: int | 1 <= m <= 12 witness 1
  type Day = d: int | 1 <= d <= 31 witness 1
  type Hour = h: int | 0 <= h < 24
  type Minute = m: int | 0 <= m < 60
  type Second = s: int | 0 <= s < 60
  type Microsecond = u: int | 0 <= u < 1000000

  /** `datetime.date`. */
  datatype Date = Date(year: Year, month: Month, day: Day)

  /** The time-of-day part of a naive `datetime.datetime`. */
  datatype Time = Time(hour: Hour, minute: Minute, second: Second, microsecond: Microsecond)

  /** A non-empty cell: a string, an integer, a date or a date with a time. */
  datatype Value =
    | Text(s: string)
    | Number(n: int)
    | DateValue(date: Date)
    | DateTimeValue(date: Date, time: Time)

  /** A cell; `None` is an empty cell. */
  type Cell = Option<Value>

  type Row = seq<Cell>

  /** Python's `bool(value)`: `None`, `""` and `0` are false. */
  predicate Truthy(c: Cell)
  {
    match c
    case None => false
    case Some(Text(s)) => s != ""
    case Some(Number(n)) => n != 0
    case Some(_) => true
  }

  /** `date.isoformat()`. */
  function IsoDate(d: Date): string
  {
    ZeroPad(d.year, 4) + "-" + ZeroPad(d.month, 2) + "-" + ZeroPad(d.day, 2)
  }

  /** `str(time)` for the time part of a `datetime`. */
  function IsoTime(t: Time): string
  {
    ZeroPad(t.hour, 2) + ":" + ZeroPad(t.minute, 2) + ":" + ZeroPad(t.second, 2)
    + (if t.microsecond != 0 then "." + ZeroPad(t.microsecond, 6) else "")
  }

  /** Python's `str(value)`. */
  function PyStr(c: Cell): string
  {
    match c
    case None => "None"
    case Some(Text(s)) => s
    case Some(Number(n)) => IntToString(n)
    case Some(DateValue(d)) => IsoDate(d)
    case Some(DateTimeValue(d, t)) => IsoDate(d) + " " + IsoTime(t)
  }

  /** The exceptions raised while turning a sheet into records. */
  datatype Error =
      /** `normalize_header` called `.strip()` on a truthy header that is not a string (a `None`, `""` or `0` header is dropped). */
    | HeaderNotText
      /** `map_columns` found no alias for these canonical fields, listed in table order. */
    | MissingColumns(fields: seq<string>)
      /** `.strip()` was called on a name or email cell that is empty or not a string. */
    | CellNotText
      /** The name or email of the data row at this sheet row number is blank. */
    | MissingNameOrEmail(row: nat)
}

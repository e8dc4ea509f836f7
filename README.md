# Receipt emailer: spreadsheet-to-record front end

`receipt_emailer.py` reads a workbook of student payments and sends each student
a PDF receipt by e-mail. This project models the part that turns the rows of the
active sheet into `StudentPayment` records, and proves what that part promises:

- **Header alias resolution** (`headers.dfy`): the alias table `REQUIRED_FIELDS`,
  `normalize_header` (trim, then lower-case) and `map_columns`. The model first
  builds the normalised-header lookup dictionary (`HeaderMap`). The method
  `MapColumns` then walks the five canonical fields in table order with the
  source's nested loops and `break`. It is proved equal to the function
  `ResolveWith`, which is `ResolveColumns` when the table is `REQUIRED_FIELDS`.
  The lemmas say when resolution succeeds, which header each field gets, and
  which fields the error names.
- **Row normalisation** (`students.dfy`): the row loop of `load_students`, run
  after the workbook has been read into a list of rows. The model covers:
  - `dict(zip(headers, row))` with last-wins on duplicate headers;
  - skipping rows that Python's `any` finds all falsy;
  - `.strip()` on the name and the email;
  - the fatal "missing name or email" error with its row number;
  - the `"Mobile Money"` default;
  - `R-%04d` receipt numbers, counted from sheet row 2;
  - appending records in sheet order.

  The method `LoadStudents` keeps the running index and the growing list, and is
  proved equal to the function `StudentsOf`.
- **Formatters** (`formatting.dfy`):
  - `format_amount` on integer amounts and on texts that are an optionally
    signed run of ASCII digits, padded with the whitespace `float` skips;
  - `format_date`;
  - the receipt number;
  - the output file name `name.replace(' ', '_') + "_Receipt.pdf"`;
  - the first name `name.split()[0]` used in the e-mail greeting.

`sheet.dfy` holds the cell model:
- a cell is `None` or a string, an integer, a date or a date-time;
- Python truthiness;
- `str()` of a cell;
- the exceptions this front end raises, as the `Error` datatype.

`strings.dfy` holds the string machinery:
- Python's `isspace`, `strip` and `lower`;
- decimal digits and zero padding;
- thousands grouping with commas, together with a parser that proves the
  grouping round-trips.

Exceptions become `Err` results. Their payload is the data the source's message
carries: the list of missing fields, or the row number.

## Model

| member | source | states |
|---|---|---|
| Headers.RequiredFieldsDistinct | receipt_emailer.py:24-30 | the alias table lists each canonical field once |
| Headers.RequiredFieldSet | receipt_emailer.py:24-30 | the canonical fields are exactly name, email, amount, date and payment_method |
| Strings.StripSpec | receipt_emailer.py:44 | `strip` removes exactly the leading and trailing whitespace: the result is a slice of the input, surrounded by whitespace only, and does not start or end with whitespace |
| Strings.StripIdempotent | receipt_emailer.py:44 | stripping twice is stripping once |
| Strings.StripEmpty | receipt_emailer.py:95-101 | a stripped string is empty exactly when the input is all whitespace |
| Strings.LowerFacts | receipt_emailer.py:44 | lower-casing is idempotent, leaves no upper-case ASCII letter and keeps whitespace where it was |
| Headers.NormalizeIdempotent | receipt_emailer.py:43-44 | `Headers.Normalize`: a normalised header normalises to itself |
| Headers.HeaderMapFails | receipt_emailer.py:48 | `Headers.HeaderMap`: building the lookup dictionary fails exactly when a truthy header is not a string (`.strip()` raises) |
| Headers.HeaderMapKeys | receipt_emailer.py:48 | `Headers.HeaderMap`: the dictionary's keys are exactly the normal forms of the non-empty string headers |
| Headers.HeaderMapValues | receipt_emailer.py:48 | `Headers.HeaderMap`: each key maps to the last raw header with that normal form |
| Headers.FirstAlias | receipt_emailer.py:51-54 | no alias is found exactly when none is a key; a found alias is a key, and every alias before it is absent |
| Headers.ResolvedKeys | receipt_emailer.py:50-54 | after the field loop, a field is mapped exactly when one of its aliases was found, and no other key is added |
| Headers.ResolvedValues | receipt_emailer.py:50-54 | a field whose alias was found maps to the raw header of the first found alias |
| Headers.MissingFieldsEmpty | receipt_emailer.py:55-56 | the missing list is empty exactly when every field is mapped |
| Headers.ResolveWith | receipt_emailer.py:47-61 | a successful resolution covers every field of the table |
| Headers.ResolveColumns | receipt_emailer.py:47-61 | a successful `map_columns` has an entry for every canonical field |
| Headers.MapColumns | receipt_emailer.py:47-61 | the loop over fields and aliases with `break` returns exactly what `ResolveWith` specifies for the table it is given, which for `REQUIRED_FIELDS` is `ResolveColumns` |
| Headers.ResolvedIffPresent | receipt_emailer.py:50-54 | a field is mapped exactly when some header normalises to one of its aliases |
| Headers.MissingIsUnmapped | receipt_emailer.py:55 | the missing list is exactly the fields with no alias among the headers, in table order |
| Headers.MapColumnsOutcome | receipt_emailer.py:47-61 | a truthy header that is not a string raises (a `None`, `""` or `0` header is dropped); otherwise the call fails exactly when some field has no alias present, naming exactly those fields in table order, and succeeds when every field has one |
| Headers.FoundAliasChosen | receipt_emailer.py:48-53 | the header a found alias maps to is non-empty and is the last spelling of the first alias, in list order, that any header has |
| Headers.MapColumnsKeys | receipt_emailer.py:47-61 | a successful result maps exactly the canonical fields |
| Headers.MapColumnsChoice | receipt_emailer.py:47-54 | each field maps to a non-empty raw header, chosen by first alias in list order and then by last header |
| Headers.ResolveColumnsSpec | receipt_emailer.py:47-61 | with the real alias table: success exactly when no truthy header is a non-string and all five fields have an alias present; the missing-column error names the unmapped fields; the keys of the result are exactly the five field names |
| Strings.SignedGroupedRoundTrip | receipt_emailer.py:69 | the `,` grouping of a whole number parses back to that number, with commas exactly every three digits from the right |
| Strings.ZeroPad | receipt_emailer.py:102 | `%04d`: at least four digits, no more than needed beyond that, and they read back as the number |
| Formatting.ParseIntegerTextOfStr | receipt_emailer.py:68 | `float` reads the decimal text of an integer as that integer |
| Formatting.SignedGroupedShowsAmount | receipt_emailer.py:69 | a grouped amount is well-grouped digits that read back as the amount and, without the commas, are exactly its decimal digits (no leading zeros), then a space and the currency, and it starts with `-` exactly for negative amounts |
| Formatting.FormatAmountSpec | receipt_emailer.py:64-71 | `Formatting.FormatAmount`: `""` for an empty cell; for an integer or integer text, the grouped decimal digits of the amount without leading zeros, a space and the currency, with no decimal part; otherwise the trimmed `"<value> <currency>"` |
| Formatting.FormatAmountTabSkipped | receipt_emailer.py:68-69 | `float` skips a tab around a text number, so `"\t+15"` shows as `15 RWF` |
| Formatting.FormatAmountSeparatorKept | receipt_emailer.py:68-71 | `float` does not skip U+001C, so `"\x1c1500"` falls back to the trimmed `"1500 RWF"` |
| Formatting.FormatAmountNumberAsText | receipt_emailer.py:68-69 | an integer cell and a cell holding its decimal text format to the same amount |
| Formatting.DisplayDateLayout | receipt_emailer.py:76 | the displayed date is the two-digit day, a space, the month name, a space and the four-digit year |
| Formatting.DisplayDateRoundTrip | receipt_emailer.py:76 | `"%d %B %Y"` parses back to the date: a two-digit day, the English month name and a four-digit year |
| Formatting.FormatDateSpec | receipt_emailer.py:74-79 | `Formatting.FormatDate`: a date or date-time shows its calendar date recoverably and drops the time; any other value shows its `str()` form (an empty cell shows `"None"`; a text is unchanged) |
| Formatting.ReceiptNumberRoundTrip | receipt_emailer.py:102 | `Formatting.ReceiptNumber`: a receipt number is `R-` and at least four digits, and gives the row number back |
| Formatting.ReceiptNumberInjective | receipt_emailer.py:102 | different rows get different receipt numbers |
| Formatting.ReplaceSpacesSpec | receipt_emailer.py:248 | `replace(' ', '_')` keeps the length and changes exactly the spaces |
| Formatting.OutputFileNameSpec | receipt_emailer.py:248 | `Formatting.OutputFileName`: the file name is the name with spaces turned to `_`, followed by `_Receipt.pdf`, and has no space in it |
| Formatting.TakeWordSpec | receipt_emailer.py:182 | the leading token is a prefix with no whitespace that ends at whitespace or at the end |
| Formatting.FirstNameSpec | receipt_emailer.py:182 | `Formatting.FirstName`: `split()[0]` fails exactly on an all-whitespace name; otherwise it is the first whitespace-delimited token, non-empty, with no whitespace |
| Formatting.FirstNameOfRecordName | receipt_emailer.py:182 | for a record's trimmed, non-empty name the first name exists and is a prefix of the name |
| Students.RowDataKeys | receipt_emailer.py:92 | `Students.RowData`: the row dictionary's keys are the headers of the zipped columns, so the zip stops at the shorter of the two |
| Students.RowDataLast | receipt_emailer.py:92 | `Students.RowData`: a header maps to the cell of its last zipped column |
| Students.FalsyRowIsBlank | receipt_emailer.py:93-94 | a row whose cells are all empty, `""` or `0` is skipped |
| Students.BlankRowDistinctHeaders | receipt_emailer.py:93-94 | with no repeated header, a row is skipped exactly when every zipped cell is falsy |
| Students.CompleteHasFields | receipt_emailer.py:95-99 | a resolved column map has the five keys the row loop looks up |
| Students.ProcessRowSpec | receipt_emailer.py:93-101 | `Students.ProcessRow`: a row is skipped exactly when blank; it fails with the `.strip()` error exactly when its name or email cell is not text; it fails with its row number exactly when both are text and one is only whitespace |
| Students.RecordSpec | receipt_emailer.py:95-112 | `Students.RecordOf`: a record holds the trimmed, non-empty name and email of its cells, the formatted amount and date, the payment method of its cell and the receipt number `R-%04d` of its row |
| Students.PaymentMethodSpec | receipt_emailer.py:99 | `Students.PaymentMethod`: the payment method is `"Mobile Money"` when the row has no cell under the header or the cell is falsy, and otherwise the cell's string form |
| Students.LoadStudents | receipt_emailer.py:82-113 | the loop with its running index and `append` returns exactly what `StudentsOf` specifies |
| Students.OutcomesSpec | receipt_emailer.py:91-102 | a data row is skipped exactly when it is blank; a record is trimmed and carries the receipt number `R-%04d` of its own sheet row |
| Students.KeptSpec | receipt_emailer.py:91-94 | the positions of the rows not skipped are listed each once, in increasing order |
| Students.CollectRecords | receipt_emailer.py:103-112 | a loop that does not fail yields one record per row not skipped, in order, each the record of its row |
| Students.CollectFails | receipt_emailer.py:100-101 | the loop fails exactly when some row fails, and then with the first failing row's error |
| Students.StudentsOfRecords | receipt_emailer.py:86-112 | `Students.StudentsOf`: an empty sheet gives no records; a header failure is passed on; otherwise there is one record per non-blank data row, and every non-blank row has one, in sheet order, each the record of its row |
| Students.StudentsOfFails | receipt_emailer.py:88-101 | `Students.StudentsOf`: past the headers the call fails exactly when some data row fails, with the first failing row's error, and then returns no records |
| Students.StudentsOfWellFormed | receipt_emailer.py:91-102 | `Students.StudentsOf`: every record has a non-empty, trimmed name and email; each receipt number is `R-%04d` of a sheet row; the rows start at 2 and strictly increase, so the numbers are unique |

## Left out

- Reading the workbook with openpyxl (receipt_emailer.py:83-85) is a foreign library. The model takes the row list `rows` as input.
- Floating point in `format_amount` is not modelled. This covers `float(value)`, round-half-even in `:,.0f`, precision loss for integers above 2^53, and `OverflowError` for huge integers. Amounts are modelled as unbounded integers that format exactly.
- Formatting.FormatAmount: a text that `float` accepts but that is not an optionally signed run of ASCII digits is treated as non-numeric. Such texts are decimals, exponents, `inf`/`nan`, underscores between digits and non-ASCII digits. The model gives the trimmed `"<value> <currency>"` for them. The source gives the float rounded to a whole number with `,` grouping, or `inf`/`nan` for the infinite and not-a-number texts (an exponent beyond the float range also gives `inf`). For a bare lower-case `inf`, `-inf` or `nan` the two outputs agree.
- Float, boolean, time-only and `timedelta` cells are not in the cell model. A cell holds `None`, a string, an integer, a `date` or a naive `datetime`.
- Strings.Lower handles ASCII letters only. Python's `str.lower` also lower-cases other scripts. The only non-ASCII character that lowers to an ASCII letter is the Kelvin sign, which lowers to `k`, and no alias contains `k`. So the difference cannot change which fields resolve, but a raw header's normal form can differ from Python's.
- Formatting.DisplayDate pads every year to four digits. The C library's `%Y` may not pad years below 1000. Formatting.DisplayDateLayout, Formatting.DisplayDateRoundTrip and Formatting.FormatDateSpec inherit this gap.
- Sheet.Date bounds the day by 1..31 without checking it against the month.
- The exceptions' message texts are not modelled. `Error` carries their data: the field list, or the row number.
- The `.strip()` quirk is modelled as written. An empty name or email cell reads as `None`, so `.strip()` raises (`CellNotText`) before the "missing name or email" check is reached. That check only sees text cells that are blank or whitespace, and cells absent from a short row (which read as `""`).
- PDF rendering, `build_email`, SMTP sending, configuration and template loading, argument parsing and directory creation are I/O and foreign-library plumbing.
- The join of the output file name with the output directory (receipt_emailer.py:248) is not modelled. Only the file name itself is.

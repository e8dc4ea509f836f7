/**
 * Row normalisation: `StudentPayment` and the row loop of `load_students`,
 * taken after the workbook has been read into a list of rows whose first
 * row holds the headers.
 */
module Students {
  import opened Wrappers
  import opened Strings
  import opened Sheet
  import opened Headers
  import opened Formatting

  /** One receipt's worth of display-ready fields. */
  datatype StudentPayment = StudentPayment(
    name: string,
    email: string,
    amount: string,
    date: string,
    paymentMethod: string,
    receiptNumber: string)

  const DEFAULT_PAYMENT_METHOD: string := "Mobile Money"

  /** The sheet row number of the first data row (the header row is row 1). */
  const FIRST_DATA_ROW: nat := 2

  function Min(a: nat, b: nat): nat
  {
    if a < b then a else b
  }

  /** `dict(zip(headers, row))`: a later column overwrites an earlier one with the same header. */
  function RowData(headers: Row, row: Row): map<Cell, Cell>
    decreases |headers|
  {
    var n := Min(|headers|, |row|);
    if n == 0 then map[] else RowData(headers[..n - 1], row[..n - 1])[headers[n - 1] := row[n - 1]]
  }

  /** The keys of the row dictionary are the headers of the zipped columns. */
  lemma {:induction false} RowDataKeys(headers: Row, row: Row)
    ensures forall key :: key in RowData(headers, row) <==>
      exists j :: 0 <= j < Min(|headers|, |row|) && headers[j] == key
    decreases |headers|
  {
    var n := Min(|headers|, |row|);
    if n > 0 {
      var hs, rs := headers[..n - 1], row[..n - 1];
      RowDataKeys(hs, rs);
      assert Min(|hs|, |rs|) == n - 1;
      forall key
        ensures key in RowData(headers, row) <==> exists j :: 0 <= j < n && headers[j] == key
      {
        if key in RowData(hs, rs) {
          var j :| 0 <= j < n - 1 && hs[j] == key;
          assert headers[j] == key;
        }
        if exists j :: 0 <= j < n && headers[j] == key {
          var j :| 0 <= j < n && headers[j] == key;
          if j < n - 1 {
            assert hs[j] == key;
          }
        }
      }
    }
  }

  /** Each key of the row dictionary maps to the cell of the last zipped column with that header. */
  lemma {:induction false} RowDataLast(headers: Row, row: Row, j: nat)
    requires j < Min(|headers|, |row|)
    requires forall j' :: j < j' < Min(|headers|, |row|) ==> headers[j'] != headers[j]
    ensures headers[j] in RowData(headers, row) && RowData(headers, row)[headers[j]] == row[j]
    decreases |headers|
  {
    var n := Min(|headers|, |row|);
    if j < n - 1 {
      var hs, rs := headers[..n - 1], row[..n - 1];
      assert Min(|hs|, |rs|) == n - 1;
      assert forall j' :: j < j' < n - 1 ==> hs[j'] == headers[j'];
      RowDataLast(hs, rs, j);
    }
  }

  /** `not any(row_data.values())`. */
  predicate Blank(rowData: map<Cell, Cell>)
  {
    forall key :: key in rowData ==> !Truthy(rowData[key])
  }

  predicate IsBlankRow(headers: Row, row: Row)
  {
    Blank(RowData(headers, row))
  }

  /** A row whose cells are all empty, `""` or `0` is skipped. */
  lemma FalsyRowIsBlank(headers: Row, row: Row)
    requires forall j :: 0 <= j < |row| ==> !Truthy(row[j])
    ensures IsBlankRow(headers, row)
  {
    RowDataKeys(headers, row);
    var rowData := RowData(headers, row);
    forall key | key in rowData
      ensures !Truthy(rowData[key])
    {
      var n := Min(|headers|, |row|);
      var j :| 0 <= j < n && headers[j] == key;
      var last := LastWith(headers, n, j);
      RowDataLast(headers, row, last);
    }
  }

  /** The last column below `n` whose header equals that of column `j`. */
  function LastWith(headers: Row, n: nat, j: nat): (last: nat)
    requires j < n <= |headers|
    ensures j <= last < n && headers[last] == headers[j]
    ensures forall j' :: last < j' < n ==> headers[j'] != headers[last]
    decreases n - j
  {
    if exists j' :: j < j' < n && headers[j'] == headers[j] then
      var j' :| j < j' < n && headers[j'] == headers[j];
      LastWith(headers, n, j')
    else j
  }

  /** With no repeated header, a row is skipped exactly when every zipped cell is empty, `""` or `0`. */
  lemma BlankRowDistinctHeaders(headers: Row, row: Row)
    requires forall j, j' :: 0 <= j < j' < |headers| ==> headers[j] != headers[j']
    ensures IsBlankRow(headers, row) <==> forall j :: 0 <= j < Min(|headers|, |row|) ==> !Truthy(row[j])
  {
    RowDataKeys(headers, row);
    var rowData := RowData(headers, row);
    var n := Min(|headers|, |row|);
    if IsBlankRow(headers, row) {
      forall j | 0 <= j < n
        ensures !Truthy(row[j])
      {
        RowDataLast(headers, row, j);
      }
    } else {
      var key :| key in rowData && Truthy(rowData[key]);
      var j :| 0 <= j < n && headers[j] == key;
      RowDataLast(headers, row, j);
    }
  }

  /** `row_data.get(header, "")`. */
  function Lookup(rowData: map<Cell, Cell>, header: string): Cell
  {
    var key := Some(Text(header));
    if key in rowData then rowData[key] else Some(Text(""))
  }

  /** `.strip()` on a cell; `None` where it raises because the cell is not a string. */
  function StripCell(c: Cell): Option<string>
  {
    if c.Some? && c.value.Text? then Some(Strip(c.value.s)) else None
  }

  /** `str(value or "Mobile Money")`. */
  function PaymentMethod(c: Cell): string
  {
    if Truthy(c) then PyStr(c) else DEFAULT_PAYMENT_METHOD
  }

  /** What the loop does with one data row. */
  datatype RowOutcome = Skipped | Failed(error: Error) | Record(student: StudentPayment)

  /** The five logical fields have a resolved header. */
  predicate HasFields(columns: map<string, string>)
  {
    "name" in columns && "email" in columns && "amount" in columns
    && "date" in columns && "payment_method" in columns
  }

  lemma CompleteHasFields(columns: map<string, string>)
    requires Complete(columns)
    ensures HasFields(columns)
  {
    assert REQUIRED_FIELDS[0].field == "name" && REQUIRED_FIELDS[1].field == "email"
      && REQUIRED_FIELDS[2].field == "amount" && REQUIRED_FIELDS[3].field == "date"
      && REQUIRED_FIELDS[4].field == "payment_method";
  }

  /** A non-blank row: trim name and email, reject either blank, format the rest. */
  function RecordOf(rowData: map<Cell, Cell>, columns: map<string, string>, currency: string, index: nat): RowOutcome
    requires HasFields(columns)
  {
    var name := StripCell(Lookup(rowData, columns["name"]));
    var email := StripCell(Lookup(rowData, columns["email"]));
    if name.None? || email.None? then Failed(CellNotText)
    else if name.value == "" || email.value == "" then Failed(MissingNameOrEmail(index))
    else
      Record(StudentPayment(
        name.value,
        email.value,
        FormatAmount(Lookup(rowData, columns["amount"]), currency),
        FormatDate(Lookup(rowData, columns["date"])),
        PaymentMethod(Lookup(rowData, columns["payment_method"])),
        ReceiptNumber(index)))
  }

  /** The body of the row loop for the row at sheet row number `index`. */
  function ProcessRow(headers: Row, columns: map<string, string>, row: Row, currency: string, index: nat): RowOutcome
    requires Complete(columns)
  {
    CompleteHasFields(columns);
    var rowData := RowData(headers, row);
    if Blank(rowData) then Skipped else RecordOf(rowData, columns, currency, index)
  }

  predicate IsText(c: Cell)
  {
    c.Some? && c.value.Text?
  }

  /** The cell a row holds under the header resolved for `field`, `""` when the row has none. */
  function FieldCell(headers: Row, columns: map<string, string>, row: Row, field: string): Cell
    requires field in columns
  {
    Lookup(RowData(headers, row), columns[field])
  }

  /**
   * A data row is skipped exactly when it is blank; `.strip()` fails exactly
   * when the name or email cell is not text; the row is rejected with its row
   * number exactly when both are text and one is only whitespace; otherwise
   * the record holds the trimmed name and email, the formatted amount and
   * date, the payment method and the receipt number of the row.
   */
  lemma ProcessRowSpec(headers: Row, columns: map<string, string>, row: Row, currency: string, index: nat)
    requires Complete(columns)
    ensures HasFields(columns)
    ensures var outcome := ProcessRow(headers, columns, row, currency, index);
      var name := FieldCell(headers, columns, row, "name");
      var email := FieldCell(headers, columns, row, "email");
      (outcome.Skipped? <==> IsBlankRow(headers, row))
      && (outcome == Failed(CellNotText) <==> !IsBlankRow(headers, row) && (!IsText(name) || !IsText(email)))
      && (outcome == Failed(MissingNameOrEmail(index)) <==>
        !IsBlankRow(headers, row) && IsText(name) && IsText(email)
        && (AllSpaces(name.value.s) || AllSpaces(email.value.s)))
      && (outcome.Failed? ==> outcome.error in {CellNotText, MissingNameOrEmail(index)})
  {
    CompleteHasFields(columns);
    var name := FieldCell(headers, columns, row, "name");
    var email := FieldCell(headers, columns, row, "email");
    if IsText(name) {
      StripEmpty(name.value.s);
    }
    if IsText(email) {
      StripEmpty(email.value.s);
    }
  }

  /**
   * A record's name and email are the trimmed, non-empty texts of their cells,
   * its amount, date and payment method come from their cells, and its receipt
   * number is `R-%04d` of the row number, which it gives back.
   */
  lemma RecordSpec(headers: Row, columns: map<string, string>, row: Row, currency: string, index: nat)
    requires Complete(columns) && ProcessRow(headers, columns, row, currency, index).Record?
    ensures HasFields(columns)
    ensures var s := ProcessRow(headers, columns, row, currency, index).student;
      var name := FieldCell(headers, columns, row, "name");
      var email := FieldCell(headers, columns, row, "email");
      IsText(name) && s.name == Strip(name.value.s) && s.name != "" && Strip(s.name) == s.name
      && IsText(email) && s.email == Strip(email.value.s) && s.email != "" && Strip(s.email) == s.email
      && s.amount == FormatAmount(FieldCell(headers, columns, row, "amount"), currency)
      && s.date == FormatDate(FieldCell(headers, columns, row, "date"))
      && s.paymentMethod == PaymentMethod(FieldCell(headers, columns, row, "payment_method"))
      && s.receiptNumber == ReceiptNumber(index) && ReceiptIndex(s.receiptNumber) == index
  {
    CompleteHasFields(columns);
    StripIdempotent(FieldCell(headers, columns, row, "name").value.s);
    StripIdempotent(FieldCell(headers, columns, row, "email").value.s);
    ReceiptNumberRoundTrip(index);
  }

  /**
   * The payment method is "Mobile Money" when the row has no cell under the
   * header or the cell is empty, `""` or `0`, and the cell's text otherwise.
   */
  lemma PaymentMethodSpec(rowData: map<Cell, Cell>, header: string)
    ensures var key := Some(Text(header));
      (key !in rowData || !Truthy(rowData[key]) ==> PaymentMethod(Lookup(rowData, header)) == DEFAULT_PAYMENT_METHOD)
      && (forall t :: key in rowData && rowData[key] == Some(Text(t)) && t != "" ==> PaymentMethod(Lookup(rowData, header)) == t)
      && (key in rowData && Truthy(rowData[key]) ==> PaymentMethod(Lookup(rowData, header)) == PyStr(rowData[key]))
  {
  }

  /** `[s] + rest` on success; an error passes through. */
  function Prepend(done: seq<StudentPayment>, rest: Result<seq<StudentPayment>, Error>): Result<seq<StudentPayment>, Error>
  {
    match rest
    case Ok(students) => Ok(done + students)
    case Err(e) => Err(e)
  }

  lemma PrependNothing(rest: Result<seq<StudentPayment>, Error>)
    ensures Prepend([], rest) == rest
  {
    if rest.Ok? {
      assert [] + rest.value == rest.value;
    }
  }

  lemma PrependPrepend(done: seq<StudentPayment>, s: StudentPayment, rest: Result<seq<StudentPayment>, Error>)
    ensures Prepend(done, Prepend([s], rest)) == Prepend(done + [s], rest)
  {
    if rest.Ok? {
      assert done + ([s] + rest.value) == done + [s] + rest.value;
    }
  }

  /** What each data row normalises to; data row `p` is sheet row `p + 2`. */
  function Outcomes(headers: Row, columns: map<string, string>, data: seq<Row>, currency: string): (r: seq<RowOutcome>)
    requires Complete(columns)
    ensures |r| == |data|
    ensures forall p :: 0 <= p < |data| ==> r[p] == ProcessRow(headers, columns, data[p], currency, p + FIRST_DATA_ROW)
  {
    seq(|data|, p requires 0 <= p < |data| => ProcessRow(headers, columns, data[p], currency, p + FIRST_DATA_ROW))
  }

  /** The row loop from outcome `i` on: skip, stop at the first failure, or collect the record. */
  function Collect(outcomes: seq<RowOutcome>, i: nat): Result<seq<StudentPayment>, Error>
    requires i <= |outcomes|
    decreases |outcomes| - i
  {
    if i == |outcomes| then Ok([])
    else
      match outcomes[i]
      case Skipped => Collect(outcomes, i + 1)
      case Failed(e) => Err(e)
      case Record(s) => Prepend([s], Collect(outcomes, i + 1))
  }

  /** `load_students` on the rows of the active sheet. */
  function StudentsOf(rows: seq<Row>, currency: string): Result<seq<StudentPayment>, Error>
  {
    if rows == [] then Ok([])
    else
      match ResolveColumns(rows[0])
      case Err(e) => Err(e)
      case Ok(columns) => Collect(Outcomes(rows[0], columns, rows[1..], currency), 0)
  }

  /** `load_students` after the workbook has been read: resolve the headers, then normalise row by row. */
  method LoadStudents(rows: seq<Row>, currency: string) returns (r: Result<seq<StudentPayment>, Error>)
    ensures r == StudentsOf(rows, currency)
  {
    if rows == [] {
      return Ok([]);
    }
    var headers := rows[0];
    var resolved := MapColumns(REQUIRED_FIELDS, headers);
    if resolved.Err? {
      return Err(resolved.error);
    }
    var columns := resolved.value;
    var data := rows[1..];
    ghost var outcomes := Outcomes(headers, columns, data, currency);
    var students: seq<StudentPayment> := [];
    PrependNothing(Collect(outcomes, 0));
    var index := FIRST_DATA_ROW;
    for i := 0 to |data|
      invariant index == i + FIRST_DATA_ROW
      invariant Collect(outcomes, 0) == Prepend(students, Collect(outcomes, i))
    {
      var outcome := ProcessRow(headers, columns, data[i], currency, index);
      assert outcome == outcomes[i];
      match outcome {
        case Skipped =>
        case Failed(e) =>
          return Err(e);
        case Record(s) =>
          PrependPrepend(students, s, Collect(outcomes, i + 1));
          students := students + [s];
      }
      index := index + 1;
    }
    assert students + [] == students;
    return Ok(students);
  }

  /** The positions, from `i` on, of the rows that are not skipped. */
  function Kept(outcomes: seq<RowOutcome>, i: nat): seq<nat>
    requires i <= |outcomes|
    decreases |outcomes| - i
  {
    if i == |outcomes| then []
    else (if outcomes[i].Skipped? then [] else [i]) + Kept(outcomes, i + 1)
  }

  /** `Kept` lists every row position from `i` on that is not skipped, each once, in increasing order. */
  lemma {:induction false} KeptSpec(outcomes: seq<RowOutcome>, i: nat)
    requires i <= |outcomes|
    ensures forall p :: p in Kept(outcomes, i) <==> i <= p < |outcomes| && !outcomes[p].Skipped?
    ensures forall k, l :: 0 <= k < l < |Kept(outcomes, i)| ==> Kept(outcomes, i)[k] < Kept(outcomes, i)[l]
    decreases |outcomes| - i
  {
    if i < |outcomes| {
      KeptSpec(outcomes, i + 1);
      var kept, rest := Kept(outcomes, i), Kept(outcomes, i + 1);
      forall k | 0 <= k < |rest|
        ensures i < rest[k]
      {
        assert rest[k] in rest;
      }
      if !outcomes[i].Skipped? {
        assert kept == [i] + rest;
        forall k, l | 0 <= k < l < |kept|
          ensures kept[k] < kept[l]
        {
          assert kept[l] == rest[l - 1];
          if k > 0 {
            assert kept[k] == rest[k - 1];
          }
        }
      }
    }
  }

  /**
   * A successful loop yields one record per row that is not skipped, in
   * order: the `k`-th record is the `k`-th kept row's.
   */
  lemma {:induction false} CollectRecords(outcomes: seq<RowOutcome>, i: nat)
    requires i <= |outcomes| && Collect(outcomes, i).Ok?
    ensures var students := Collect(outcomes, i).value;
      var kept := Kept(outcomes, i);
      |students| == |kept| && forall k :: 0 <= k < |kept| ==>
        kept[k] < |outcomes| && outcomes[kept[k]] == Record(students[k])
    decreases |outcomes| - i
  {
    if i < |outcomes| {
      CollectRecords(outcomes, i + 1);
      KeptSpec(outcomes, i + 1);
      var students, kept := Collect(outcomes, i).value, Kept(outcomes, i);
      var rest, restKept := Collect(outcomes, i + 1).value, Kept(outcomes, i + 1);
      if outcomes[i].Record? {
        assert students == [outcomes[i].student] + rest;
        assert kept == [i] + restKept;
        forall k | 0 <= k < |kept|
          ensures kept[k] < |outcomes| && outcomes[kept[k]] == Record(students[k])
        {
          if k > 0 {
            assert kept[k] == restKept[k - 1] && students[k] == rest[k - 1];
          }
        }
      } else {
        assert outcomes[i].Skipped?;
      }
    }
  }

  /** The first failing position, from `i` on, is `p`, with error `e`. */
  predicate FirstFailureAt(outcomes: seq<RowOutcome>, i: nat, p: nat, e: Error)
  {
    i <= p < |outcomes| && outcomes[p] == Failed(e)
    && forall q :: i <= q < p ==> !outcomes[q].Failed?
  }

  /**
   * The loop fails exactly when some row fails, and then with the error of
   * the first failing row, returning no records.
   */
  lemma {:induction false} CollectFails(outcomes: seq<RowOutcome>, i: nat)
    requires i <= |outcomes|
    ensures Collect(outcomes, i).Err? <==> exists p :: i <= p < |outcomes| && outcomes[p].Failed?
    ensures Collect(outcomes, i).Err? ==> exists p :: FirstFailureAt(outcomes, i, p, Collect(outcomes, i).error)
    decreases |outcomes| - i
  {
    if i < |outcomes| {
      CollectFails(outcomes, i + 1);
      if outcomes[i].Failed? {
        assert FirstFailureAt(outcomes, i, i, outcomes[i].error);
      } else if Collect(outcomes, i + 1).Err? {
        var e := Collect(outcomes, i + 1).error;
        var p :| FirstFailureAt(outcomes, i + 1, p, e);
        assert FirstFailureAt(outcomes, i, p, e);
      }
    }
  }

  /** A record's name and email are non-empty and already trimmed. */
  predicate Trimmed(s: StudentPayment)
  {
    s.name != "" && Strip(s.name) == s.name && s.email != "" && Strip(s.email) == s.email
  }

  /**
   * A data row's outcome is a skip exactly when the row is blank, and a record
   * is trimmed and carries `R-%04d` of the row's sheet row number.
   */
  lemma OutcomesSpec(headers: Row, columns: map<string, string>, data: seq<Row>, currency: string)
    requires Complete(columns)
    ensures |Outcomes(headers, columns, data, currency)| == |data|
    ensures forall p :: 0 <= p < |data| ==>
      (Outcomes(headers, columns, data, currency)[p].Skipped? <==> IsBlankRow(headers, data[p]))
    ensures forall p :: 0 <= p < |data| && Outcomes(headers, columns, data, currency)[p].Record? ==>
      Trimmed(Outcomes(headers, columns, data, currency)[p].student)
      && Outcomes(headers, columns, data, currency)[p].student.receiptNumber == ReceiptNumber(p + FIRST_DATA_ROW)
      && ReceiptIndex(Outcomes(headers, columns, data, currency)[p].student.receiptNumber) == p + FIRST_DATA_ROW
  {
    var outcomes := Outcomes(headers, columns, data, currency);
    forall p | 0 <= p < |data|
      ensures outcomes[p].Skipped? <==> IsBlankRow(headers, data[p])
      ensures outcomes[p].Record? ==>
        Trimmed(outcomes[p].student) && outcomes[p].student.receiptNumber == ReceiptNumber(p + FIRST_DATA_ROW)
        && ReceiptIndex(outcomes[p].student.receiptNumber) == p + FIRST_DATA_ROW
    {
      ProcessRowSpec(headers, columns, data[p], currency, p + FIRST_DATA_ROW);
      if outcomes[p].Record? {
        RecordSpec(headers, columns, data[p], currency, p + FIRST_DATA_ROW);
      }
    }
  }

  /**
   * `load_students` on an empty sheet returns no records; otherwise it fails
   * when the headers do not resolve and, past them, returns one record per
   * non-blank data row in sheet order (`positions`, increasing, holding every
   * non-blank row), each the outcome of its row.
   */
  lemma StudentsOfRecords(rows: seq<Row>, currency: string)
    ensures rows == [] ==> StudentsOf(rows, currency) == Ok([])
    ensures rows != [] && ResolveColumns(rows[0]).Err? ==> StudentsOf(rows, currency) == Err(ResolveColumns(rows[0]).error)
    ensures rows != [] && StudentsOf(rows, currency).Ok? ==>
      ResolveColumns(rows[0]).Ok? &&
      var outcomes := Outcomes(rows[0], ResolveColumns(rows[0]).value, rows[1..], currency);
      var students := StudentsOf(rows, currency).value;
      var positions := Kept(outcomes, 0);
      |students| == |positions|
      && (forall p :: p in positions <==> 0 <= p < |rows[1..]| && !IsBlankRow(rows[0], rows[1..][p]))
      && (forall k, l :: 0 <= k < l < |positions| ==> positions[k] < positions[l])
      && forall k :: 0 <= k < |positions| ==> positions[k] < |outcomes| && outcomes[positions[k]] == Record(students[k])
  {
    if rows != [] && StudentsOf(rows, currency).Ok? {
      var columns := ResolveColumns(rows[0]).value;
      var outcomes := Outcomes(rows[0], columns, rows[1..], currency);
      CollectRecords(outcomes, 0);
      KeptSpec(outcomes, 0);
      OutcomesSpec(rows[0], columns, rows[1..], currency);
    }
  }

  /**
   * Past the headers, `load_students` fails exactly when some data row fails,
   * with the error of the first failing row, e.g. the missing name or email
   * with that row's sheet row number.
   */
  lemma StudentsOfFails(rows: seq<Row>, currency: string)
    requires rows != [] && ResolveColumns(rows[0]).Ok?
    ensures var outcomes := Outcomes(rows[0], ResolveColumns(rows[0]).value, rows[1..], currency);
      (StudentsOf(rows, currency).Err? <==> exists p :: 0 <= p < |outcomes| && outcomes[p].Failed?)
      && (StudentsOf(rows, currency).Err? ==> exists p :: FirstFailureAt(outcomes, 0, p, StudentsOf(rows, currency).error))
  {
    CollectFails(Outcomes(rows[0], ResolveColumns(rows[0]).value, rows[1..], currency), 0);
  }

  /**
   * Every record `load_students` returns has a non-empty, trimmed name and
   * email and a receipt number `R-%04d` of a sheet row; the rows start at 2
   * and strictly increase, so no two records share one.
   */
  lemma StudentsOfWellFormed(rows: seq<Row>, currency: string)
    requires StudentsOf(rows, currency).Ok?
    ensures var students := StudentsOf(rows, currency).value;
      (forall k :: 0 <= k < |students| ==>
        Trimmed(students[k]) && ReceiptIndex(students[k].receiptNumber) >= FIRST_DATA_ROW
        && students[k].receiptNumber == ReceiptNumber(ReceiptIndex(students[k].receiptNumber)))
      && (forall k, l :: 0 <= k < l < |students| ==>
        ReceiptIndex(students[k].receiptNumber) < ReceiptIndex(students[l].receiptNumber))
  {
    if rows != [] {
      var columns := ResolveColumns(rows[0]).value;
      var students := StudentsOf(rows, currency).value;
      var outcomes := Outcomes(rows[0], columns, rows[1..], currency);
      var positions := Kept(outcomes, 0);
      CollectRecords(outcomes, 0);
      KeptSpec(outcomes, 0);
      OutcomesSpec(rows[0], columns, rows[1..], currency);
      forall k | 0 <= k < |students|
        ensures Trimmed(students[k]) && ReceiptIndex(students[k].receiptNumber) == positions[k] + FIRST_DATA_ROW
        ensures students[k].receiptNumber == ReceiptNumber(positions[k] + FIRST_DATA_ROW)
      {
        assert outcomes[positions[k]] == Record(students[k]);
      }
    }
  }
}

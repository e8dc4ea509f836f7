/**
 * The display formatters: `format_amount` (integer amounts), `format_date`,
 * the receipt number `R-%04d`, the output file name and the first name used
 * in the e-mail greeting.
 */
module Formatting {
  import opened Wrappers
  import opened Strings
  import opened Sheet

  function Abs(n: int): nat
  {
    if n < 0 then -n else n
  }

  /** `f"{float(n):,.0f}"` for an integer `n`. */
  function FormatInt(n: int): string
  {
    SignedGrouped(n < 0, Abs(n))
  }

  /**
   * The whitespace `float` skips around a number. CPython first turns every
   * non-ASCII whitespace character into a space and then trims only space and
   * `\t\n\v\f\r`, so the ASCII separators U+001C..U+001F, which
   * `str.isspace` accepts, are not skipped.
   */
  predicate IsFloatSpace(c: char)
  {
    IsSpace(c) && !('\U{1c}' <= c <= '\U{1f}')
  }

  function FloatTrimLeft(s: string): string
    decreases |s|
  {
    if s != [] && IsFloatSpace(s[0]) then FloatTrimLeft(s[1..]) else s
  }

  function FloatTrimRight(s: string): string
    decreases |s|
  {
    if s != [] && IsFloatSpace(s[|s| - 1]) then FloatTrimRight(s[..|s| - 1]) else s
  }

  /** The text `float` parses: `s` without the leading and trailing whitespace it skips. */
  function FloatStrip(s: string): string
  {
    FloatTrimRight(FloatTrimLeft(s))
  }

  /** A text whose ends are not whitespace to `float` is parsed as it is. */
  lemma FloatStripUnpadded(s: string)
    requires s != [] ==> !IsFloatSpace(s[0]) && !IsFloatSpace(s[|s| - 1])
    ensures FloatStrip(s) == s
  {
    assert FloatTrimLeft(s) == s;
  }

  /**
   * `float(s)` on the texts made of an optionally signed run of ASCII digits,
   * padded with the whitespace `float` skips. Gives the sign and the
   * magnitude, so that `"-0"` keeps its sign as the float `-0.0` does.
   */
  function ParseIntegerText(s: string): Option<(bool, nat)>
  {
    var t := FloatStrip(s);
    var signed := t != [] && (t[0] == '-' || t[0] == '+');
    var digits := if signed then t[1..] else t;
    if digits != [] && IsDigits(digits) then Some((signed && t[0] == '-', DigitsValue(digits)))
    else None
  }

  /** `str(n)` is read back by `float` as `n`. */
  lemma ParseIntegerTextOfStr(n: int)
    ensures ParseIntegerText(IntToString(n)) == Some((n < 0, Abs(n)))
  {
    var d := DecimalDigits(Abs(n));
    DecimalDigitsValue(Abs(n));
    var s := IntToString(n);
    assert !IsFloatSpace(d[0]) && !IsFloatSpace(d[|d| - 1]);
    if n < 0 {
      assert s == "-" + d && s[1..] == d;
      FloatStripUnpadded(s);
    } else {
      assert s == d;
      FloatStripUnpadded(s);
    }
  }

  /**
   * `format_amount(value, currency)`: `""` for an empty cell, the grouped
   * whole number and the currency for a number, otherwise the trimmed
   * `"<value> <currency>"`.
   */
  function FormatAmount(value: Cell, currency: string): string
  {
    match value
    case None => ""
    case Some(Number(n)) => FormatInt(n) + " " + currency
    case Some(Text(s)) =>
      (match ParseIntegerText(s)
       case Some((negative, magnitude)) => SignedGrouped(negative, magnitude) + " " + currency
       case None => Strip(s + " " + currency))
    case Some(_) => Strip(PyStr(value) + " " + currency)
  }

  /**
   * `r` is a whole number `n` grouped in threes by commas, optionally
   * preceded by a minus sign, then a space and the currency; without the
   * commas the digits are exactly the decimal digits of `n`, so there are no
   * leading zeros.
   */
  ghost predicate ShowsAmount(r: string, currency: string, n: int)
  {
    exists g :: r == g + " " + currency && g != [] && ParseGrouped(g) == n
      && WellGrouped(if g[0] == '-' then g[1..] else g)
      && RemoveCommas(if g[0] == '-' then g[1..] else g) == DecimalDigits(Abs(n))
  }

  lemma SignedGroupedShowsAmount(negative: bool, magnitude: nat, currency: string)
    ensures ShowsAmount(SignedGrouped(negative, magnitude) + " " + currency, currency,
      if negative then -(magnitude as int) else magnitude as int)
    ensures SignedGrouped(negative, magnitude)[0] == '-' <==> negative
  {
    var g := SignedGrouped(negative, magnitude);
    var n := if negative then -(magnitude as int) else magnitude as int;
    var d := DecimalDigits(magnitude);
    SignedGroupedRoundTrip(negative, magnitude);
    GroupThousandsRoundTrip(d);
    assert GroupThousands(d)[0] == d[0] && IsDigit(d[0]);
    var body := if g[0] == '-' then g[1..] else g;
    if negative {
      assert g[1..] == GroupThousands(d);
    } else {
      assert g == GroupThousands(d);
    }
    assert body == GroupThousands(d) && Abs(n) == magnitude;
    assert g != [] && ParseGrouped(g) == n && WellGrouped(body) && RemoveCommas(body) == DecimalDigits(Abs(n));
  }

  /**
   * `format_amount` gives `""` for an empty cell; for an integer, and for a
   * text that is an optionally signed run of ASCII digits, padded with the
   * whitespace `float` skips, the digits grouped in threes
   * by commas, a space and the currency, with no decimal part; for any other
   * value the trimmed `"<value> <currency>"`.
   */
  lemma FormatAmountSpec(value: Cell, currency: string)
    ensures value.None? ==> FormatAmount(value, currency) == ""
    ensures value.Some? && value.value.Number? ==>
      ShowsAmount(FormatAmount(value, currency), currency, value.value.n)
      && (FormatAmount(value, currency)[0] == '-' <==> value.value.n < 0)
    ensures value.Some? && value.value.Text? && ParseIntegerText(value.value.s).Some? ==>
      var (negative, magnitude) := ParseIntegerText(value.value.s).value;
      ShowsAmount(FormatAmount(value, currency), currency, if negative then -(magnitude as int) else magnitude as int)
      && (FormatAmount(value, currency)[0] == '-' <==> negative)
    ensures value.Some? && value.value.Text? && ParseIntegerText(value.value.s).None? ==>
      FormatAmount(value, currency) == Strip(value.value.s + " " + currency)
    ensures value.Some? && (value.value.DateValue? || value.value.DateTimeValue?) ==>
      FormatAmount(value, currency) == Strip(PyStr(value) + " " + currency)
  {
    match value {
      case Some(Number(n)) =>
        SignedGroupedShowsAmount(n < 0, Abs(n), currency);
      case Some(Text(s)) =>
        if ParseIntegerText(s).Some? {
          var (negative, magnitude) := ParseIntegerText(s).value;
          SignedGroupedShowsAmount(negative, magnitude, currency);
        }
      case _ =>
    }
  }

  lemma FormatAmountOfIntegerText(s: string, currency: string, negative: bool, magnitude: nat)
    requires ParseIntegerText(s) == Some((negative, magnitude))
    ensures FormatAmount(Some(Text(s)), currency) == SignedGrouped(negative, magnitude) + " " + currency
  {
  }

  lemma ParseTabbedSignedText()
    ensures ParseIntegerText("\t+15") == Some((false, 15))
  {
    assert FloatStrip("\t+15") == "+15" by {
      assert FloatTrimLeft("\t+15") == FloatTrimLeft("+15") == "+15";
    }
    assert "+15"[1..] == "15" && IsDigits("15");
    assert DigitsValue("15") == 15 by {
      assert "15"[..1] == "1";
    }
  }

  /**
   * `float` skips a tab around a signed number, so `"\t+15"` is formatted as
   * the number 15, without the sign the text fallback would keep.
   */
  lemma FormatAmountTabSkipped()
    ensures FormatAmount(Some(Text("\t+15")), "RWF") == "15 RWF"
  {
    ParseTabbedSignedText();
    FormatAmountOfIntegerText("\t+15", "RWF", false, 15);
    assert SignedGrouped(false, 15) == "15" by {
      assert DecimalDigits(15) == "15";
    }
  }

  /**
   * `float` does not skip U+001C, which `str.isspace` accepts, so
   * `"\U{1c}1500"` falls back to the trimmed text and currency.
   */
  lemma FormatAmountSeparatorKept()
    ensures FormatAmount(Some(Text("\U{1c}1500")), "RWF") == "1500 RWF"
  {
    assert ParseIntegerText("\U{1c}1500") == None by {
      assert FloatStrip("\U{1c}1500") == "\U{1c}1500";
      assert !IsDigit("\U{1c}1500"[0]);
    }
    assert "\U{1c}1500" + " " + "RWF" == "\U{1c}1500 RWF";
    assert Strip("\U{1c}1500 RWF") == "1500 RWF" by {
      assert TrimLeft("\U{1c}1500 RWF") == "1500 RWF";
    }
  }

  /** A number written as text is formatted exactly like the number. */
  lemma FormatAmountNumberAsText(n: int, currency: string)
    ensures FormatAmount(Some(Text(IntToString(n))), currency) == FormatAmount(Some(Number(n)), currency)
  {
    ParseIntegerTextOfStr(n);
  }

  /** Full English month names, as `%B` prints them. */
  const MONTH_NAMES: seq<string> := [
    "January", "February", "March", "April", "May", "June",
    "July", "August", "September", "October", "November", "December"
  ]

  function MonthName(m: Month): string
  {
    MONTH_NAMES[m - 1]
  }

  /** The month whose full name is `name`, searching from month `i + 1`. */
  function MonthFrom(name: string, i: nat): Option<Month>
    requires i <= 12
    decreases 12 - i
  {
    if i == 12 then None else if MONTH_NAMES[i] == name then Some(i + 1) else MonthFrom(name, i + 1)
  }

  function MonthNumber(name: string): Option<Month>
  {
    MonthFrom(name, 0)
  }

  lemma MonthNamesDistinct()
    ensures forall i, j :: 0 <= i < j < 12 ==> MONTH_NAMES[i] != MONTH_NAMES[j]
  {
  }

  lemma MonthNameLength(m: Month)
    ensures |MonthName(m)| >= 3
  {
  }

  lemma {:induction false} MonthFromFinds(m: Month, i: nat)
    requires i < m
    ensures MonthFrom(MonthName(m), i) == Some(m)
    decreases 12 - i
  {
    MonthNamesDistinct();
    if i + 1 < m {
      MonthFromFinds(m, i + 1);
    }
  }

  /** `strftime("%d %B %Y")`: two-digit day, full month name, four-digit year. */
  function DisplayDate(d: Date): string
  {
    ZeroPad(d.day, 2) + " " + MonthName(d.month) + " " + ZeroPad(d.year, 4)
  }

  /** Reads a `"DD Month YYYY"` string back into a date. */
  function ParseDisplayDate(s: string): Option<Date>
  {
    if |s| < 11 || s[2] != ' ' || s[|s| - 5] != ' ' || !IsDigits(s[..2]) || !IsDigits(s[|s| - 4..]) then None
    else
      var day := DigitsValue(s[..2]);
      var year := DigitsValue(s[|s| - 4..]);
      match MonthNumber(s[3..|s| - 5])
      case None => None
      case Some(month) => if 1 <= day <= 31 && 1 <= year <= 9999 then Some(Date(year, month, day)) else None
  }

  /** Where the day, the month name and the year stand in the displayed date. */
  lemma DisplayDateLayout(d: Date)
    ensures var s := DisplayDate(d);
      |s| >= 11 && s[2] == ' ' && s[|s| - 5] == ' '
      && s[..2] == ZeroPad(d.day, 2) && s[|s| - 4..] == ZeroPad(d.year, 4) && s[3..|s| - 5] == MonthName(d.month)
  {
    DecimalDigitsLength(d.day, 2);
    DecimalDigitsLength(d.year, 4);
    MonthNameLength(d.month);
    var dd, mn, yyyy := ZeroPad(d.day, 2), MonthName(d.month), ZeroPad(d.year, 4);
    var s := DisplayDate(d);
    assert |dd| == 2 && |yyyy| == 4;
    assert s[..2] == dd;
    assert s[|s| - 4..] == yyyy;
    assert s[3..|s| - 5] == mn;
  }

  /** The displayed date determines the date: day, month and year read back unchanged. */
  lemma DisplayDateRoundTrip(d: Date)
    ensures ParseDisplayDate(DisplayDate(d)) == Some(d)
  {
    DisplayDateLayout(d);
    MonthFromFinds(d.month, 0);
  }

  /** `format_date(value)`: dates and date-times as `"DD Month YYYY"`, anything else as `str(value)`. */
  function FormatDate(value: Cell): string
  {
    match value
    case Some(DateValue(d)) => DisplayDate(d)
    case Some(DateTimeValue(d, _)) => DisplayDate(d)
    case _ => PyStr(value)
  }

  /**
   * A date or date-time cell is shown as its calendar date, which the text
   * determines; the time of day is dropped; any other cell is shown as its
   * `str()` form, so an empty one as `"None"`.
   */
  lemma FormatDateSpec(value: Cell)
    ensures value.Some? && (value.value.DateValue? || value.value.DateTimeValue?) ==>
      ParseDisplayDate(FormatDate(value)) == Some(value.value.date)
    ensures value.Some? && value.value.DateTimeValue? ==>
      FormatDate(value) == FormatDate(Some(DateValue(value.value.date)))
    ensures value.None? ==> FormatDate(value) == "None"
    ensures value.Some? && value.value.Text? ==> FormatDate(value) == value.value.s
    ensures value.Some? && value.value.Number? ==> FormatDate(value) == IntToString(value.value.n)
  {
    if value.Some? && (value.value.DateValue? || value.value.DateTimeValue?) {
      DisplayDateRoundTrip(value.value.date);
    }
  }

  /** `f"R-{index:04d}"`. */
  function ReceiptNumber(index: nat): string
  {
    "R-" + ZeroPad(index, 4)
  }

  /** The row number a receipt number was made from. */
  function ReceiptIndex(receipt: string): int
  {
    if |receipt| >= 2 && receipt[..2] == "R-" then DigitsValue(receipt[2..]) else -1
  }

  /** A receipt number is `"R-"` and at least four digits, and gives its row number back. */
  lemma ReceiptNumberRoundTrip(index: nat)
    ensures |ReceiptNumber(index)| >= 6 && ReceiptNumber(index)[..2] == "R-" && IsDigits(ReceiptNumber(index)[2..])
    ensures ReceiptIndex(ReceiptNumber(index)) == index
  {
    assert ReceiptNumber(index)[2..] == ZeroPad(index, 4);
  }

  /** Different rows get different receipt numbers. */
  lemma ReceiptNumberInjective(i: nat, j: nat)
    ensures ReceiptNumber(i) == ReceiptNumber(j) ==> i == j
  {
    ReceiptNumberRoundTrip(i);
    ReceiptNumberRoundTrip(j);
  }

  /** `str.replace(' ', '_')`. */
  function ReplaceSpaces(s: string): string
    decreases |s|
  {
    if s == [] then [] else [if s[0] == ' ' then '_' else s[0]] + ReplaceSpaces(s[1..])
  }

  /** `f"{name.replace(' ', '_')}_Receipt.pdf"`. */
  function OutputFileName(name: string): string
  {
    ReplaceSpaces(name) + "_Receipt.pdf"
  }

  lemma {:induction false} ReplaceSpacesSpec(s: string)
    ensures |ReplaceSpaces(s)| == |s|
    ensures forall i :: 0 <= i < |s| ==> ReplaceSpaces(s)[i] == if s[i] == ' ' then '_' else s[i]
    decreases |s|
  {
    if s != [] {
      ReplaceSpacesSpec(s[1..]);
    }
  }

  /**
   * The file name keeps the name character for character except that each
   * space becomes `_`, has no space in it, and ends in `_Receipt.pdf`.
   */
  lemma OutputFileNameSpec(name: string)
    ensures var f := OutputFileName(name);
      |f| == |name| + 12 && f[|name|..] == "_Receipt.pdf" && ' ' !in f
      && forall i :: 0 <= i < |name| ==> f[i] == if name[i] == ' ' then '_' else name[i]
  {
    ReplaceSpacesSpec(name);
    var f := OutputFileName(name);
    assert forall i :: |name| <= i < |f| ==> f[i] == "_Receipt.pdf"[i - |name|];
  }

  /** The leading run of non-whitespace characters. */
  function TakeWord(s: string): string
    decreases |s|
  {
    if s == [] || IsSpace(s[0]) then [] else [s[0]] + TakeWord(s[1..])
  }

  lemma {:induction false} TakeWordSpec(s: string)
    ensures |TakeWord(s)| <= |s| && TakeWord(s) == s[..|TakeWord(s)|] && NoSpaces(TakeWord(s))
    ensures |TakeWord(s)| == |s| || IsSpace(s[|TakeWord(s)|])
    decreases |s|
  {
    if s != [] && !IsSpace(s[0]) {
      TakeWordSpec(s[1..]);
    }
  }

  /** `name.split()[0]`; `None` where that raises `IndexError`. */
  function FirstName(name: string): Option<string>
  {
    var t := TrimLeft(name);
    if t == [] then None else Some(TakeWord(t))
  }

  /** `word` stands at offset `i` of `s` after nothing but whitespace, and is a whole token. */
  predicate FirstWordAt(s: string, word: string, i: int)
  {
    0 <= i && i + |word| <= |s| && AllSpaces(s[..i]) && s[i..i + |word|] == word
    && (i + |word| == |s| || IsSpace(s[i + |word|]))
  }

  /**
   * `split()[0]` fails exactly on an all-whitespace name; otherwise it is the
   * first whitespace-delimited token: non-empty, with no whitespace in it,
   * preceded only by whitespace and followed by whitespace or the end.
   */
  lemma FirstNameSpec(name: string)
    ensures FirstName(name).None? <==> AllSpaces(name)
    ensures FirstName(name).Some? ==>
      var w := FirstName(name).value;
      w != [] && NoSpaces(w) && exists i :: FirstWordAt(name, w, i)
  {
    var t := TrimLeft(name);
    TrimLeftSpec(name);
    var i := |name| - |t|;
    if t == [] {
      assert name[..i] == name;
    } else {
      assert !IsSpace(name[i]) by { assert name[i] == t[0]; }
      TakeWordSpec(t);
      var w := TakeWord(t);
      assert w != [];
      assert name[i..i + |w|] == w;
      assert FirstWordAt(name, w, i);
    }
  }

  /** For the trimmed, non-empty names of the records, the first name is a prefix of the name. */
  lemma FirstNameOfRecordName(name: string)
    requires name != [] && Strip(name) == name
    ensures FirstName(name).Some? && FirstName(name).value != []
    ensures |FirstName(name).value| <= |name| && FirstName(name).value == name[..|FirstName(name).value|]
  {
    StripSpec(name);
    FirstNameSpec(name);
    TrimLeftSpec(name);
    assert TrimLeft(name) == name;
    TakeWordSpec(name);
  }
}

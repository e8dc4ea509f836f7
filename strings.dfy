/**
 * The Python string built-ins the receipt front end relies on:
 * `str.isspace`, `str.strip`, `str.lower`, `str(int)`, `%0Nd` and the
 * `,` thousands grouping of the format mini-language.
 */
module Strings {

  /** Python's `str.isspace` for one character. */
  predicate IsSpace(c: char)
  {
    c == ' ' || ('\t' <= c <= '\r') || ('\U{1c}' <= c <= '\U{1f}')
    || c == '\U{85}' || c == '\U{a0}' || c == '\U{1680}'
    || ('\U{2000}' <= c <= '\U{200a}') || c == '\U{2028}' || c == '\U{2029}'
    || c == '\U{202f}' || c == '\U{205f}' || c == '\U{3000}'
  }

  predicate NoSpaces(s: string)
  {
    forall i :: 0 <= i < |s| ==> !IsSpace(s[i])
  }

  predicate AllSpaces(s: string)
  {
    forall i :: 0 <= i < |s| ==> IsSpace(s[i])
  }

  /** `str.lstrip()`: drops leading whitespace. */
  function TrimLeft(s: string): string
    decreases |s|
  {
    if s != [] && IsSpace(s[0]) then TrimLeft(s[1..]) else s
  }

  /** `TrimLeft(s)` is the suffix of `s` that starts at its first non-whitespace character. */
  lemma {:induction false} TrimLeftSpec(s: string)
    ensures |TrimLeft(s)| <= |s| && TrimLeft(s) == s[|s| - |TrimLeft(s)|..]
    ensures AllSpaces(s[..|s| - |TrimLeft(s)|])
    ensures TrimLeft(s) != [] ==> !IsSpace(TrimLeft(s)[0])
    decreases |s|
  {
    if s != [] && IsSpace(s[0]) {
      TrimLeftSpec(s[1..]);
      var r := TrimLeft(s[1..]);
      assert s[..|s| - |r|] == [s[0]] + s[1..][..|s| - 1 - |r|];
    }
  }

  /** `str.rstrip()`: drops trailing whitespace. */
  function TrimRight(s: string): string
    decreases |s|
  {
    if s != [] && IsSpace(s[|s| - 1]) then TrimRight(s[..|s| - 1]) else s
  }

  /** `TrimRight(s)` is the prefix of `s` that ends at its last non-whitespace character. */
  lemma {:induction false} TrimRightSpec(s: string)
    ensures |TrimRight(s)| <= |s| && TrimRight(s) == s[..|TrimRight(s)|]
    ensures AllSpaces(s[|TrimRight(s)|..])
    ensures TrimRight(s) != [] ==> !IsSpace(TrimRight(s)[|TrimRight(s)| - 1])
    decreases |s|
  {
    if s != [] && IsSpace(s[|s| - 1]) {
      TrimRightSpec(s[..|s| - 1]);
      var r := TrimRight(s[..|s| - 1]);
      assert s[|r|..] == s[..|s| - 1][|r|..] + [s[|s| - 1]];
    }
  }

  /** `r` is `s` with the whitespace before offset `i` and after `i + |r|` removed. */
  predicate SpacePadded(s: string, r: string, i: int)
  {
    0 <= i && i + |r| <= |s| && s[i..i + |r|] == r
    && AllSpaces(s[..i]) && AllSpaces(s[i + |r|..])
  }

  /** `str.strip()`: `s` without leading and trailing whitespace. */
  function Strip(s: string): string
  {
    TrimRight(TrimLeft(s))
  }

  /**
   * What `str.strip()` promises: the result is a contiguous part of `s` that
   * neither starts nor ends with whitespace, and only whitespace was removed
   * around it.
   */
  lemma StripSpec(s: string)
    ensures Strip(s) != [] ==> !IsSpace(Strip(s)[0]) && !IsSpace(Strip(s)[|Strip(s)| - 1])
    ensures SpacePadded(s, Strip(s), |s| - |TrimLeft(s)|)
  {
    var t := TrimLeft(s);
    var r := TrimRight(t);
    TrimLeftSpec(s);
    TrimRightSpec(t);
    assert s[|s| - |t|..][..|r|] == s[|s| - |t|..|s| - |t| + |r|];
    assert t[|r|..] == s[|s| - |t| + |r|..];
  }

  /** A string that neither starts nor ends with whitespace is its own strip. */
  lemma StripUnpadded(s: string)
    requires s != [] ==> !IsSpace(s[0]) && !IsSpace(s[|s| - 1])
    ensures Strip(s) == s
  {
    assert TrimLeft(s) == s;
  }

  /** Stripping a stripped string changes nothing. */
  lemma StripIdempotent(s: string)
    ensures Strip(Strip(s)) == Strip(s)
  {
    StripSpec(s);
    StripUnpadded(Strip(s));
  }

  /** `Strip(s)` is empty exactly when `s` is all whitespace. */
  lemma StripEmpty(s: string)
    ensures Strip(s) == [] <==> AllSpaces(s)
  {
    var t := TrimLeft(s);
    var r := TrimRight(t);
    StripSpec(s);
    TrimLeftSpec(s);
    TrimRightSpec(t);
    var i := |s| - |t|;
    if r == [] {
      assert t[|r|..] == t;
      forall k | 0 <= k < |s|
        ensures IsSpace(s[k])
      {
        assert s[..i][k] == s[k];
      }
    } else {
      assert s[i..i + |r|][0] == s[i];
    }
  }

  /** ASCII part of `str.lower()`. */
  function LowerChar(c: char): char
  {
    if 'A' <= c <= 'Z' then (c as int + 32) as char else c
  }

  /** `str.lower()` restricted to ASCII letters. */
  function Lower(s: string): (r: string)
  {
    seq(|s|, i requires 0 <= i < |s| => LowerChar(s[i]))
  }

  /** Lower-casing is idempotent and keeps whitespace where it was. */
  lemma LowerFacts(s: string)
    ensures Lower(Lower(s)) == Lower(s)
    ensures forall i :: 0 <= i < |s| ==> (IsSpace(Lower(s)[i]) <==> IsSpace(s[i]))
    ensures forall i :: 0 <= i < |s| ==> !('A' <= Lower(s)[i] <= 'Z')
  {
  }

  predicate IsDigit(c: char)
  {
    '0' <= c <= '9'
  }

  predicate IsDigits(s: string)
  {
    forall i :: 0 <= i < |s| ==> IsDigit(s[i])
  }

  function DigitChar(d: nat): (c: char)
    requires d < 10
    ensures IsDigit(c)
  {
    ('0' as int + d) as char
  }

  function DigitValue(c: char): int
  {
    c as int - '0' as int
  }

  /** The number a string of decimal digits denotes, most significant first. */
  function DigitsValue(s: string): (r: int)
    ensures IsDigits(s) ==> r >= 0
    decreases |s|
  {
    if s == [] then 0 else DigitsValue(s[..|s| - 1]) * 10 + DigitValue(s[|s| - 1])
  }

  /** `str(n)` for a natural number: its decimal digits without leading zeros. */
  function DecimalDigits(n: nat): (r: string)
    ensures |r| >= 1 && IsDigits(r)
    ensures n > 0 ==> r[0] != '0'
    decreases n
  {
    if n < 10 then [DigitChar(n)] else DecimalDigits(n / 10) + [DigitChar(n % 10)]
  }

  /** Reading back the digits of `n` gives `n`. */
  lemma {:induction false} DecimalDigitsValue(n: nat)
    ensures DigitsValue(DecimalDigits(n)) == n
    decreases n
  {
    if n >= 10 {
      DecimalDigitsValue(n / 10);
      var d := DecimalDigits(n);
      assert d[..|d| - 1] == DecimalDigits(n / 10);
    }
  }

  function Pow10(k: nat): nat
  {
    if k == 0 then 1 else 10 * Pow10(k - 1)
  }

  /** A number below `10^k` has at most `k` digits. */
  lemma {:induction false} DecimalDigitsLength(n: nat, k: nat)
    requires 1 <= k && n < Pow10(k)
    ensures |DecimalDigits(n)| <= k
    decreases k
  {
    if n >= 10 {
      assert k != 1;
      DecimalDigitsLength(n / 10, k - 1);
    }
  }

  /** Python's `str(n)` for any integer. */
  function IntToString(n: int): (r: string)
  {
    if n < 0 then "-" + DecimalDigits(-n) else DecimalDigits(n)
  }

  /** `"%0*d" % (width, n)`: the digits of `n`, zero-padded on the left to at least `width`. */
  function ZeroPad(n: nat, width: nat): (r: string)
    ensures |r| == if |DecimalDigits(n)| < width then width else |DecimalDigits(n)|
    ensures IsDigits(r)
    ensures DigitsValue(r) == n
    decreases width
  {
    var d := DecimalDigits(n);
    if width <= |d| then
      DecimalDigitsValue(n);
      d
    else
      var r := ZeroPad(n, width - 1);
      LeadingZeroValue(r);
      "0" + r
  }

  /** A leading zero does not change the value of a digit string. */
  lemma {:induction false} LeadingZeroValue(d: string)
    ensures DigitsValue("0" + d) == DigitsValue(d)
    decreases |d|
  {
    if d != [] {
      assert ("0" + d)[..|d|] == "0" + d[..|d| - 1];
      LeadingZeroValue(d[..|d| - 1]);
    }
  }

  /** The `,` option of Python's format mini-language on a digit string. */
  function GroupThousands(d: string): (r: string)
    ensures d != [] ==> r != [] && r[0] == d[0]
    decreases |d|
  {
    if |d| <= 3 then d else GroupThousands(d[..|d| - 3]) + "," + d[|d| - 3..]
  }

  function RemoveCommas(s: string): string
    decreases |s|
  {
    if s == [] then [] else (if s[0] == ',' then [] else [s[0]]) + RemoveCommas(s[1..])
  }

  lemma {:induction false} RemoveCommasAppend(a: string, b: string)
    ensures RemoveCommas(a + b) == RemoveCommas(a) + RemoveCommas(b)
    decreases |a|
  {
    if a != [] {
      assert (a + b)[1..] == a[1..] + b;
      RemoveCommasAppend(a[1..], b);
    } else {
      assert a + b == b;
    }
  }

  lemma {:induction false} RemoveCommasDigits(s: string)
    requires IsDigits(s)
    ensures RemoveCommas(s) == s
    decreases |s|
  {
    if s != [] {
      RemoveCommasDigits(s[1..]);
    }
  }

  /**
   * A grouped number: its commas stand exactly at the positions that are a
   * multiple of four from the end, every other character is a digit, and the
   * leading group is not empty.
   */
  predicate WellGrouped(g: string)
  {
    |g| % 4 != 0
    && (forall p :: 0 <= p < |g| ==> (g[p] == ',' <==> (|g| - p) % 4 == 0))
    && (forall p :: 0 <= p < |g| && g[p] != ',' ==> IsDigit(g[p]))
  }

  /** Dropping the commas of a grouped digit string gives the digits back. */
  lemma {:induction false} GroupThousandsRoundTrip(d: string)
    requires IsDigits(d)
    ensures RemoveCommas(GroupThousands(d)) == d
    decreases |d|
  {
    if |d| <= 3 {
      RemoveCommasDigits(d);
    } else {
      var head, tail := d[..|d| - 3], d[|d| - 3..];
      GroupThousandsRoundTrip(head);
      RemoveCommasAppend(GroupThousands(head) + ",", tail);
      RemoveCommasAppend(GroupThousands(head), ",");
      RemoveCommasDigits(tail);
      assert head + tail == d;
    }
  }

  /** Grouping a non-empty digit string puts commas every three digits from the right. */
  lemma {:induction false} GroupThousandsShape(d: string)
    requires IsDigits(d) && d != []
    ensures WellGrouped(GroupThousands(d))
    decreases |d|
  {
    if |d| > 3 {
      var head, tail := d[..|d| - 3], d[|d| - 3..];
      GroupThousandsShape(head);
      var h := GroupThousands(head);
      var g := GroupThousands(d);
      assert g == h + "," + tail;
      forall p | 0 <= p < |g|
        ensures (g[p] == ',' <==> (|g| - p) % 4 == 0)
        ensures g[p] != ',' ==> IsDigit(g[p])
      {
        if p < |h| {
          assert g[p] == h[p];
          assert (|g| - p) % 4 == (|h| - p) % 4;
        } else if p > |h| {
          assert g[p] == tail[p - |h| - 1];
        }
      }
    }
  }

  /** Python's `f"{x:,.0f}"` for an integral `x`, given by its sign and magnitude. */
  function SignedGrouped(negative: bool, magnitude: nat): string
  {
    (if negative then "-" else "") + GroupThousands(DecimalDigits(magnitude))
  }

  /** Reads back an optionally negative grouped number. */
  function ParseGrouped(s: string): int
  {
    if s != [] && s[0] == '-' then -DigitsValue(RemoveCommas(s[1..])) else DigitsValue(RemoveCommas(s))
  }

  /** A grouped number reads back as the signed magnitude that produced it. */
  lemma SignedGroupedRoundTrip(negative: bool, magnitude: nat)
    ensures ParseGrouped(SignedGrouped(negative, magnitude)) == if negative then -(magnitude as int) else magnitude as int
    ensures WellGrouped(if negative then SignedGrouped(negative, magnitude)[1..] else SignedGrouped(negative, magnitude))
  {
    var d := DecimalDigits(magnitude);
    GroupThousandsRoundTrip(d);
    GroupThousandsShape(d);
    DecimalDigitsValue(magnitude);
    var g := GroupThousands(d);
    if negative {
      assert SignedGrouped(negative, magnitude)[1..] == g;
    } else {
      assert SignedGrouped(negative, magnitude) == g;
      assert IsDigit(d[0]) && g[0] == d[0];
    }
  }
}

/**
 * Header alias resolution: `REQUIRED_FIELDS`, `normalize_header` and
 * `map_columns` of receipt_emailer.py.
 */
module Headers {
  import opened Wrappers
  import opened Strings
  import opened Sheet

  /** A canonical field and the lower-case header spellings accepted for it. */
  datatype FieldSpec = FieldSpec(field: string, aliases: seq<string>)

  /** The alias table, in declaration order. */
  const REQUIRED_FIELDS: seq<FieldSpec> := [
    FieldSpec("name", ["name", "full name", "student name", "student"]),
    FieldSpec("email", ["email", "email address"]),
    FieldSpec("amount", ["amount", "amount paid", "contribution", "paid"]),
    FieldSpec("date", ["date", "payment date", "paid on", "received on"]),
    FieldSpec("payment_method", ["payment method", "payment mode", "mode", "channel"])
  ]

  /** The canonical field names of an alias table. */
  function FieldSet(table: seq<FieldSpec>): set<string>
  {
    set k | 0 <= k < |table| :: table[k].field
  }

  /** No canonical field is listed twice. */
  predicate DistinctFields(table: seq<FieldSpec>)
  {
    forall k, l :: 0 <= k < l < |table| ==> table[k].field != table[l].field
  }

  lemma RequiredFieldsDistinct()
    ensures DistinctFields(REQUIRED_FIELDS)
  {
  }

  /** A column map with an entry for every field of the table. */
  predicate Covers(table: seq<FieldSpec>, columns: map<string, string>)
  {
    forall k :: 0 <= k < |table| ==> table[k].field in columns
  }

  /** A column map with an entry for every canonical field. */
  predicate Complete(columns: map<string, string>)
  {
    Covers(REQUIRED_FIELDS, columns)
  }

  /** `normalize_header`: trim, then lower-case. */
  function Normalize(header: string): string
  {
    Lower(Strip(header))
  }

  /** A normalised header normalises to itself. */
  lemma NormalizeIdempotent(header: string)
    ensures Normalize(Normalize(header)) == Normalize(header)
  {
    var t := Strip(header);
    var n := Lower(t);
    StripSpec(header);
    LowerFacts(t);
    assert TrimLeft(n) == n;
    assert TrimRight(n) == n;
  }

  /** A header that the comprehension keeps: a non-empty string. */
  predicate IsNamedHeader(c: Cell)
  {
    c.Some? && c.value.Text? && c.value.s != ""
  }

  /** A header that makes `normalize_header` raise: truthy but not a string. */
  predicate IsBadHeader(c: Cell)
  {
    Truthy(c) && !c.value.Text?
  }

  predicate HasBadHeader(headers: Row)
  {
    exists j :: 0 <= j < |headers| && IsBadHeader(headers[j])
  }

  predicate NormalizesTo(c: Cell, key: string)
  {
    IsNamedHeader(c) && Normalize(c.value.s) == key
  }

  /** Some header of the row normalises to `key`. */
  predicate Present(headers: Row, key: string)
  {
    exists j :: 0 <= j < |headers| && NormalizesTo(headers[j], key)
  }

  /** `raw` is the last header of the row that normalises to `key`. */
  predicate LastHeaderFor(headers: Row, key: string, raw: string)
  {
    exists j :: 0 <= j < |headers| && headers[j] == Some(Text(raw)) && NormalizesTo(headers[j], key)
      && forall j' :: j < j' < |headers| ==> !NormalizesTo(headers[j'], key)
  }

  /**
   * `{normalize_header(h): h for h in headers if h}`: falsy headers are dropped
   * and a later header overwrites an earlier one with the same normal form.
   */
  function HeaderMap(headers: Row): Result<map<string, string>, Error>
    decreases |headers|
  {
    if headers == [] then Ok(map[])
    else
      match HeaderMap(headers[..|headers| - 1])
      case Err(e) => Err(e)
      case Ok(m) =>
        var h := headers[|headers| - 1];
        if !Truthy(h) then Ok(m)
        else if h.value.Text? then Ok(m[Normalize(h.value.s) := h.value.s])
        else Err(HeaderNotText)
  }

  lemma HasBadHeaderSnoc(headers: Row)
    requires headers != []
    ensures HasBadHeader(headers) <==> HasBadHeader(headers[..|headers| - 1]) || IsBadHeader(headers[|headers| - 1])
  {
    var n := |headers| - 1;
    if HasBadHeader(headers) {
      var j :| 0 <= j < |headers| && IsBadHeader(headers[j]);
      if j < n { assert IsBadHeader(headers[..n][j]); }
    }
    if HasBadHeader(headers[..n]) {
      var j :| 0 <= j < n && IsBadHeader(headers[..n][j]);
      assert IsBadHeader(headers[j]);
    }
  }

  /**
   * Building the lookup dictionary fails exactly on a truthy header that is
   * not a string; a `None`, `""` or `0` header is dropped.
   */
  lemma {:induction false} HeaderMapFails(headers: Row)
    ensures HeaderMap(headers).Err? <==> HasBadHeader(headers)
    ensures HeaderMap(headers).Err? ==> HeaderMap(headers).error == HeaderNotText
    decreases |headers|
  {
    if headers != [] {
      HeaderMapFails(headers[..|headers| - 1]);
      HasBadHeaderSnoc(headers);
    }
  }

  lemma PresentSnoc(headers: Row, key: string)
    requires headers != []
    ensures Present(headers, key) <==> Present(headers[..|headers| - 1], key) || NormalizesTo(headers[|headers| - 1], key)
  {
    var n := |headers| - 1;
    if Present(headers, key) {
      var j :| 0 <= j < |headers| && NormalizesTo(headers[j], key);
      if j < n { assert NormalizesTo(headers[..n][j], key); }
    }
    if Present(headers[..n], key) {
      var j :| 0 <= j < n && NormalizesTo(headers[..n][j], key);
      assert NormalizesTo(headers[j], key);
    }
  }

  /** The keys of the lookup dictionary are exactly the normal forms of the non-empty string headers. */
  lemma {:induction false} HeaderMapKeys(headers: Row)
    requires HeaderMap(headers).Ok?
    ensures forall key :: key in HeaderMap(headers).value <==> Present(headers, key)
    decreases |headers|
  {
    if headers != [] {
      var n := |headers| - 1;
      HeaderMapKeys(headers[..n]);
      forall key
        ensures key in HeaderMap(headers).value <==> Present(headers, key)
      {
        PresentSnoc(headers, key);
      }
    }
  }

  lemma LastHeaderForSnoc(headers: Row, key: string, raw: string)
    requires headers != [] && !NormalizesTo(headers[|headers| - 1], key)
    requires LastHeaderFor(headers[..|headers| - 1], key, raw)
    ensures LastHeaderFor(headers, key, raw)
  {
    var init := headers[..|headers| - 1];
    var j :| 0 <= j < |init| && init[j] == Some(Text(raw)) && NormalizesTo(init[j], key)
      && forall j' :: j < j' < |init| ==> !NormalizesTo(init[j'], key);
    assert headers[j] == init[j];
    forall j' | j < j' < |headers|
      ensures !NormalizesTo(headers[j'], key)
    {
      if j' < |init| {
        assert headers[j'] == init[j'];
      }
    }
  }

  /** Each key of the lookup dictionary maps to the last raw header with that normal form. */
  lemma {:induction false} HeaderMapValues(headers: Row)
    requires HeaderMap(headers).Ok?
    ensures forall key :: key in HeaderMap(headers).value ==> LastHeaderFor(headers, key, HeaderMap(headers).value[key])
    decreases |headers|
  {
    if headers != [] {
      var n := |headers| - 1;
      var h := headers[n];
      HeaderMapValues(headers[..n]);
      var m := HeaderMap(headers[..n]).value;
      var m' := HeaderMap(headers).value;
      forall key | key in m'
        ensures LastHeaderFor(headers, key, m'[key])
      {
        if NormalizesTo(h, key) {
          assert headers[n] == Some(Text(m'[key]));
        } else {
          assert key in m && m'[key] == m[key];
          LastHeaderForSnoc(headers, key, m[key]);
        }
      }
    }
  }

  /** The first alias, in list order, that is a key of the lookup dictionary. */
  function FirstAlias(headerMap: map<string, string>, aliases: seq<string>): (r: Option<string>)
    ensures r.None? <==> forall i :: 0 <= i < |aliases| ==> aliases[i] !in headerMap
    ensures r.Some? ==> r.value in headerMap
    ensures r.Some? ==>
      exists i :: 0 <= i < |aliases| && aliases[i] == r.value && forall i' :: 0 <= i' < i ==> aliases[i'] !in headerMap
    decreases |aliases|
  {
    if aliases == [] then None
    else if aliases[0] in headerMap then Some(aliases[0])
    else
      var r := FirstAlias(headerMap, aliases[1..]);
      assert forall i :: 1 <= i < |aliases| ==> aliases[i] == aliases[1..][i - 1];
      r
  }

  /** The `mapped` dictionary after the first `n` fields of the table have been looked up. */
  function Resolved(table: seq<FieldSpec>, headerMap: map<string, string>, n: nat): map<string, string>
    requires n <= |table|
  {
    if n == 0 then map[]
    else
      var mapped := Resolved(table, headerMap, n - 1);
      match FirstAlias(headerMap, table[n - 1].aliases)
      case Some(alias) => mapped[table[n - 1].field := headerMap[alias]]
      case None => mapped
  }

  /** A field is in `mapped` exactly when one of its aliases was found, and nothing else is. */
  lemma {:induction false} ResolvedKeys(table: seq<FieldSpec>, headerMap: map<string, string>, n: nat)
    requires n <= |table| && DistinctFields(table)
    ensures forall k :: 0 <= k < |table| ==>
      (table[k].field in Resolved(table, headerMap, n) <==> k < n && FirstAlias(headerMap, table[k].aliases).Some?)
    ensures Resolved(table, headerMap, n).Keys <= FieldSet(table)
  {
    if n > 0 {
      ResolvedKeys(table, headerMap, n - 1);
    }
  }

  /** A found field maps to the header of the alias found for it. */
  lemma {:induction false} ResolvedValues(table: seq<FieldSpec>, headerMap: map<string, string>, n: nat)
    requires n <= |table| && DistinctFields(table)
    ensures forall k :: 0 <= k < n && FirstAlias(headerMap, table[k].aliases).Some? ==>
      table[k].field in Resolved(table, headerMap, n)
      && Resolved(table, headerMap, n)[table[k].field] == headerMap[FirstAlias(headerMap, table[k].aliases).value]
  {
    if n > 0 {
      ResolvedValues(table, headerMap, n - 1);
    }
  }

  /** `[field for field in REQUIRED_FIELDS if field not in mapped]`, from index `k` on. */
  function MissingFields(table: seq<FieldSpec>, mapped: map<string, string>, k: nat): seq<string>
    requires k <= |table|
    decreases |table| - k
  {
    if k == |table| then []
    else (if table[k].field in mapped then [] else [table[k].field]) + MissingFields(table, mapped, k + 1)
  }

  lemma {:induction false} MissingFieldsEmpty(table: seq<FieldSpec>, mapped: map<string, string>, k: nat)
    requires k <= |table|
    ensures MissingFields(table, mapped, k) == [] <==> forall l :: k <= l < |table| ==> table[l].field in mapped
    decreases |table| - k
  {
    if k < |table| {
      MissingFieldsEmpty(table, mapped, k + 1);
    }
  }

  /** Some alias of field `k` is present among the normalised headers. */
  predicate AliasPresent(table: seq<FieldSpec>, headers: Row, k: nat)
    requires k < |table|
  {
    exists i :: 0 <= i < |table[k].aliases| && Present(headers, table[k].aliases[i])
  }

  /** The fields of the table from index `k` on, in table order, that no header provides. */
  function UnmappedFields(table: seq<FieldSpec>, headers: Row, k: nat): seq<string>
    requires k <= |table|
    decreases |table| - k
  {
    if k == |table| then []
    else (if AliasPresent(table, headers, k) then [] else [table[k].field]) + UnmappedFields(table, headers, k + 1)
  }

  /** `map_columns` for an alias table, as a function of the header row. */
  function ResolveWith(table: seq<FieldSpec>, headers: Row): (r: Result<map<string, string>, Error>)
    ensures r.Ok? ==> Covers(table, r.value)
  {
    match HeaderMap(headers)
    case Err(e) => Err(e)
    case Ok(headerMap) =>
      var mapped := Resolved(table, headerMap, |table|);
      var missing := MissingFields(table, mapped, 0);
      if missing != [] then Err(MissingColumns(missing))
      else
        MissingFieldsEmpty(table, mapped, 0);
        Ok(mapped)
  }

  /** `map_columns` with its alias table. */
  function ResolveColumns(headers: Row): (r: Result<map<string, string>, Error>)
    ensures r.Ok? ==> Complete(r.value)
  {
    ResolveWith(REQUIRED_FIELDS, headers)
  }

  /**
   * `map_columns` against an alias table (`REQUIRED_FIELDS` in the program):
   * looks the fields up one by one, taking the first alias present.
   */
  method MapColumns(table: seq<FieldSpec>, headers: Row) returns (r: Result<map<string, string>, Error>)
    ensures r == ResolveWith(table, headers)
  {
    var built := HeaderMap(headers);
    if built.Err? {
      return Err(built.error);
    }
    var headerMap := built.value;
    var mapped: map<string, string> := map[];
    for k := 0 to |table|
      invariant mapped == Resolved(table, headerMap, k)
    {
      var spec := table[k];
      var i := 0;
      while i < |spec.aliases|
        invariant 0 <= i <= |spec.aliases|
        invariant FirstAlias(headerMap, spec.aliases[i..]) == FirstAlias(headerMap, spec.aliases)
        invariant mapped == Resolved(table, headerMap, k)
      {
        if spec.aliases[i] in headerMap {
          mapped := mapped[spec.field := headerMap[spec.aliases[i]]];
          break;
        }
        assert spec.aliases[i..][1..] == spec.aliases[i + 1..];
        i := i + 1;
      }
    }
    var missing := MissingFields(table, mapped, 0);
    if missing != [] {
      return Err(MissingColumns(missing));
    }
    return Ok(mapped);
  }

  /** With a well-formed lookup dictionary, a field is resolved exactly when one of its aliases is present. */
  lemma ResolvedIffPresent(table: seq<FieldSpec>, headers: Row, headerMap: map<string, string>)
    requires HeaderMap(headers) == Ok(headerMap) && DistinctFields(table)
    ensures forall k :: 0 <= k < |table| ==>
      (table[k].field in Resolved(table, headerMap, |table|) <==> AliasPresent(table, headers, k))
  {
    HeaderMapKeys(headers);
    ResolvedKeys(table, headerMap, |table|);
    forall k | 0 <= k < |table|
      ensures FirstAlias(headerMap, table[k].aliases).Some? <==> AliasPresent(table, headers, k)
    {
      var aliases := table[k].aliases;
      if AliasPresent(table, headers, k) {
        var i :| 0 <= i < |aliases| && Present(headers, aliases[i]);
        assert aliases[i] in headerMap;
      }
    }
  }

  lemma {:induction false} MissingIsUnmapped(table: seq<FieldSpec>, headers: Row, headerMap: map<string, string>, k: nat)
    requires HeaderMap(headers) == Ok(headerMap) && DistinctFields(table) && k <= |table|
    ensures MissingFields(table, Resolved(table, headerMap, |table|), k) == UnmappedFields(table, headers, k)
    decreases |table| - k
  {
    if k < |table| {
      ResolvedIffPresent(table, headers, headerMap);
      MissingIsUnmapped(table, headers, headerMap, k + 1);
    }
  }

  /**
   * `map_columns` raises on a truthy header that is not a string (a `None`,
   * `""` or `0` header is dropped); otherwise it raises exactly
   * when some field has no alias present, naming exactly those fields in
   * table order, and succeeds when every field has one.
   */
  lemma MapColumnsOutcome(table: seq<FieldSpec>, headers: Row)
    requires DistinctFields(table)
    ensures HasBadHeader(headers) ==> ResolveWith(table, headers) == Err(HeaderNotText)
    ensures !HasBadHeader(headers) && UnmappedFields(table, headers, 0) != [] ==>
      ResolveWith(table, headers) == Err(MissingColumns(UnmappedFields(table, headers, 0)))
    ensures ResolveWith(table, headers).Ok? <==>
      !HasBadHeader(headers) && forall k :: 0 <= k < |table| ==> AliasPresent(table, headers, k)
  {
    HeaderMapFails(headers);
    if !HasBadHeader(headers) {
      var headerMap := HeaderMap(headers).value;
      var mapped := Resolved(table, headerMap, |table|);
      MissingIsUnmapped(table, headers, headerMap, 0);
      MissingFieldsEmpty(table, mapped, 0);
      ResolvedIffPresent(table, headers, headerMap);
    }
  }

  /** `raw` is the last header spelling the first alias, in list order, that any header has. */
  predicate ChosenHeader(headers: Row, aliases: seq<string>, raw: string)
  {
    exists i :: 0 <= i < |aliases| && Present(headers, aliases[i])
      && (forall i' :: 0 <= i' < i ==> !Present(headers, aliases[i']))
      && LastHeaderFor(headers, aliases[i], raw)
  }

  /** The header that a found alias maps to is its last spelling among the headers. */
  lemma FoundAliasChosen(headers: Row, headerMap: map<string, string>, aliases: seq<string>)
    requires HeaderMap(headers) == Ok(headerMap) && FirstAlias(headerMap, aliases).Some?
    ensures var raw := headerMap[FirstAlias(headerMap, aliases).value];
      raw != "" && ChosenHeader(headers, aliases, raw)
  {
    HeaderMapKeys(headers);
    HeaderMapValues(headers);
    var alias := FirstAlias(headerMap, aliases).value;
    var raw := headerMap[alias];
    var i :| 0 <= i < |aliases| && aliases[i] == alias && forall i' :: 0 <= i' < i ==> aliases[i'] !in headerMap;
    assert LastHeaderFor(headers, alias, raw);
    var j :| 0 <= j < |headers| && headers[j] == Some(Text(raw)) && NormalizesTo(headers[j], alias);
    assert Present(headers, aliases[i]);
  }

  /** A successful `map_columns` maps exactly the canonical fields. */
  lemma MapColumnsKeys(table: seq<FieldSpec>, headers: Row)
    requires DistinctFields(table) && ResolveWith(table, headers).Ok?
    ensures ResolveWith(table, headers).value.Keys == FieldSet(table)
  {
    var headerMap := HeaderMap(headers).value;
    var mapped := Resolved(table, headerMap, |table|);
    assert ResolveWith(table, headers) == Ok(mapped);
    ResolvedKeys(table, headerMap, |table|);
    forall f | f in FieldSet(table)
      ensures f in mapped
    {
      var k :| 0 <= k < |table| && table[k].field == f;
    }
  }

  /**
   * A successful `map_columns` maps each field to a non-empty raw header whose
   * normal form is the first alias in the field's list that any header has,
   * and to the last such header.
   */
  lemma MapColumnsChoice(table: seq<FieldSpec>, headers: Row)
    requires DistinctFields(table) && ResolveWith(table, headers).Ok?
    ensures forall k :: 0 <= k < |table| ==>
      table[k].field in ResolveWith(table, headers).value
      && var raw := ResolveWith(table, headers).value[table[k].field];
      raw != "" && ChosenHeader(headers, table[k].aliases, raw)
  {
    var headerMap := HeaderMap(headers).value;
    var mapped := Resolved(table, headerMap, |table|);
    assert ResolveWith(table, headers) == Ok(mapped);
    ResolvedKeys(table, headerMap, |table|);
    ResolvedValues(table, headerMap, |table|);
    forall k | 0 <= k < |table|
      ensures table[k].field in mapped
      ensures mapped[table[k].field] != "" && ChosenHeader(headers, table[k].aliases, mapped[table[k].field])
    {
      FoundAliasChosen(headers, headerMap, table[k].aliases);
    }
  }

  /** The canonical fields of the alias table. */
  lemma RequiredFieldSet()
    ensures FieldSet(REQUIRED_FIELDS) == {"name", "email", "amount", "date", "payment_method"}
  {
    assert REQUIRED_FIELDS[0].field == "name" && REQUIRED_FIELDS[1].field == "email"
      && REQUIRED_FIELDS[2].field == "amount" && REQUIRED_FIELDS[3].field == "date"
      && REQUIRED_FIELDS[4].field == "payment_method";
  }

  /**
   * With its own alias table, `map_columns` succeeds exactly when no truthy
   * header is a non-string (a `None`, `""` or `0` header is dropped) and each
   * of the five fields has an alias present; the result then maps exactly
   * the five canonical fields.
   */
  lemma ResolveColumnsSpec(headers: Row)
    ensures ResolveColumns(headers).Ok? <==>
      !HasBadHeader(headers) && forall k :: 0 <= k < |REQUIRED_FIELDS| ==> AliasPresent(REQUIRED_FIELDS, headers, k)
    ensures !HasBadHeader(headers) && UnmappedFields(REQUIRED_FIELDS, headers, 0) != [] ==>
      ResolveColumns(headers) == Err(MissingColumns(UnmappedFields(REQUIRED_FIELDS, headers, 0)))
    ensures ResolveColumns(headers).Ok? ==>
      ResolveColumns(headers).value.Keys == {"name", "email", "amount", "date", "payment_method"}
  {
    RequiredFieldsDistinct();
    MapColumnsOutcome(REQUIRED_FIELDS, headers);
    if ResolveColumns(headers).Ok? {
      MapColumnsKeys(REQUIRED_FIELDS, headers);
      RequiredFieldSet();
    }
  }
}

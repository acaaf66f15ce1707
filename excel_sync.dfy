/** The spreadsheet-to-registry import (`ExcelSyncService`): choose the sheet, find the header
    row among the first ten rows, map the three basic columns by substring variants, collect
    every other named column as an extra, read one company per row with a code, and upsert the
    companies into the `companies` and `companies_data` tables.

    A sheet is what `pd.read_excel(..., header=None)` yields: rows of cells, a cell being `None`
    for NaN or `Some(str(value))`. */
module ExcelSync {
  import opened Common
  import opened Registry

  type Cell = Option<string>
  type Row = seq<Cell>
  type Sheet = seq<Row>

  const NoSheetMessage := "list index out of range"
  const NoHeaderMessage := "Não foi possível encontrar linha de cabeçalhos no Excel"
  const NoCodMessage := "Coluna de código não encontrada no Excel. Verifique o formato do arquivo."

  /** `any(w in s for w in words)` */
  predicate AnyContained(s: string, words: seq<string>)
  {
    exists k :: 0 <= k < |words| && Contains(s, words[k])
  }

  /** The `for w in words: if w in s: ...; break` search. */
  method FindAny(s: string, words: seq<string>) returns (found: bool)
    ensures found <==> AnyContained(s, words)
  {
    found := false;
    for i := 0 to |words|
      invariant !found
      invariant forall k :: 0 <= k < i ==> !Contains(s, words[k])
    {
      if Contains(s, words[i]) {
        found := true;
        return;
      }
    }
  }

  // ------------------------------------------------------------------------------------------
  // Sheet choice
  // ------------------------------------------------------------------------------------------

  const PreferredSheet := "Clientes"

  predicate NamesClients(name: string)
  {
    Contains(Lower(name), "client")
  }

  predicate NamesCompanyData(name: string)
  {
    AnyContained(Lower(name), ["empresa", "dados"])
  }

  /** 'Clientes' if present, else the first sheet naming clients, else the first naming company
      data, else the first sheet; nothing for a workbook without sheets. */
  function SheetChoice(names: seq<string>): (r: Option<string>)
    ensures r.None? <==> |names| == 0
    ensures r.Some? ==> r.value in names
  {
    if PreferredSheet in names then Some(PreferredSheet)
    else
      match FirstWhere(names, NamesClients)
      case Some(i) => Some(names[i])
      case None =>
        match FirstWhere(names, NamesCompanyData)
        case Some(i) => Some(names[i])
        case None => if |names| > 0 then Some(names[0]) else None
  }

  /** The first index satisfying `p`, found by a loop that stops at the first hit. */
  method FirstIndex(names: seq<string>, p: string -> bool) returns (r: Option<nat>)
    ensures r == FirstWhere(names, p)
  {
    r := None;
    var i := 0;
    while i < |names|
      invariant i <= |names|
      invariant forall j :: 0 <= j < i ==> !p(names[j])
    {
      if p(names[i]) {
        r := Some(i);
        FirstWhereAt(names, p, i);
        return;
      }
      i := i + 1;
    }
  }

  /** Lines 154-175: the sheet to read; an empty workbook fails on `sheet_names[0]`. */
  method ChooseSheet(names: seq<string>) returns (r: Result<string>)
    ensures r.Ok? <==> |names| > 0
    ensures r.Ok? ==> Some(r.value) == SheetChoice(names)
    ensures r.Err? ==> r.message == NoSheetMessage
  {
    var target: Option<string> := None;
    if PreferredSheet in names {
      target := Some(PreferredSheet);
    } else {
      var client := FirstIndex(names, NamesClients);
      if client.Some? {
        target := Some(names[client.value]);
      } else {
        var other := FirstIndex(names, NamesCompanyData);
        if other.Some? {
          target := Some(names[other.value]);
        }
      }
    }
    if target.None? {
      if |names| == 0 {
        return Err(NoSheetMessage);
      }
      target := Some(names[0]);
    }
    r := Ok(target.value);
  }

  /** The chosen sheet is 'Clientes' whenever it exists, and otherwise no earlier sheet names
      clients; a sheet naming clients always beats one that only names company data. */
  lemma SheetChoicePriority(names: seq<string>, i: nat)
    requires i < |names|
    ensures PreferredSheet in names ==> SheetChoice(names) == Some(PreferredSheet)
    ensures PreferredSheet !in names && NamesClients(names[i]) ==>
              SheetChoice(names).value in names[..i + 1] && NamesClients(SheetChoice(names).value)
  {
    if PreferredSheet !in names && NamesClients(names[i]) {
      var f := FirstWhere(names, NamesClients);
      assert f.Some? && f.value <= i;
      assert names[..i + 1][f.value] == names[f.value];
    }
  }

  /** The four tiers of the choice, each picking the first sheet of its tier: 'Clientes'; else
      the first name containing 'client'; else the first containing 'empresa' or 'dados'; else
      the first sheet. */
  lemma SheetChoiceTiers(names: seq<string>, i: nat)
    requires i < |names|
    ensures PreferredSheet !in names && NamesClients(names[i])
              && (forall j :: 0 <= j < i ==> !NamesClients(names[j])) ==>
              SheetChoice(names) == Some(names[i])
    ensures PreferredSheet !in names && (forall j :: 0 <= j < |names| ==> !NamesClients(names[j]))
              && NamesCompanyData(names[i]) && (forall j :: 0 <= j < i ==> !NamesCompanyData(names[j])) ==>
              SheetChoice(names) == Some(names[i])
    ensures PreferredSheet !in names && (forall j :: 0 <= j < |names| ==> !NamesClients(names[j]))
              && (forall j :: 0 <= j < |names| ==> !NamesCompanyData(names[j])) ==>
              SheetChoice(names) == Some(names[0])
  {
    if PreferredSheet !in names {
      if NamesClients(names[i]) && (forall j :: 0 <= j < i ==> !NamesClients(names[j])) {
        FirstWhereAt(names, NamesClients, i);
      }
      if NamesCompanyData(names[i]) && (forall j :: 0 <= j < i ==> !NamesCompanyData(names[j])) {
        FirstWhereAt(names, NamesCompanyData, i);
      }
    }
  }

  // ------------------------------------------------------------------------------------------
  // Header row
  // ------------------------------------------------------------------------------------------

  /** The headers whose presence marks the header row (`basic_columns`). */
  const BasicColumns: seq<string> := ["Código Domínio", "Nome Fantasia", "Grupo"]

  /** `[str(v) for v in row_values if pd.notna(v)]` */
  function NonNullTexts(row: Row): (r: seq<string>)
    ensures |r| <= |row|
  {
    if |row| == 0 then []
    else if row[0].Some? then [row[0].value] + NonNullTexts(row[1..])
    else NonNullTexts(row[1..])
  }

  function RowText(row: Row): string
  {
    Join(" ", NonNullTexts(row))
  }

  /** How many of `names` occur in `s` (`found_basic`). */
  function CountFound(s: string, names: seq<string>): nat
    decreases |names|
  {
    if |names| == 0 then 0
    else CountFound(s, names[..|names| - 1]) + (if Contains(s, names[|names| - 1]) then 1 else 0)
  }

  predicate IsHeaderRow(row: Row)
  {
    CountFound(RowText(row), BasicColumns) >= 2
  }

  lemma CountFoundThree(s: string, a: string, b: string, c: string)
    ensures CountFound(s, [a, b, c]) ==
      (if Contains(s, a) then 1 else 0) + (if Contains(s, b) then 1 else 0) + (if Contains(s, c) then 1 else 0)
  {
    var abc := [a, b, c];
    assert abc[..2] == [a, b];
    assert [a, b][..1] == [a];
    assert [a][..0] == [];
    assert CountFound(s, [a]) == CountFound(s, []) + (if Contains(s, a) then 1 else 0);
    assert CountFound(s, [a, b]) == CountFound(s, [a]) + (if Contains(s, b) then 1 else 0);
    assert CountFound(s, abc) == CountFound(s, [a, b]) + (if Contains(s, c) then 1 else 0);
  }

  /** A header row is one whose text holds at least two of the three basic column names. */
  lemma HeaderRowMeaning(row: Row)
    ensures IsHeaderRow(row) <==>
      var s := RowText(row);
      (Contains(s, BasicColumns[0]) && Contains(s, BasicColumns[1]))
      || (Contains(s, BasicColumns[0]) && Contains(s, BasicColumns[2]))
      || (Contains(s, BasicColumns[1]) && Contains(s, BasicColumns[2]))
  {
    var names := BasicColumns;
    assert names == [names[0], names[1], names[2]];
    CountFoundThree(RowText(row), names[0], names[1], names[2]);
  }

  /** The first row, among the first ten, that is a header row. */
  function HeaderRowOf(sheet: Sheet): Option<nat>
  {
    FirstWhere(sheet[..if |sheet| < 10 then |sheet| else 10], IsHeaderRow)
  }

  method CountBasicColumns(s: string) returns (found: nat)
    ensures found == CountFound(s, BasicColumns)
  {
    var names := BasicColumns;
    found := 0;
    for i := 0 to |names|
      invariant found == CountFound(s, names[..i])
    {
      assert names[..i + 1][..i] == names[..i];
      if Contains(s, names[i]) {
        found := found + 1;
      }
    }
    assert names[..|names|] == names;
  }

  /** Lines 189-213: scan the first `min(10, len(df))` rows and stop at the first header row. */
  method FindHeaderRow(sheet: Sheet) returns (r: Option<nat>)
    ensures r == HeaderRowOf(sheet)
    ensures r.Some? ==> r.value < 10 && r.value < |sheet| && IsHeaderRow(sheet[r.value])
    ensures r.Some? ==> forall j :: 0 <= j < r.value ==> !IsHeaderRow(sheet[j])
    ensures r.None? ==> forall j :: 0 <= j < |sheet| && j < 10 ==> !IsHeaderRow(sheet[j])
  {
    var limit := if |sheet| < 10 then |sheet| else 10;
    var prefix := sheet[..limit];
    r := None;
    var i := 0;
    while i < limit
      invariant i <= limit
      invariant forall j :: 0 <= j < i ==> !IsHeaderRow(prefix[j])
    {
      var rowStr := RowText(sheet[i]);
      var found := CountBasicColumns(rowStr);
      if found >= 2 {
        r := Some(i);
        assert prefix[i] == sheet[i];
        FirstWhereAt(prefix, IsHeaderRow, i);
        forall j | 0 <= j < i ensures !IsHeaderRow(sheet[j]) {
          assert prefix[j] == sheet[j];
        }
        return;
      }
      i := i + 1;
    }
    forall j | 0 <= j < |sheet| && j < 10 ensures !IsHeaderRow(sheet[j]) {
      assert prefix[j] == sheet[j];
    }
  }

  // ------------------------------------------------------------------------------------------
  // Basic columns: the first header containing one of the field's variants
  // ------------------------------------------------------------------------------------------

  datatype Field = Cod | Name | GroupName

  /** `basic_variants`, in its declaration order. */
  const AllFields: seq<Field> := [Cod, Name, GroupName]

  function Variants(f: Field): seq<string>
  {
    match f
    case Cod => ["código domínio", "codigo dominio", "código", "codigo", "cod", "id"]
    case Name => ["nome fantasia", "nome empresa", "empresa", "razão social", "razao social", "name"]
    case GroupName => ["grupo", "group", "nome grupo", "grupo empresa"]
  }

  /** The header cell, stripped and lower-cased, contains one of the field's variants. */
  predicate MatchesCell(cell: Cell, f: Field)
  {
    cell.Some? && AnyContained(Lower(Strip(cell.value)), Variants(f))
  }

  /** The basic fields whose variants occur in a stripped, lower-cased header. */
  function TextFields(headerStr: string): set<Field>
  {
    (if AnyContained(headerStr, Variants(Cod)) then {Cod} else {})
    + (if AnyContained(headerStr, Variants(Name)) then {Name} else {})
    + (if AnyContained(headerStr, Variants(GroupName)) then {GroupName} else {})
  }

  /** The basic fields a header cell matches. */
  function FieldsMatched(cell: Cell): set<Field>
  {
    if cell.None? then {} else TextFields(Lower(Strip(cell.value)))
  }

  lemma TextFieldsMeaning(headerStr: string, f: Field)
    ensures f in TextFields(headerStr) <==> AnyContained(headerStr, Variants(f))
  {
  }

  lemma FieldsMatchedMeaning(cell: Cell, f: Field)
    ensures f in FieldsMatched(cell) <==> MatchesCell(cell, f)
  {
    if cell.Some? {
      TextFieldsMeaning(Lower(Strip(cell.value)), f);
    }
  }

  function Hits(headers: Row): (r: seq<set<Field>>)
    ensures |r| == |headers|
  {
    seq(|headers|, i requires 0 <= i < |headers| => FieldsMatched(headers[i]))
  }

  /** One pass of the inner loop over the fields for header `i`: a field not yet mapped takes
      column `i` when the header matches it. */
  function Claim(m: map<Field, nat>, fields: seq<Field>, hit: set<Field>, i: nat): map<Field, nat>
    decreases |fields|
  {
    if |fields| == 0 then m
    else
      var m' := Claim(m, fields[..|fields| - 1], hit, i);
      var f := fields[|fields| - 1];
      if f !in m' && f in hit then m'[f := i] else m'
  }

  /** `basic_col_indices` after the first `n` headers, given the fields each header matches. */
  function BasicUpTo(hits: seq<set<Field>>, n: nat): map<Field, nat>
    requires n <= |hits|
  {
    if n == 0 then map[] else Claim(BasicUpTo(hits, n - 1), AllFields, hits[n - 1], n - 1)
  }

  function BasicColumnsOf(headers: Row): map<Field, nat>
  {
    BasicUpTo(Hits(headers), |headers|)
  }

  /** One field's step of `Claim`. */
  function ClaimOne(m: map<Field, nat>, f: Field, hit: set<Field>, i: nat): map<Field, nat>
  {
    if f !in m && f in hit then m[f := i] else m
  }

  lemma ClaimAll(m: map<Field, nat>, hit: set<Field>, i: nat)
    ensures forall f :: f in Claim(m, AllFields, hit, i) <==> f in m || f in hit
    ensures forall f :: f in m ==> Claim(m, AllFields, hit, i)[f] == m[f]
    ensures forall f :: f !in m && f in hit ==> Claim(m, AllFields, hit, i)[f] == i
  {
    var one, two, three := [Cod], [Cod, Name], [Cod, Name, GroupName];
    assert one[..0] == [] && two[..1] == one && three[..2] == two;
    var m1 := ClaimOne(m, Cod, hit, i);
    assert Claim(m, one, hit, i) == m1;
    var m2 := ClaimOne(m1, Name, hit, i);
    assert Claim(m, two, hit, i) == m2;
    var m3 := ClaimOne(m2, GroupName, hit, i);
    assert Claim(m, three, hit, i) == m3;
    assert AllFields == three;
    forall f ensures (f in m3 <==> f in m || f in hit) && (f !in m && f in hit ==> m3[f] == i) {
      match f
      case Cod => assert Cod in m1 <==> Cod in m || Cod in hit;
      case Name => assert Name in m2 <==> Name in m || Name in hit;
      case GroupName =>
    }
  }

  /** A header that matches no field claims nothing. */
  lemma ClaimNothing(m: map<Field, nat>, i: nat)
    ensures Claim(m, AllFields, {}, i) == m
  {
    ClaimAll(m, {}, i);
  }

  lemma {:induction false} BasicUpToFirst(hits: seq<set<Field>>, n: nat, f: Field)
    requires n <= |hits|
    ensures f in BasicUpTo(hits, n) <==> exists j :: 0 <= j < n && f in hits[j]
    ensures f in BasicUpTo(hits, n) ==>
              var c := BasicUpTo(hits, n)[f];
              c < n && f in hits[c] && forall j :: 0 <= j < c ==> f !in hits[j]
  {
    if n > 0 {
      BasicUpToFirst(hits, n - 1, f);
      ClaimAll(BasicUpTo(hits, n - 1), hits[n - 1], n - 1);
    }
  }

  /** Each field maps to the lowest-index header that matches one of its variants, and a field
      is mapped exactly when some header matches it. */
  lemma BasicColumnsFirstMatch(headers: Row, f: Field)
    ensures f in BasicColumnsOf(headers) <==> exists j :: 0 <= j < |headers| && MatchesCell(headers[j], f)
    ensures f in BasicColumnsOf(headers) ==>
              var c := BasicColumnsOf(headers)[f];
              c < |headers| && MatchesCell(headers[c], f) && forall j :: 0 <= j < c ==> !MatchesCell(headers[j], f)
  {
    var hits := Hits(headers);
    BasicUpToFirst(hits, |headers|, f);
    forall j | 0 <= j < |headers| ensures f in hits[j] <==> MatchesCell(headers[j], f) {
      FieldsMatchedMeaning(headers[j], f);
    }
  }

  /** Lines 240-247: for one header, each field not yet mapped takes this column when one of
      its variants occurs in the header. */
  method ClaimColumn(basic: map<Field, nat>, headerStr: string, i: nat) returns (out: map<Field, nat>)
    ensures out == Claim(basic, AllFields, TextFields(headerStr), i)
  {
    out := basic;
    var fields := AllFields;
    for k := 0 to |fields|
      invariant out == Claim(basic, fields[..k], TextFields(headerStr), i)
    {
      assert fields[..k + 1][..k] == fields[..k];
      var field := fields[k];
      if field !in out {
        var found := FindAny(headerStr, Variants(field));
        TextFieldsMeaning(headerStr, field);
        if found {
          out := out[field := i];
        }
      }
    }
    assert fields[..|fields|] == fields;
  }

  /** Lines 230-247: the header loop, skipping null headers. */
  method MapBasicColumns(headers: Row) returns (basic: map<Field, nat>)
    ensures basic == BasicColumnsOf(headers)
  {
    basic := map[];
    ghost var hits := Hits(headers);
    for i := 0 to |headers|
      invariant basic == BasicUpTo(hits, i)
    {
      assert hits[i] == FieldsMatched(headers[i]);
      if headers[i].None? {
        ClaimNothing(basic, i);
      } else {
        var headerStr := Lower(Strip(headers[i].value));
        basic := ClaimColumn(basic, headerStr, i);
      }
    }
  }

  // ------------------------------------------------------------------------------------------
  // Extra columns: every other named header, a repeated name keeping its last index
  // ------------------------------------------------------------------------------------------

  predicate IsExtraColumn(headers: Row, basic: map<Field, nat>, i: nat)
  {
    && i < |headers|
    && headers[i].Some?
    && i !in basic.Values
    && NamedHeader(Strip(headers[i].value))
  }

  /** Neither empty nor a placeholder name pandas gives to unnamed or missing headers. */
  predicate NamedHeader(s: string)
  {
    s != "" && !LowerEquals(s, "unnamed") && !LowerEquals(s, "nan")
  }

  /** `s.lower() == t`, compared character by character. */
  predicate LowerEquals(s: string, t: string)
    decreases |s|
  {
    |s| == |t| && (|s| == 0 || (LowerChar(s[0]) == t[0] && LowerEquals(s[1..], t[1..])))
  }

  lemma {:induction false} LowerEqualsMeaning(s: string, t: string)
    ensures LowerEquals(s, t) <==> Lower(s) == t
    decreases |s|
  {
    if |s| == |t| && |s| > 0 {
      LowerEqualsMeaning(s[1..], t[1..]);
      assert Lower(s) == [LowerChar(s[0])] + Lower(s[1..]);
      assert t == [t[0]] + t[1..];
    }
  }

  function HeaderName(headers: Row, i: nat): string
    requires i < |headers| && headers[i].Some?
  {
    Strip(headers[i].value)
  }

  /** The name each header contributes as an extra column, if any. */
  function ExtraNames(headers: Row, basic: map<Field, nat>): (r: seq<Option<string>>)
    ensures |r| == |headers|
  {
    seq(|headers|, i requires 0 <= i < |headers| =>
      if IsExtraColumn(headers, basic, i) then Some(HeaderName(headers, i)) else None)
  }

  /** A dictionary filled by `d[key] = i` over the first `n` positions that carry a key, so that
      a repeated key keeps its last position. */
  function LastIndices<K(==)>(keys: seq<Option<K>>, n: nat): map<K, nat>
    requires n <= |keys|
  {
    if n == 0 then map[]
    else
      var m := LastIndices(keys, n - 1);
      if keys[n - 1].Some? then m[keys[n - 1].value := n - 1] else m
  }

  /** One more position: its key, if any, now maps to it. */
  lemma LastIndicesStep<K>(keys: seq<Option<K>>, n: nat)
    requires n < |keys|
    ensures LastIndices(keys, n + 1)
         == if keys[n].Some? then LastIndices(keys, n)[keys[n].value := n] else LastIndices(keys, n)
  {
  }

  function ExtraColumnsOf(headers: Row, basic: map<Field, nat>): map<string, nat>
  {
    LastIndices(ExtraNames(headers, basic), |headers|)
  }

  /** A key is present exactly when some position carries it, and it holds the last such
      position. */
  lemma {:induction false} LastIndicesFor<K>(keys: seq<Option<K>>, n: nat, key: K)
    requires n <= |keys|
    ensures key in LastIndices(keys, n) <==> exists j :: 0 <= j < n && keys[j] == Some(key)
    ensures key in LastIndices(keys, n) ==>
              var c := LastIndices(keys, n)[key];
              c < n && keys[c] == Some(key) && forall j :: c < j < n ==> keys[j] != Some(key)
  {
    if n > 0 {
      LastIndicesFor(keys, n - 1, key);
    }
  }

  /** The extra columns are named by exactly the extra headers, each name bound to the last
      extra header that carries it. */
  lemma ExtraColumnsExact(headers: Row, basic: map<Field, nat>, name: string)
    ensures name in ExtraColumnsOf(headers, basic) <==>
              exists j :: 0 <= j < |headers| && IsExtraColumn(headers, basic, j) && HeaderName(headers, j) == name
    ensures name in ExtraColumnsOf(headers, basic) ==>
              var c := ExtraColumnsOf(headers, basic)[name];
              && c < |headers| && IsExtraColumn(headers, basic, c) && HeaderName(headers, c) == name
              && forall j :: c < j < |headers| && IsExtraColumn(headers, basic, j) ==> HeaderName(headers, j) != name
  {
    var names := ExtraNames(headers, basic);
    LastIndicesFor(names, |headers|, name);
    assert forall j :: 0 <= j < |headers| ==>
      (names[j] == Some(name) <==> IsExtraColumn(headers, basic, j) && HeaderName(headers, j) == name);
  }

  /** Lines 255-268 for one header: the stripped name it contributes as an extra column, if any. */
  method ExtraNameAt(headers: Row, basic: map<Field, nat>, i: nat) returns (name: Option<string>)
    requires i < |headers|
    ensures name == ExtraNames(headers, basic)[i]
  {
    name := None;
    if headers[i].None? {
      return;
    }
    var headerStr := Strip(headers[i].value);
    if i in basic.Values {
      return;
    }
    if !NamedHeader(headerStr) {
      return;
    }
    name := Some(headerStr);
  }

  /** Lines 252-270. */
  method ExtraColumns(headers: Row, basic: map<Field, nat>) returns (extras: map<string, nat>)
    ensures extras == ExtraColumnsOf(headers, basic)
  {
    extras := map[];
    ghost var names := ExtraNames(headers, basic);
    for i := 0 to |headers|
      invariant extras == LastIndices(names, i)
    {
      var name := ExtraNameAt(headers, basic, i);
      LastIndicesStep(names, i);
      if name.Some? {
        extras := extras[name.value := i];
      }
    }
  }

  // ------------------------------------------------------------------------------------------
  // Rows
  // ------------------------------------------------------------------------------------------

  /** One company dictionary: the stripped code, the optional basic fields and `extra_data`. */
  datatype Company = Company(cod: string, name: Option<string>, groupName: Option<string>,
                             extra: map<string, Option<string>>)

  /** `company.get(field)`: the stripped cell, or None when the column is unmapped, out of
      range or NaN. */
  function BasicValue(row: Row, basic: map<Field, nat>, f: Field): Option<string>
  {
    if f in basic && basic[f] < |row| && row[basic[f]].Some? then Some(Strip(row[basic[f]].value))
    else None
  }

  /** An extra cell: its stripped text, or None when it is NaN or blank. */
  function ExtraValue(cell: Cell): Option<string>
  {
    if cell.Some? && Strip(cell.value) != "" then Some(Strip(cell.value)) else None
  }

  /** `extra_data`: every extra column within the row's length. */
  function ExtraData(row: Row, extras: map<string, nat>): map<string, Option<string>>
  {
    map name | name in extras && extras[name] < |row| :: ExtraValue(row[extras[name]])
  }

  /** The company a row yields, if any. */
  function CompanyOf(row: Row, basic: map<Field, nat>, extras: map<string, nat>): (r: Option<Company>)
    requires Cod in basic
    ensures r.Some? ==> Strip(r.value.cod) != ""
  {
    var k := basic[Cod];
    if k >= |row| || row[k].None? || Strip(row[k].value) == "" then None
    else
      var c := Company(Strip(row[k].value), BasicValue(row, basic, Name), BasicValue(row, basic, GroupName),
                       ExtraData(row, extras));
      if Strip(c.cod) != "" then Some(c) else None
  }

  /** What each row yields. */
  function Yields(rows: seq<Row>, basic: map<Field, nat>, extras: map<string, nat>): (ys: seq<Option<Company>>)
    requires Cod in basic
    ensures |ys| == |rows|
  {
    seq(|rows|, i requires 0 <= i < |rows| => CompanyOf(rows[i], basic, extras))
  }

  /** The present values, in order. */
  function Somes<T>(ys: seq<Option<T>>): (r: seq<T>)
    ensures |r| <= |ys|
    decreases |ys|
  {
    if |ys| == 0 then []
    else
      var last := ys[|ys| - 1];
      Somes(ys[..|ys| - 1]) + (if last.Some? then [last.value] else [])
  }

  lemma SomesSnoc<T>(ys: seq<Option<T>>, k: nat)
    requires k < |ys|
    ensures Somes(ys[..k + 1]) == Somes(ys[..k]) + (if ys[k].Some? then [ys[k].value] else [])
  {
    assert ys[..k + 1][..k] == ys[..k];
  }

  lemma {:induction false} SomesConcat<T>(a: seq<Option<T>>, b: seq<Option<T>>)
    ensures Somes(a + b) == Somes(a) + Somes(b)
    decreases |b|
  {
    if |b| == 0 {
      assert a + b == a;
    } else {
      var n := |b| - 1;
      assert (a + b)[..|a + b| - 1] == a + b[..n];
      SomesConcat(a, b[..n]);
    }
  }

  /** A value is kept exactly when some position holds it. */
  lemma {:induction false} SomesMembers<T>(ys: seq<Option<T>>)
    ensures forall x :: x in Somes(ys) <==> exists j :: 0 <= j < |ys| && ys[j] == Some(x)
    decreases |ys|
  {
    if |ys| > 0 {
      var n := |ys| - 1;
      SomesMembers(ys[..n]);
      assert forall j :: 0 <= j < n ==> ys[..n][j] == ys[j];
    }
  }

  /** The companies of the data rows, in row order. */
  function Extracted(rows: seq<Row>, basic: map<Field, nat>, extras: map<string, nat>): (r: seq<Company>)
    requires Cod in basic
    ensures |r| <= |rows|
  {
    Somes(Yields(rows, basic, extras))
  }

  /** The companies read are exactly those some row yields, and every one has a code that is not
      blank once stripped. */
  lemma ExtractedMembers(rows: seq<Row>, basic: map<Field, nat>, extras: map<string, nat>)
    requires Cod in basic
    ensures forall c :: c in Extracted(rows, basic, extras) <==>
      exists j :: 0 <= j < |rows| && CompanyOf(rows[j], basic, extras) == Some(c)
    ensures forall c :: c in Extracted(rows, basic, extras) ==> Strip(c.cod) != ""
  {
    var ys := Yields(rows, basic, extras);
    SomesMembers(ys);
    assert forall j :: 0 <= j < |rows| ==> ys[j] == CompanyOf(rows[j], basic, extras);
  }

  /** Extraction works row by row: the companies of two runs of rows are those of the first run
      followed by those of the second, so row order is kept. */
  lemma ExtractedConcat(a: seq<Row>, b: seq<Row>, basic: map<Field, nat>, extras: map<string, nat>)
    requires Cod in basic
    ensures Extracted(a + b, basic, extras) == Extracted(a, basic, extras) + Extracted(b, basic, extras)
  {
    var ya, yb := Yields(a, basic, extras), Yields(b, basic, extras);
    assert Yields(a + b, basic, extras) == ya + yb by {
      forall i | 0 <= i < |a + b| ensures Yields(a + b, basic, extras)[i] == (ya + yb)[i] {
        if i < |a| {
          assert (a + b)[i] == a[i];
        } else {
          assert (a + b)[i] == b[i - |a|];
        }
      }
    }
    SomesConcat(ya, yb);
  }

  /** Lines 306-317: fill `extra_data` by walking the extra columns. */
  method ExtraDataOf(row: Row, extras: map<string, nat>) returns (data: map<string, Option<string>>)
    ensures data == ExtraData(row, extras)
  {
    data := map[];
    var todo := extras.Keys;
    while todo != {}
      invariant todo <= extras.Keys
      invariant forall name :: name in data <==> name in extras && name !in todo && extras[name] < |row|
      invariant forall name :: name in data ==> data[name] == ExtraValue(row[extras[name]])
      decreases |todo|
    {
      var name :| name in todo;
      var colIdx := extras[name];
      if colIdx < |row| {
        var cell := row[colIdx];
        if cell.Some? && Strip(cell.value) != "" {
          data := data[name := Some(Strip(cell.value))];
        } else {
          data := data[name := None];
        }
      }
      todo := todo - {name};
    }
    assert data == ExtraData(row, extras);
  }

  /** Lines 293-328: the company one data row yields, if its code cell is present and not blank. */
  method ReadRow(row: Row, basic: map<Field, nat>, extras: map<string, nat>) returns (r: Option<Company>)
    requires Cod in basic
    ensures r == CompanyOf(row, basic, extras)
  {
    var codColIdx := basic[Cod];
    if codColIdx >= |row| {
      return None;
    }
    var codValue := row[codColIdx];
    if codValue.None? || Strip(codValue.value) == "" {
      return None;
    }
    var extra := ExtraDataOf(row, extras);
    var company := Company(Strip(codValue.value), BasicValue(row, basic, Name),
                           BasicValue(row, basic, GroupName), extra);
    if Strip(company.cod) != "" {
      r := Some(company);
    } else {
      r := None;
    }
  }

  /** Lines 289-333: read the rows after the header row. */
  method ExtractCompanies(sheet: Sheet, headerRow: nat, basic: map<Field, nat>, extras: map<string, nat>)
    returns (companies: seq<Company>)
    requires Cod in basic && headerRow < |sheet|
    ensures companies == Extracted(sheet[headerRow + 1..], basic, extras)
  {
    companies := [];
    ghost var ys := Yields(sheet[headerRow + 1..], basic, extras);
    for idx := headerRow + 1 to |sheet|
      invariant companies == Somes(ys[..idx - headerRow - 1])
    {
      var company := ReadRow(sheet[idx], basic, extras);
      assert sheet[headerRow + 1..][idx - headerRow - 1] == sheet[idx];
      assert ys[idx - headerRow - 1] == company;
      SomesSnoc(ys, idx - headerRow - 1);
      if company.Some? {
        companies := companies + [company.value];
      }
    }
    assert ys[..|sheet| - headerRow - 1] == ys;
  }

  // ------------------------------------------------------------------------------------------
  // The whole read
  // ------------------------------------------------------------------------------------------

  /** What reading the workbook yields: the companies of the chosen sheet, or the error raised. */
  function Processed(names: seq<string>, sheets: map<string, Sheet>): Result<seq<Company>>
    requires forall n :: n in names ==> n in sheets
  {
    match SheetChoice(names)
    case None => Err(NoSheetMessage)
    case Some(target) =>
      var sheet := sheets[target];
      match HeaderRowOf(sheet)
      case None => Err(NoHeaderMessage)
      case Some(h) =>
        var basic := BasicColumnsOf(sheet[h]);
        if Cod !in basic then Err(NoCodMessage)
        else Ok(Extracted(sheet[h + 1..], basic, ExtraColumnsOf(sheet[h], basic)))
  }

  /** `_process_excel_content` (lines 144-345) on a workbook given as its sheet names and the
      sheets themselves. */
  method ProcessExcelContent(names: seq<string>, sheets: map<string, Sheet>) returns (r: Result<seq<Company>>)
    requires forall n :: n in names ==> n in sheets
    ensures r == Processed(names, sheets)
  {
    var target := ChooseSheet(names);
    if target.Err? {
      return Err(target.message);
    }
    var sheet := sheets[target.value];
    var headerRow := FindHeaderRow(sheet);
    if headerRow.None? {
      return Err(NoHeaderMessage);
    }
    var headers := sheet[headerRow.value];
    var basic := MapBasicColumns(headers);
    var extras := ExtraColumns(headers, basic);
    if Cod !in basic {
      return Err(NoCodMessage);
    }
    var companies := ExtractCompanies(sheet, headerRow.value, basic, extras);
    r := Ok(companies);
  }

  /** Without a mapped code column the read fails, whatever the data rows hold; with one, every
      company has a non-blank code and there are no more companies than data rows. */
  lemma ProcessedOutcome(names: seq<string>, sheets: map<string, Sheet>)
    requires forall n :: n in names ==> n in sheets
    ensures |names| == 0 ==> Processed(names, sheets) == Err(NoSheetMessage)
    ensures Processed(names, sheets).Ok? ==>
              var sheet := sheets[SheetChoice(names).value];
              var h := HeaderRowOf(sheet).value;
              && h < |sheet| && IsHeaderRow(sheet[h])
              && (exists j :: 0 <= j < |sheet[h]| && MatchesCell(sheet[h][j], Cod))
              && |Processed(names, sheets).value| < |sheet| - h
              && forall c :: c in Processed(names, sheets).value ==> Strip(c.cod) != ""
  {
    if Processed(names, sheets).Ok? {
      var sheet := sheets[SheetChoice(names).value];
      var h := HeaderRowOf(sheet).value;
      var basic := BasicColumnsOf(sheet[h]);
      BasicColumnsFirstMatch(sheet[h], Cod);
      ExtractedMembers(sheet[h + 1..], basic, ExtraColumnsOf(sheet[h], basic));
    }
  }

  // ------------------------------------------------------------------------------------------
  // Similar strings
  // ------------------------------------------------------------------------------------------

  /** Python's `\w` on the characters a header can carry: ASCII letters, digits and '_', the
      Latin-1 letters and digit signs, and every character beyond Latin-1. */
  predicate IsWordChar(c: char)
  {
    ('a' <= c <= 'z') || ('A' <= c <= 'Z') || ('0' <= c <= '9') || c == '_'
    || c == '\U{AA}' || c == '\U{B2}' || c == '\U{B3}' || c == '\U{B5}' || c == '\U{B9}' || c == '\U{BA}'
    || ('\U{BC}' <= c <= '\U{BE}')
    || ('\U{C0}' <= c <= '\U{FF}' && c != '\U{D7}' && c != '\U{F7}')
    || c > '\U{FF}'
  }

  /** `re.sub(r'[^\w]', '', s)` */
  function WordChars(s: string): (r: string)
    ensures |r| <= |s|
    ensures forall k :: 0 <= k < |r| ==> IsWordChar(r[k])
  {
    if |s| == 0 then ""
    else if IsWordChar(s[0]) then [s[0]] + WordChars(s[1..])
    else WordChars(s[1..])
  }

  function Clean(s: string): string
  {
    WordChars(Lower(s))
  }

  lemma RatioAtLeast(x: nat, y: nat)
    requires 0 < y
    ensures (x as real) / (y as real) >= 0.75 <==> 4 * x >= 3 * y
  {
    var q := (x as real) / (y as real);
    assert q * (y as real) == x as real;
    if 4 * x >= 3 * y {
      assert (4 * x) as real >= (3 * y) as real;
    }
  }

  lemma ContainsSameLength(s: string, p: string)
    requires |s| == |p|
    ensures Contains(s, p) <==> s == p
  {
    if Contains(s, p) {
      var i := ContainsOccurs(s, p);
      assert s[i..i + |p|] == s;
    } else {
      assert StartsWith(s, s);
    }
  }

  /** `_similar_strings`: both cleaned strings are non-empty, the shorter is at least three
      quarters as long as the longer, and one contains the other. */
  function SimilarStrings(s1: string, s2: string): (r: bool)
    ensures r <==>
      var c1, c2 := Clean(s1), Clean(s2);
      && |c1| > 0 && |c2| > 0
      && (if |c1| > |c2| then 4 * |c2| >= 3 * |c1| else 4 * |c1| >= 3 * |c2|)
      && (Contains(c1, c2) || Contains(c2, c1))
  {
    var clean1 := Clean(s1);
    var clean2 := Clean(s2);
    if |clean1| == 0 || |clean2| == 0 then false
    else
      var longer := if |clean1| > |clean2| then clean1 else clean2;
      var shorter := if |clean1| > |clean2| then clean2 else clean1;
      RatioAtLeast(|shorter|, |longer|);
      assert Contains(shorter, longer) ==> |longer| <= |shorter| by {
        if Contains(shorter, longer) {
          ContainsLength(shorter, longer);
        }
      }
      assert |clean1| == |clean2| ==> (Contains(clean1, clean2) <==> Contains(clean2, clean1)) by {
        if |clean1| == |clean2| {
          ContainsSameLength(clean1, clean2);
          ContainsSameLength(clean2, clean1);
        }
      }
      if (|shorter| as real) / (|longer| as real) >= 0.75 then Contains(longer, shorter)
      else false
  }

  /** The similarity test does not depend on the order of its arguments. */
  lemma SimilarStringsSymmetric(s1: string, s2: string)
    ensures SimilarStrings(s1, s2) == SimilarStrings(s2, s1)
  {
  }

  // ------------------------------------------------------------------------------------------
  // Upsert into the registry
  // ------------------------------------------------------------------------------------------

  /** `json.dumps(extra_data)`, kept as the object it encodes. */
  function ExtraJson(extra: map<string, Option<string>>): map<string, JsonValue>
  {
    map k | k in extra :: if extra[k].Some? then JString(extra[k].value) else JNull
  }

  function CompanyEntries(cs: seq<Company>): (r: seq<(string, CompanyRow)>)
    ensures |r| == |cs|
  {
    seq(|cs|, i requires 0 <= i < |cs| => (cs[i].cod, CompanyRow(cs[i].name, cs[i].groupName)))
  }

  function DataEntries(cs: seq<Company>): (r: seq<(string, DataRow)>)
    ensures |r| == |cs|
  {
    seq(|cs|, i requires 0 <= i < |cs| =>
      (cs[i].cod, DataRow(cs[i].name, cs[i].groupName, Object(ExtraJson(cs[i].extra)))))
  }

  datatype SyncSummary = SyncSummary(processedCount: nat, companiesNew: nat, companiesUpdated: nat,
                                     companiesDataNew: nat, companiesDataUpdated: nat)

  lemma AppendAssoc(a: seq<string>, b: seq<string>, x: string)
    ensures (a + b) + [x] == a + (b + [x])
  {
  }

  /** `_sync_to_database` (lines 372-489). */
  method SyncToDatabase(db: Database, companies: seq<Company>) returns (s: SyncSummary)
    requires db.Valid()
    modifies db
    ensures db.Valid()
    ensures db.companiesColumns == if old(db.companiesColumns) == [] then CompaniesColumns else old(db.companiesColumns)
    ensures db.companiesDataExists
    ensures db.companies == Upserted(old(db.companies), CompanyEntries(companies))
    ensures db.companiesData == Upserted(old(db.companiesData), DataEntries(companies))
    ensures s.processedCount == |companies|
    ensures s.companiesNew == NewCount(old(db.companies), CompanyEntries(companies))
    ensures s.companiesNew + s.companiesUpdated == |companies|
    ensures db.dataOrder == old(db.dataOrder) + NewKeys(old(db.companiesData), DataEntries(companies))
    ensures s.companiesDataNew == NewCount(old(db.companiesData), DataEntries(companies))
    ensures s.companiesDataNew + s.companiesDataUpdated == |companies|
  {
    db.EnsureCompaniesTable();
    db.EnsureCompaniesDataTable();
    var ce := CompanyEntries(companies);
    var de := DataEntries(companies);
    var companiesNew, companiesUpdated, dataNew, dataUpdated := 0, 0, 0, 0;
    for i := 0 to |companies|
      invariant db.Valid() && db.companiesDataExists
      invariant db.companiesColumns == if old(db.companiesColumns) == [] then CompaniesColumns else old(db.companiesColumns)
      invariant db.companies == Upserted(old(db.companies), ce[..i])
      invariant db.companiesData == Upserted(old(db.companiesData), de[..i])
      invariant db.dataOrder == old(db.dataOrder) + NewKeys(old(db.companiesData), de[..i])
      invariant companiesNew == NewCount(old(db.companies), ce[..i]) && companiesNew + companiesUpdated == i
      invariant dataNew == NewCount(old(db.companiesData), de[..i]) && dataNew + dataUpdated == i
    {
      UpsertedStep(old(db.companies), ce, i);
      UpsertedStep(old(db.companiesData), de, i);
      var company := companies[i];
      var inserted := db.UpsertCompany(company.cod, CompanyRow(company.name, company.groupName));
      if inserted {
        companiesNew := companiesNew + 1;
      } else {
        companiesUpdated := companiesUpdated + 1;
      }
      var dataRow := DataRow(company.name, company.groupName, Object(ExtraJson(company.extra)));
      inserted := db.UpsertData(company.cod, dataRow);
      if inserted {
        AppendAssoc(old(db.dataOrder), NewKeys(old(db.companiesData), de[..i]), company.cod);
        dataNew := dataNew + 1;
      } else {
        dataUpdated := dataUpdated + 1;
      }
    }
    assert ce[..|companies|] == ce;
    assert de[..|companies|] == de;
    s := SyncSummary(|companies|, companiesNew, companiesUpdated, dataNew, dataUpdated);
  }

  function Cods(cs: seq<Company>): set<string>
  {
    set i | 0 <= i < |cs| :: cs[i].cod
  }

  lemma EntryKeys(cs: seq<Company>)
    ensures Keys(CompanyEntries(cs)) == Cods(cs) && Keys(DataEntries(cs)) == Cods(cs)
  {
    forall k | k in Cods(cs) ensures k in Keys(CompanyEntries(cs)) && k in Keys(DataEntries(cs)) {
      var i :| 0 <= i < |cs| && cs[i].cod == k;
      assert CompanyEntries(cs)[i].0 == k && DataEntries(cs)[i].0 == k;
    }
  }

  /** After the upsert a company's code holds, in both tables, the values of its last
      occurrence in the input. */
  lemma SyncedLastSeen(companies0: map<string, CompanyRow>, data0: map<string, DataRow>, cs: seq<Company>, i: nat)
    requires i < |cs| && forall j :: i < j < |cs| ==> cs[j].cod != cs[i].cod
    ensures var t := Upserted(companies0, CompanyEntries(cs));
      cs[i].cod in t && t[cs[i].cod] == CompanyRow(cs[i].name, cs[i].groupName)
    ensures var t := Upserted(data0, DataEntries(cs));
      cs[i].cod in t && t[cs[i].cod] == DataRow(cs[i].name, cs[i].groupName, Object(ExtraJson(cs[i].extra)))
  {
    UpsertedLastAt(companies0, CompanyEntries(cs), i);
    UpsertedLastAt(data0, DataEntries(cs), i);
  }

  /** Codes absent from the input keep their rows, and each insert counter counts the distinct
      input codes that were not yet in its table. */
  lemma SyncedOthersAndCounts(companies0: map<string, CompanyRow>, data0: map<string, DataRow>, cs: seq<Company>)
    ensures forall k :: k in companies0 && k !in Cods(cs) ==>
              var t := Upserted(companies0, CompanyEntries(cs)); k in t && t[k] == companies0[k]
    ensures forall k :: k in data0 && k !in Cods(cs) ==>
              var t := Upserted(data0, DataEntries(cs)); k in t && t[k] == data0[k]
    ensures NewCount(companies0, CompanyEntries(cs)) == |Cods(cs) - companies0.Keys|
    ensures NewCount(data0, DataEntries(cs)) == |Cods(cs) - data0.Keys|
  {
    EntryKeys(cs);
    UpsertedContents(companies0, CompanyEntries(cs));
    UpsertedContents(data0, DataEntries(cs));
    NewCountDistinct(companies0, CompanyEntries(cs));
    NewCountDistinct(data0, DataEntries(cs));
  }

  /** The documented header names, read by the flexible mapping, land on their documented
      fields. */
  lemma DocumentedHeadersRecognised()
    ensures MatchesCell(Some("Código Domínio"), Cod)
    ensures MatchesCell(Some("Nome Fantasia"), Name)
    ensures MatchesCell(Some("Grupo"), GroupName)
  {
    var cod, name, group := "Código Domínio", "Nome Fantasia", "Grupo";
    StripUnchanged(cod);
    StripUnchanged(name);
    StripUnchanged(group);
    assert Lower(cod) == Variants(Cod)[0];
    assert Lower(name) == Variants(Name)[0];
    assert Lower(group) == Variants(GroupName)[0];
    assert StartsWith(Lower(cod), Variants(Cod)[0]);
    assert StartsWith(Lower(name), Variants(Name)[0]);
    assert StartsWith(Lower(group), Variants(GroupName)[0]);
  }

  /** `get_column_mapping` (lines 491-499): the documented header names and their fields. */
  function ColumnMapping(): map<string, Field>
  {
    map["Código Domínio" := Cod, "Nome Fantasia" := Name, "Grupo" := GroupName]
  }

  lemma ColumnMappingEntries()
    ensures ColumnMapping().Keys == {"Código Domínio", "Nome Fantasia", "Grupo"}
    ensures ColumnMapping()["Código Domínio"] == Cod
    ensures ColumnMapping()["Nome Fantasia"] == Name
    ensures ColumnMapping()["Grupo"] == GroupName
  {
  }

  /** The flexible mapping agrees with the documented one on the documented names. */
  lemma ColumnMappingAgrees()
    ensures forall k :: k in ColumnMapping() ==> MatchesCell(Some(k), ColumnMapping()[k])
  {
    ColumnMappingEntries();
    DocumentedHeadersRecognised();
  }
}

/** The legacy spreadsheet import (`excel_sync_service_old.py`): a fixed header row at index 4,
    columns mapped by exact header names, raw cell text without trimming, and an upsert into the
    `companies` table alone. */
module ExcelSyncOld {
  import opened Common
  import opened Registry
  import opened ExcelSync

  /** The header row's fixed index (`header_row = 4`). */
  const HeaderRow: nat := 4

  const FormatMessage := "Arquivo Excel não tem formato esperado"
  /** What `row.iloc[k]` raises for a position past the row's end. */
  const OutOfBoundsMessage := "single positional indexer is out-of-bounds"

  /** `column_mapping[header]` when the header is one of the documented names. */
  function ExactField(cell: Cell): Option<Field>
  {
    if cell.Some? && cell.value in ColumnMapping() then Some(ColumnMapping()[cell.value]) else None
  }

  function ExactFields(headers: Row): (r: seq<Option<Field>>)
    ensures |r| == |headers|
  {
    seq(|headers|, i requires 0 <= i < |headers| => ExactField(headers[i]))
  }

  /** `col_indices`: each documented header name maps its field to its last position. */
  function ExactColumnsOf(headers: Row): map<Field, nat>
  {
    LastIndices(ExactFields(headers), |headers|)
  }

  /** A field is mapped exactly when some header equals its documented name, and it keeps the
      last such header. */
  lemma ExactColumnsLast(headers: Row, f: Field)
    ensures f in ExactColumnsOf(headers) <==> exists j :: 0 <= j < |headers| && ExactField(headers[j]) == Some(f)
    ensures f in ExactColumnsOf(headers) ==>
              var c := ExactColumnsOf(headers)[f];
              && c < |headers| && ExactField(headers[c]) == Some(f)
              && forall j :: c < j < |headers| ==> ExactField(headers[j]) != Some(f)
  {
    var fields := ExactFields(headers);
    LastIndicesFor(fields, |headers|, f);
    assert forall j :: 0 <= j < |headers| ==> fields[j] == ExactField(headers[j]);
  }

  /** Only a header equal to a documented name maps a column. */
  lemma ExactFieldMeaning(cell: Cell)
    ensures ExactField(cell).Some? <==> cell.Some? && cell.value in ColumnMapping()
    ensures ExactField(cell) == Some(Cod) <==> cell == Some("Código Domínio")
    ensures ExactField(cell) == Some(Name) <==> cell == Some("Nome Fantasia")
    ensures ExactField(cell) == Some(GroupName) <==> cell == Some("Grupo")
  {
    var m := ColumnMapping();
    assert forall k :: k in m ==> k == "Código Domínio" || k == "Nome Fantasia" || k == "Grupo";
  }

  /** Lines 170-174. */
  method MapExactColumns(headers: Row) returns (cols: map<Field, nat>)
    ensures cols == ExactColumnsOf(headers)
  {
    cols := map[];
    var mapping := ColumnMapping();
    ghost var fields := ExactFields(headers);
    for i := 0 to |headers|
      invariant cols == LastIndices(fields, i)
    {
      assert fields[i] == ExactField(headers[i]);
      var header := headers[i];
      if header.Some? && header.value in mapping {
        cols := cols[mapping[header.value] := i];
      }
    }
  }

  /** A company of the legacy import: raw cell text, not trimmed. */
  datatype OldCompany = OldCompany(cod: string, name: Option<string>, groupName: Option<string>)

  /** `company.get(field)`: `str(value)` of the mapped in-range cell, or None. */
  function RawValue(row: Row, cols: map<Field, nat>, f: Field): Option<string>
  {
    if f in cols && cols[f] < |row| then row[cols[f]] else None
  }

  /** Lines 181-195 for one data row: the null test reads the code column, or column 0 when no
      code column was mapped, and fails past the row's end. */
  function OldCompanyOf(row: Row, cols: map<Field, nat>): Result<Option<OldCompany>>
  {
    var k := if Cod in cols then cols[Cod] else 0;
    if k >= |row| then Err(OutOfBoundsMessage)
    else if row[k].None? then Ok(None)
    else
      var cod := RawValue(row, cols, Cod);
      if Truthy(cod) then Ok(Some(OldCompany(cod.value, RawValue(row, cols, Name), RawValue(row, cols, GroupName))))
      else Ok(None)
  }

  /** The companies of the data rows in row order, or the first row's failure. */
  function OldExtracted(rows: seq<Row>, cols: map<Field, nat>): (r: Result<seq<OldCompany>>)
    ensures r.Ok? ==> |r.value| <= |rows| && forall i :: 0 <= i < |r.value| ==> r.value[i].cod != ""
    decreases |rows|
  {
    if |rows| == 0 then Ok([])
    else
      match OldExtracted(rows[..|rows| - 1], cols)
      case Err(e) => Err(e)
      case Ok(cs) =>
        match OldCompanyOf(rows[|rows| - 1], cols)
        case Err(e) => Err(e)
        case Ok(None) => Ok(cs)
        case Ok(Some(c)) => Ok(cs + [c])
  }

  /** Without a code column no row yields a company: the read either fails on a row shorter
      than one cell or returns nothing. */
  lemma {:induction false} NoCodColumnNoCompanies(rows: seq<Row>, cols: map<Field, nat>)
    requires Cod !in cols
    ensures OldExtracted(rows, cols).Ok? ==> OldExtracted(rows, cols).value == []
    decreases |rows|
  {
    if |rows| > 0 {
      NoCodColumnNoCompanies(rows[..|rows| - 1], cols);
    }
  }

  /** A row whose code cell holds non-empty text yields a company carrying that text as it is,
      and the other mapped cells as they are. */
  lemma RawValuesKept(row: Row, cols: map<Field, nat>)
    requires Cod in cols && cols[Cod] < |row| && row[cols[Cod]].Some? && row[cols[Cod]].value != ""
    ensures OldCompanyOf(row, cols) == Ok(Some(OldCompany(row[cols[Cod]].value, RawValue(row, cols, Name), RawValue(row, cols, GroupName))))
  {
  }

  /** The first failing row decides the outcome: later rows are never read. */
  lemma {:induction false} FirstFailureStops(rows: seq<Row>, cols: map<Field, nat>, k: nat)
    requires k <= |rows| && OldExtracted(rows[..k], cols).Err?
    ensures OldExtracted(rows, cols) == OldExtracted(rows[..k], cols)
    decreases |rows| - k
  {
    if k < |rows| {
      var n := |rows| - 1;
      assert rows[..n][..k] == rows[..k];
      FirstFailureStops(rows[..n], cols, k);
    } else {
      assert rows[..k] == rows;
    }
  }

  /** What reading the sheet yields. */
  function OldProcessed(sheet: Sheet): Result<seq<OldCompany>>
  {
    if |sheet| <= HeaderRow then Err(FormatMessage)
    else OldExtracted(sheet[HeaderRow + 1..], ExactColumnsOf(sheet[HeaderRow]))
  }

  /** Lines 181-195 for one data row. */
  method ReadOldRow(row: Row, cols: map<Field, nat>) returns (r: Result<Option<OldCompany>>)
    ensures r == OldCompanyOf(row, cols)
  {
    var k := if Cod in cols then cols[Cod] else 0;
    if k >= |row| {
      return Err(OutOfBoundsMessage);
    }
    if row[k].None? {
      return Ok(None);
    }
    var cod := RawValue(row, cols, Cod);
    var name := RawValue(row, cols, Name);
    var group := RawValue(row, cols, GroupName);
    if Truthy(cod) {
      r := Ok(Some(OldCompany(cod.value, name, group)));
    } else {
      r := Ok(None);
    }
  }

  /** `_process_excel_content` (lines 148-207). */
  method ProcessExcelContentOld(sheet: Sheet) returns (r: Result<seq<OldCompany>>)
    ensures r == OldProcessed(sheet)
    ensures |sheet| <= HeaderRow ==> r == Err(FormatMessage)
  {
    if |sheet| <= HeaderRow {
      return Err(FormatMessage);
    }
    var cols := MapExactColumns(sheet[HeaderRow]);
    var companies: seq<OldCompany> := [];
    for idx := HeaderRow + 1 to |sheet|
      invariant OldExtracted(sheet[HeaderRow + 1..idx], cols) == Ok(companies)
    {
      ghost var rows := sheet[HeaderRow + 1..idx + 1];
      assert rows[..|rows| - 1] == sheet[HeaderRow + 1..idx] && rows[|rows| - 1] == sheet[idx];
      var company := ReadOldRow(sheet[idx], cols);
      if company.Err? {
        assert rows == sheet[HeaderRow + 1..][..idx - HeaderRow];
        FirstFailureStops(sheet[HeaderRow + 1..], cols, idx - HeaderRow);
        return Err(company.message);
      }
      if company.value.Some? {
        companies := companies + [company.value.value];
      }
    }
    assert sheet[HeaderRow + 1..|sheet|] == sheet[HeaderRow + 1..];
    r := Ok(companies);
  }

  // ------------------------------------------------------------------------------------------
  // Upsert into `companies`
  // ------------------------------------------------------------------------------------------

  function OldEntries(cs: seq<OldCompany>): (r: seq<(string, CompanyRow)>)
    ensures |r| == |cs|
  {
    seq(|cs|, i requires 0 <= i < |cs| => (cs[i].cod, CompanyRow(cs[i].name, cs[i].groupName)))
  }

  datatype OldSyncSummary = OldSyncSummary(processedCount: nat, newCompanies: nat, updatedCompanies: nat)

  /** `_sync_to_database` (lines 211-276). */
  method SyncToDatabaseOld(db: Database, companies: seq<OldCompany>) returns (s: OldSyncSummary)
    requires db.Valid()
    modifies db
    ensures db.Valid()
    ensures db.companiesColumns == if old(db.companiesColumns) == [] then CompaniesColumns else old(db.companiesColumns)
    ensures db.companies == Upserted(old(db.companies), OldEntries(companies))
    ensures db.companiesDataExists == old(db.companiesDataExists)
    ensures db.companiesData == old(db.companiesData) && db.dataOrder == old(db.dataOrder)
    ensures s.processedCount == |companies|
    ensures s.newCompanies == NewCount(old(db.companies), OldEntries(companies))
    ensures s.newCompanies + s.updatedCompanies == |companies|
  {
    db.EnsureCompaniesTable();
    var entries := OldEntries(companies);
    var newCompanies, updatedCompanies := 0, 0;
    for i := 0 to |companies|
      invariant db.Valid()
      invariant db.companiesColumns == if old(db.companiesColumns) == [] then CompaniesColumns else old(db.companiesColumns)
      invariant db.companiesDataExists == old(db.companiesDataExists)
      invariant db.companiesData == old(db.companiesData) && db.dataOrder == old(db.dataOrder)
      invariant db.companies == Upserted(old(db.companies), entries[..i])
      invariant newCompanies == NewCount(old(db.companies), entries[..i]) && newCompanies + updatedCompanies == i
    {
      assert entries[..i + 1][..i] == entries[..i];
      var company := companies[i];
      var inserted := db.UpsertCompany(company.cod, CompanyRow(company.name, company.groupName));
      if inserted {
        newCompanies := newCompanies + 1;
      } else {
        updatedCompanies := updatedCompanies + 1;
      }
    }
    assert entries[..|companies|] == entries;
    s := OldSyncSummary(|companies|, newCompanies, updatedCompanies);
  }

  /** After the upsert a code holds the name and group of its last occurrence in the input, and
      the insert counter counts the distinct new codes. */
  lemma OldSyncOutcome(companies0: map<string, CompanyRow>, cs: seq<OldCompany>, i: nat)
    requires i < |cs| && forall j :: i < j < |cs| ==> cs[j].cod != cs[i].cod
    ensures var t := Upserted(companies0, OldEntries(cs));
      cs[i].cod in t && t[cs[i].cod] == CompanyRow(cs[i].name, cs[i].groupName)
    ensures NewCount(companies0, OldEntries(cs)) == |Keys(OldEntries(cs)) - companies0.Keys|
  {
    UpsertedLastAt(companies0, OldEntries(cs), i);
    NewCountDistinct(companies0, OldEntries(cs));
  }
}

/** The SQLite registry the spreadsheet import writes and the company lookup reads: table
    `companies` (cod, name, group_name) and table `companies_data` (cod, name, group_name,
    companie_data), both keyed by `cod`. Tables are maps; `companies_data` also keeps its rows in
    scan order, the order a full `SELECT` returns them (insertion order; an UPDATE keeps a row in
    place). */
module Registry {
  import opened Common

  /** A JSON value as `json.loads` returns it, reduced to what the services distinguish: text,
      null, or any other value (number, boolean, list, object) with its Python truthiness. */
  datatype JsonValue = JString(s: string) | JNull | JOther(truthy: bool)

  /** The `companie_data` column: NULL or '' (falsy), text that does not parse, JSON that parses
      to something other than an object, or an object. */
  datatype StoredJson = Blank | Unparseable | NonObject | Object(fields: map<string, JsonValue>)

  datatype CompanyRow = CompanyRow(name: Option<string>, groupName: Option<string>)

  datatype DataRow = DataRow(name: Option<string>, groupName: Option<string>, data: StoredJson)

  /** The columns `CREATE TABLE companies` declares. */
  const CompaniesColumns: seq<string> := ["cod", "name", "group_name"]

  // ------------------------------------------------------------------------------------------
  // A sequence of upserts into one keyed table
  // ------------------------------------------------------------------------------------------

  /** The keys of the entries. */
  function Keys<V>(entries: seq<(string, V)>): set<string>
  {
    set i | 0 <= i < |entries| :: entries[i].0
  }

  /** The table after `INSERT` or `UPDATE` of each entry in turn. */
  function Upserted<V>(t: map<string, V>, entries: seq<(string, V)>): map<string, V>
    decreases |entries|
  {
    if |entries| == 0 then t
    else
      var (k, v) := entries[|entries| - 1];
      Upserted(t, entries[..|entries| - 1])[k := v]
  }

  /** How many entries found no row with their key when they came (the INSERT branch). */
  function NewCount<V>(t: map<string, V>, entries: seq<(string, V)>): nat
    decreases |entries|
  {
    if |entries| == 0 then 0
    else
      var init := entries[..|entries| - 1];
      NewCount(t, init) + (if entries[|entries| - 1].0 in Upserted(t, init) then 0 else 1)
  }

  /** The keys the upserts INSERT, in the order of insertion: each key that is absent from the
      table when it first comes. */
  function NewKeys<V>(t: map<string, V>, entries: seq<(string, V)>): seq<string>
    decreases |entries|
  {
    if |entries| == 0 then []
    else
      var init := entries[..|entries| - 1];
      var k := entries[|entries| - 1].0;
      NewKeys(t, init) + (if k in Upserted(t, init) then [] else [k])
  }

  /** One more entry: its key takes its value, and it counts as new exactly when its key was absent. */
  lemma UpsertedStep<V>(t: map<string, V>, entries: seq<(string, V)>, i: nat)
    requires i < |entries|
    ensures Upserted(t, entries[..i + 1]) == Upserted(t, entries[..i])[entries[i].0 := entries[i].1]
    ensures NewCount(t, entries[..i + 1])
            == NewCount(t, entries[..i]) + (if entries[i].0 in Upserted(t, entries[..i]) then 0 else 1)
    ensures NewKeys(t, entries[..i + 1])
            == NewKeys(t, entries[..i]) + (if entries[i].0 in Upserted(t, entries[..i]) then [] else [entries[i].0])
  {
    assert entries[..i + 1][..i] == entries[..i];
  }

  /** The value of the last entry with key `k`. */
  function LastValue<V>(entries: seq<(string, V)>, k: string): V
    requires k in Keys(entries)
    decreases |entries|
  {
    var n := |entries| - 1;
    if entries[n].0 == k then entries[n].1
    else
      assert k in Keys(entries[..n]) by {
        var i :| 0 <= i < |entries| && entries[i].0 == k;
        assert entries[..n][i].0 == k;
      }
      LastValue(entries[..n], k)
  }

  /** An entry that no later entry shares its key with is the one whose value the key keeps. */
  lemma {:induction false} LastValueAt<V>(entries: seq<(string, V)>, i: nat)
    requires i < |entries| && forall j :: i < j < |entries| ==> entries[j].0 != entries[i].0
    ensures entries[i].0 in Keys(entries) && LastValue(entries, entries[i].0) == entries[i].1
    decreases |entries|
  {
    var n := |entries| - 1;
    if i < n {
      assert entries[..n][i] == entries[i];
      LastValueAt(entries[..n], i);
    }
  }

  lemma KeysSnoc<V>(entries: seq<(string, V)>)
    requires |entries| > 0
    ensures Keys(entries) == Keys(entries[..|entries| - 1]) + {entries[|entries| - 1].0}
  {
    var n := |entries| - 1;
    forall k | k in Keys(entries) ensures k in Keys(entries[..n]) + {entries[n].0} {
      var i :| 0 <= i < |entries| && entries[i].0 == k;
      if i < n {
        assert entries[..n][i].0 == k;
      }
    }
    forall k | k in Keys(entries[..n]) ensures k in Keys(entries) {
      var i :| 0 <= i < n && entries[..n][i].0 == k;
      assert entries[i].0 == k;
    }
  }

  /** After the upserts: the table's keys are the old keys and the entries' keys; an entry's key
      holds its last value; every other row is as it was. */
  lemma {:induction false} UpsertedContents<V>(t: map<string, V>, entries: seq<(string, V)>)
    ensures Upserted(t, entries).Keys == t.Keys + Keys(entries)
    ensures forall k :: k in Keys(entries) ==> Upserted(t, entries)[k] == LastValue(entries, k)
    ensures forall k :: k in t && k !in Keys(entries) ==> Upserted(t, entries)[k] == t[k]
    decreases |entries|
  {
    if |entries| > 0 {
      var n := |entries| - 1;
      UpsertedContents(t, entries[..n]);
      KeysSnoc(entries);
    }
  }

  lemma DifferenceGrows(a: set<string>, b: set<string>, k: string)
    ensures k in b || k in a ==> (a + {k}) - b == a - b
    ensures k !in b && k !in a ==> (a + {k}) - b == (a - b) + {k} && k !in a - b
  {
  }

  /** An entry that no later entry shares its key with leaves its value in the table. */
  lemma UpsertedLastAt<V>(t: map<string, V>, entries: seq<(string, V)>, i: nat)
    requires i < |entries| && forall j :: i < j < |entries| ==> entries[j].0 != entries[i].0
    ensures entries[i].0 in Upserted(t, entries) && Upserted(t, entries)[entries[i].0] == entries[i].1
  {
    UpsertedContents(t, entries);
    LastValueAt(entries, i);
  }

  /** Rows whose key no entry carries are neither removed nor changed. */
  lemma UpsertedKeepsOthers<V>(t: map<string, V>, entries: seq<(string, V)>, k: string)
    requires k in t && k !in Keys(entries)
    ensures k in Upserted(t, entries) && Upserted(t, entries)[k] == t[k]
  {
    UpsertedContents(t, entries);
  }

  /** The INSERT counter counts the distinct keys that were not in the table before. */
  lemma {:induction false} NewCountDistinct<V>(t: map<string, V>, entries: seq<(string, V)>)
    ensures NewCount(t, entries) == |Keys(entries) - t.Keys|
    ensures NewCount(t, entries) <= |entries|
    decreases |entries|
  {
    if |entries| == 0 {
      assert Keys(entries) == {};
    } else {
      var n := |entries| - 1;
      var init := entries[..n];
      var k := entries[n].0;
      NewCountDistinct(t, init);
      UpsertedContents(t, init);
      KeysSnoc(entries);
      DifferenceGrows(Keys(init), t.Keys, k);
      assert k in Upserted(t, init) <==> k in t.Keys || k in Keys(init);
    }
  }

  /** The inserted keys are the distinct keys that were not in the table before, one per INSERT. */
  lemma {:induction false} NewKeysMeaning<V>(t: map<string, V>, entries: seq<(string, V)>)
    ensures |NewKeys(t, entries)| == NewCount(t, entries)
    ensures forall k :: k in NewKeys(t, entries) <==> k in Keys(entries) && k !in t
    ensures forall i, j :: 0 <= i < j < |NewKeys(t, entries)| ==> NewKeys(t, entries)[i] != NewKeys(t, entries)[j]
    decreases |entries|
  {
    if |entries| == 0 {
      assert Keys(entries) == {};
    } else {
      var n := |entries| - 1;
      var init := entries[..n];
      var k := entries[n].0;
      NewKeysMeaning(t, init);
      UpsertedContents(t, init);
      KeysSnoc(entries);
      assert k in Upserted(t, init) <==> k in t || k in Keys(init);
    }
  }

  // ------------------------------------------------------------------------------------------
  // The database
  // ------------------------------------------------------------------------------------------

  class Database {
    /** `PRAGMA table_info(companies)`: empty while the table does not exist. */
    var companiesColumns: seq<string>
    var companies: map<string, CompanyRow>
    var companiesDataExists: bool
    var companiesData: map<string, DataRow>
    /** The `companies_data` keys in scan order. */
    var dataOrder: seq<string>

    ghost predicate Valid()
      reads this
    {
      && (forall i, j :: 0 <= i < j < |dataOrder| ==> dataOrder[i] != dataOrder[j])
      && (forall c :: c in companiesData <==> c in dataOrder)
    }

    constructor (columns: seq<string>, companies: map<string, CompanyRow>, dataExists: bool,
                 order: seq<string>, data: map<string, DataRow>)
      requires forall i, j :: 0 <= i < j < |order| ==> order[i] != order[j]
      requires forall c :: c in data <==> c in order
      ensures Valid()
      ensures companiesColumns == columns && this.companies == companies
      ensures companiesDataExists == dataExists && companiesData == data && dataOrder == order
    {
      companiesColumns := columns;
      this.companies := companies;
      companiesDataExists := dataExists;
      companiesData := data;
      dataOrder := order;
    }

    /** `CREATE TABLE IF NOT EXISTS companies (...)`, run only when the table has no columns. */
    method EnsureCompaniesTable()
      modifies this
      ensures companiesColumns == if old(companiesColumns) == [] then CompaniesColumns else old(companiesColumns)
      ensures companies == old(companies) && companiesDataExists == old(companiesDataExists)
      ensures companiesData == old(companiesData) && dataOrder == old(dataOrder)
    {
      if companiesColumns == [] {
        companiesColumns := CompaniesColumns;
      }
    }

    /** `CREATE TABLE IF NOT EXISTS companies_data (...)`. */
    method EnsureCompaniesDataTable()
      modifies this
      ensures companiesDataExists
      ensures companiesColumns == old(companiesColumns) && companies == old(companies)
      ensures companiesData == old(companiesData) && dataOrder == old(dataOrder)
    {
      companiesDataExists := true;
    }

    /** SELECT by cod, then UPDATE or INSERT into `companies`; reports whether it inserted. */
    method UpsertCompany(cod: string, row: CompanyRow) returns (inserted: bool)
      modifies this
      ensures inserted <==> cod !in old(companies)
      ensures companies == old(companies)[cod := row]
      ensures companiesColumns == old(companiesColumns) && companiesDataExists == old(companiesDataExists)
      ensures companiesData == old(companiesData) && dataOrder == old(dataOrder)
    {
      inserted := cod !in companies;
      companies := companies[cod := row];
    }

    /** SELECT by cod, then UPDATE or INSERT into `companies_data`; an insert adds a row at the end
        of the scan order. */
    method UpsertData(cod: string, row: DataRow) returns (inserted: bool)
      requires Valid()
      modifies this
      ensures Valid()
      ensures inserted <==> cod !in old(companiesData)
      ensures companiesData == old(companiesData)[cod := row]
      ensures dataOrder == if inserted then old(dataOrder) + [cod] else old(dataOrder)
      ensures companiesColumns == old(companiesColumns) && companies == old(companies)
      ensures companiesDataExists == old(companiesDataExists)
    {
      inserted := cod !in companiesData;
      if inserted {
        dataOrder := dataOrder + [cod];
      }
      companiesData := companiesData[cod := row];
    }
  }
}

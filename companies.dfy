/** The company lookup of `models/companies.py` (`get_company_details`): resolve an identifier to a
    `companies` row, by exact code or else by the digits of a CNPJ stored in `companies_data`,
    then merge that company's stored JSON over its basic fields and fill `razao_social` and
    `cnpj` from fallbacks. */
module Companies {
  import opened Common
  import opened Registry

  /** The result dictionary. */
  type Details = map<string, JsonValue>

  /** Python truthiness of a JSON value. */
  predicate JTruthy(v: JsonValue)
  {
    match v
    case JString(s) => s != ""
    case JNull => false
    case JOther(t) => t
  }

  /** `d.get(k)`; a missing key reads as null, which is falsy like the `''` default. */
  function Get(d: Details, k: string): (v: JsonValue)
    ensures JTruthy(v) ==> k in d && d[k] == v
  {
    if k in d then d[k] else JNull
  }

  /** `data.get('cnpj', '') or data.get('CNPJ', '')` */
  function CnpjField(fields: Details): (v: JsonValue)
    ensures JTruthy(Get(fields, "cnpj")) ==> v == fields["cnpj"]
    ensures !JTruthy(Get(fields, "cnpj")) ==> v == Get(fields, "CNPJ")
  {
    if JTruthy(Get(fields, "cnpj")) then Get(fields, "cnpj") else Get(fields, "CNPJ")
  }

  /** Whether the scan stops at a stored row, given `identifier_clean`. A blank column is skipped;
      text that does not parse, JSON that is not an object (no `.get`) and a truthy CNPJ that is not
      text (the digit filter raises) are skipped by the `except: continue`. */
  predicate CnpjMatches(stored: StoredJson, clean: string)
  {
    && stored.Object?
    && var v := CnpjField(stored.fields);
    && v.JString? && v.s != "" && Digits(v.s) == clean
  }

  predicate MatchesAt(data: map<string, DataRow>, clean: string, cod: string)
  {
    cod in data && CnpjMatches(data[cod].data, clean)
  }

  /** The scan's test as a predicate on codes. */
  function Matcher(data: map<string, DataRow>, clean: string): string -> bool
  {
    cod => MatchesAt(data, clean, cod)
  }

  /** The code of the `companies` row the lookup resolves to (lines 73-98): the identifier when a
      company has it as its code; otherwise the code of the first `companies_data` row in scan
      order whose CNPJ digits equal the identifier's, provided `companies` has that code (the scan
      stops at that row either way). */
  function BasicCod(companies: map<string, CompanyRow>, data: map<string, DataRow>, order: seq<string>,
                    identifier: string): (r: Option<string>)
    ensures r.Some? ==> r.value in companies
    ensures identifier in companies ==> r == Some(identifier)
  {
    if identifier in companies then Some(identifier)
    else
      match FirstWhere(order, Matcher(data, Digits(identifier)))
      case None => None
      case Some(i) => if order[i] in companies then Some(order[i]) else None
  }

  /** `company_details` (lines 107-116): the stored object; `{}` when there is no row, the column
      is blank or its text does not parse; None when it parses to something that is not an object,
      because merging it with `**` raises and the lookup returns None (lines 141-143). */
  function DetailsOf(data: map<string, DataRow>, cod: string): Option<Details>
  {
    if cod !in data then Some(map[])
    else
      match data[cod].data
      case Blank => Some(map[])
      case Unparseable => Some(map[])
      case NonObject => None
      case Object(fields) => Some(fields)
  }

  function OptJson(v: Option<string>): JsonValue
  {
    if v.Some? then JString(v.value) else JNull
  }

  /** `{'cod': ..., 'name': ..., 'group_name': ..., **company_details}` (lines 121-126). */
  function Merged(cod: string, row: CompanyRow, details: Details): Details
  {
    map["cod" := JString(cod), "name" := OptJson(row.name), "group_name" := OptJson(row.groupName)] + details
  }

  /** Lines 129-130. */
  function WithRazaoSocial(r: Details): Details
  {
    if !JTruthy(Get(r, "razao_social")) && JTruthy(Get(r, "name")) then r["razao_social" := r["name"]] else r
  }

  /** The keys the `cnpj` fallback tries, in order. */
  const CnpjFallbacks: seq<string> := ["CNPJ", "cnpj", "documento"]

  /** Lines 132-137. The loop's 'cnpj' step cannot fire: it runs only when 'cnpj' is falsy. */
  function WithCnpj(r: Details): Details
  {
    if JTruthy(Get(r, "cnpj")) then r
    else if JTruthy(Get(r, "CNPJ")) then r["cnpj" := r["CNPJ"]]
    else if JTruthy(Get(r, "documento")) then r["cnpj" := r["documento"]]
    else r
  }

  /** What `get_company_details(identifier)` returns. */
  function CompanyDetails(companies: map<string, CompanyRow>, data: map<string, DataRow>, order: seq<string>,
                          identifier: string): Option<Details>
  {
    match BasicCod(companies, data, order, identifier)
    case None => None
    case Some(cod) =>
      match DetailsOf(data, cod)
      case None => None
      case Some(details) => Some(WithCnpj(WithRazaoSocial(Merged(cod, companies[cod], details))))
  }

  // ------------------------------------------------------------------------------------------
  // The lookup as the source runs it
  // ------------------------------------------------------------------------------------------

  /** The `cnpj` fallback loop over 'CNPJ', 'cnpj', 'documento' with its `break`. */
  method FillCnpj(r0: Details) returns (r: Details)
    ensures r == WithCnpj(r0)
  {
    r := r0;
    assert CnpjFallbacks[0] == "CNPJ" && CnpjFallbacks[1] == "cnpj" && CnpjFallbacks[2] == "documento";
    if !JTruthy(Get(r, "cnpj")) {
      for k := 0 to |CnpjFallbacks|
        invariant r == r0
        invariant forall j :: 0 <= j < k ==> !JTruthy(Get(r0, CnpjFallbacks[j]))
      {
        var field := CnpjFallbacks[k];
        if JTruthy(Get(r, field)) {
          r := r["cnpj" := r[field]];
          assert k != 1;
          assert k == 2 ==> !JTruthy(Get(r0, CnpjFallbacks[0]));
          return;
        }
      }
      assert !JTruthy(Get(r0, CnpjFallbacks[0])) && !JTruthy(Get(r0, CnpjFallbacks[2]));
    }
  }

  /** `get_company_details` (lines 58-143) over the two tables, scanning `companies_data` in
      `db.dataOrder`. */
  method GetCompanyDetails(db: Database, identifier: string) returns (r: Option<Details>)
    ensures r == CompanyDetails(db.companies, db.companiesData, db.dataOrder, identifier)
  {
    var basic: Option<string> := None;
    if identifier in db.companies {
      basic := Some(identifier);
    } else {
      var clean := Digits(identifier);
      var i := 0;
      while i < |db.dataOrder|
        invariant 0 <= i <= |db.dataOrder|
        invariant forall j :: 0 <= j < i ==> !MatchesAt(db.companiesData, clean, db.dataOrder[j])
      {
        var cod := db.dataOrder[i];
        if cod in db.companiesData && db.companiesData[cod].data.Object? {
          var cnpjData := CnpjField(db.companiesData[cod].data.fields);
          if cnpjData.JString? && cnpjData.s != "" && Digits(cnpjData.s) == clean {
            FirstWhereAt(db.dataOrder, Matcher(db.companiesData, clean), i);
            if cod in db.companies {
              basic := Some(cod);
            }
            break;
          }
        }
        i := i + 1;
      }
      assert i == |db.dataOrder| ==> FirstWhere(db.dataOrder, Matcher(db.companiesData, clean)) == None;
    }
    assert basic == BasicCod(db.companies, db.companiesData, db.dataOrder, identifier);
    if basic.None? {
      return None;
    }
    var cod := basic.value;
    var details: Details := map[];
    if cod in db.companiesData {
      match db.companiesData[cod].data {
        case Object(fields) => details := fields;
        case NonObject => return None;
        case Blank =>
        case Unparseable =>
      }
    }
    var result := Merged(cod, db.companies[cod], details);
    if !JTruthy(Get(result, "razao_social")) && JTruthy(Get(result, "name")) {
      result := result["razao_social" := result["name"]];
    }
    result := FillCnpj(result);
    r := Some(result);
  }

  // ------------------------------------------------------------------------------------------
  // Properties
  // ------------------------------------------------------------------------------------------

  /** With no company holding the identifier as its code, the first `companies_data` row in scan
      order whose CNPJ digits equal the identifier's decides the lookup: its company, or nothing
      when `companies` has no row with its code, whatever later rows hold. */
  lemma FirstCnpjMatchDecides(companies: map<string, CompanyRow>, data: map<string, DataRow>, order: seq<string>,
                              identifier: string, i: nat)
    requires identifier !in companies
    requires i < |order| && MatchesAt(data, Digits(identifier), order[i])
    requires forall j :: 0 <= j < i ==> !MatchesAt(data, Digits(identifier), order[j])
    ensures BasicCod(companies, data, order, identifier) == if order[i] in companies then Some(order[i]) else None
  {
    FirstWhereAt(order, Matcher(data, Digits(identifier)), i);
  }

  /** No exact code and no matching row: the lookup returns None. */
  lemma NoMatchNotFound(companies: map<string, CompanyRow>, data: map<string, DataRow>, order: seq<string>,
                        identifier: string)
    requires identifier !in companies
    requires forall j :: 0 <= j < |order| ==> !MatchesAt(data, Digits(identifier), order[j])
    ensures CompanyDetails(companies, data, order, identifier) == None
  {
    var p := Matcher(data, Digits(identifier));
    assert forall j :: 0 <= j < |order| ==> !p(order[j]);
  }

  /** A row the scan cannot read (blank, unparseable or not an object) is passed over: the lookup
      is the same without it. */
  lemma UnreadableRowSkipped(companies: map<string, CompanyRow>, data: map<string, DataRow>, order: seq<string>,
                             identifier: string)
    requires identifier !in companies
    requires |order| > 0 && order[0] in data && !data[order[0]].data.Object?
    ensures BasicCod(companies, data, order, identifier) == BasicCod(companies, data, order[1..], identifier)
  {
    var p := Matcher(data, Digits(identifier));
    assert !p(order[0]);
    match FirstWhere(order[1..], p)
    case None =>
    case Some(i) => assert order[1..][i] == order[i + 1];
  }

  /** Formatting is ignored: identifiers with the same digits resolve alike when neither is a
      code. */
  lemma SameDigitsSameLookup(companies: map<string, CompanyRow>, data: map<string, DataRow>, order: seq<string>,
                             id1: string, id2: string)
    requires id1 !in companies && id2 !in companies && Digits(id1) == Digits(id2)
    ensures CompanyDetails(companies, data, order, id1) == CompanyDetails(companies, data, order, id2)
  {
  }

  /** The lookup fails exactly when nothing resolves or the found company's JSON is not an
      object; otherwise the result carries the resolved code unless the JSON overrides it. */
  lemma LookupOutcome(companies: map<string, CompanyRow>, data: map<string, DataRow>, order: seq<string>,
                      identifier: string)
    ensures var c := BasicCod(companies, data, order, identifier);
      CompanyDetails(companies, data, order, identifier).None? <==>
        c.None? || (c.value in data && data[c.value].data.NonObject?)
    ensures var c := BasicCod(companies, data, order, identifier);
      var r := CompanyDetails(companies, data, order, identifier);
      r.Some? && (c.value !in data || !data[c.value].data.Object? || "cod" !in data[c.value].data.fields) ==>
        "cod" in r.value && r.value["cod"] == JString(c.value)
  {
    var c := BasicCod(companies, data, order, identifier);
    if c.Some? {
      var cod := c.value;
      match DetailsOf(data, cod)
      case None =>
      case Some(d) =>
        var m := Merged(cod, companies[cod], d);
        assert "cod" !in d ==> m["cod"] == JString(cod);
        RazaoSocialFallback(m);
        CnpjFallback(WithRazaoSocial(m));
    }
  }

  /** Detail keys override the basic ones; the basic keys are present. */
  lemma MergedOverlay(cod: string, row: CompanyRow, details: Details)
    ensures Merged(cod, row, details).Keys == {"cod", "name", "group_name"} + details.Keys
    ensures forall k :: k in details ==> Merged(cod, row, details)[k] == details[k]
    ensures "cod" !in details ==> Merged(cod, row, details)["cod"] == JString(cod)
    ensures "name" !in details ==> Merged(cod, row, details)["name"] == OptJson(row.name)
    ensures "group_name" !in details ==> Merged(cod, row, details)["group_name"] == OptJson(row.groupName)
  {
  }

  /** `razao_social` is kept when truthy, taken from a truthy `name` otherwise; nothing else
      changes. */
  lemma RazaoSocialFallback(m: Details)
    ensures var r := WithRazaoSocial(m);
      && r.Keys == m.Keys + (if JTruthy(Get(m, "name")) then {"razao_social"} else {})
      && (forall k :: k in m && k != "razao_social" ==> r[k] == m[k])
      && (JTruthy(Get(m, "razao_social")) || JTruthy(Get(m, "name")) <==> JTruthy(Get(r, "razao_social")))
      && (!JTruthy(Get(m, "razao_social")) && JTruthy(Get(m, "name")) ==> r["razao_social"] == m["name"])
  {
    if !JTruthy(Get(m, "razao_social")) && JTruthy(Get(m, "name")) {
      assert WithRazaoSocial(m)["razao_social"] == m["name"];
    } else if JTruthy(Get(m, "razao_social")) {
      assert "razao_social" in m;
    }
  }

  /** `cnpj` ends up truthy exactly when one of 'cnpj', 'CNPJ', 'documento' is, and then holds the
      first truthy of them; nothing else changes. */
  lemma CnpjFallback(m: Details)
    ensures var r := WithCnpj(m);
      && (forall k :: k in m && k != "cnpj" ==> k in r && r[k] == m[k])
      && (forall k :: k in r && k != "cnpj" ==> k in m)
      && (JTruthy(Get(r, "cnpj")) <==> JTruthy(Get(m, "cnpj")) || JTruthy(Get(m, "CNPJ")) || JTruthy(Get(m, "documento")))
      && (JTruthy(Get(m, "cnpj")) ==> r == m)
      && (!JTruthy(Get(m, "cnpj")) && JTruthy(Get(m, "CNPJ")) ==> r["cnpj"] == m["CNPJ"])
      && (!JTruthy(Get(m, "cnpj")) && !JTruthy(Get(m, "CNPJ")) && JTruthy(Get(m, "documento")) ==> r["cnpj"] == m["documento"])
  {
  }

  /** A company found with no stored object (no row, a blank column or text that does not parse)
      gets only its basic fields, `razao_social` when its name is non-empty, and no `cnpj`. */
  lemma NoDetailsBasicOnly(companies: map<string, CompanyRow>, data: map<string, DataRow>, order: seq<string>,
                           identifier: string, cod: string)
    requires BasicCod(companies, data, order, identifier) == Some(cod)
    requires cod !in data || data[cod].data.Blank? || data[cod].data.Unparseable?
    ensures var r := CompanyDetails(companies, data, order, identifier);
      && r.Some?
      && r.value.Keys == {"cod", "name", "group_name"} + (if Truthy(companies[cod].name) then {"razao_social"} else {})
      && r.value["cod"] == JString(cod)
  {
    var m := Merged(cod, companies[cod], map[]);
    MergedOverlay(cod, companies[cod], map[]);
    assert JTruthy(Get(m, "name")) <==> Truthy(companies[cod].name);
    RazaoSocialFallback(m);
    var m2 := WithRazaoSocial(m);
    assert !JTruthy(Get(m2, "cnpj")) && !JTruthy(Get(m2, "CNPJ")) && !JTruthy(Get(m2, "documento"));
  }
}

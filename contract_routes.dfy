/** The request-level decisions of the contract routes (`routes/contracts_routes.py`): the body
    and filename guards each route applies before touching a file, the missing-field lists of
    generation and preview, and the contractor clause read back from edited text. A request body
    is `None` when it is not a JSON object, else its fields as text; `None` takes the 400 path,
    which is exact for the falsy non-objects (null, 0, false, "", []). */
module ContractRoutes {
  import opened Common
  import opened Registry
  import opened Companies
  import opened ContractGeneration
  import ContractorClause

  type Body = Option<map<string, string>>

  /** `not data or key not in data` is false. */
  predicate HasField(body: Body, key: string)
  {
    body.Some? && key in body.value
  }

  /** An early answer: HTTP status, error text and, for generation, the missing fields. */
  datatype Rejection = Rejection(status: nat, error: string, missing: seq<string>)

  const CnpjRequired := "CNPJ é obrigatório"
  const ContentRequired := "Conteúdo é obrigatório"
  const BadFilename := "Nome de arquivo inválido"
  const FileNotFound := "Arquivo não encontrado"
  const CompanyNotFound := "Empresa não encontrada"
  const ClauseNotFound := "Não foi possível identificar os dados do contratante no texto editado"

  // ------------------------------------------------------------------------------------------
  // File names
  // ------------------------------------------------------------------------------------------

  /** The guard of download, content, update and PUT: ends with ".docx", no "..", no '/'. */
  predicate IsSafeFilename(name: string)
  {
    EndsWith(name, ".docx") && !Contains(name, "..") && '/' !in name
  }

  /** A string without two adjacent dots does not contain "..". */
  lemma {:induction false} NoAdjacentDots(s: string)
    requires forall k :: 0 <= k < |s| - 1 ==> !(s[k] == '.' && s[k + 1] == '.')
    ensures !Contains(s, "..")
    decreases |s|
  {
    if |s| > 0 {
      var t := s[1..];
      assert forall k :: 0 <= k < |t| ==> t[k] == s[k + 1];
      NoAdjacentDots(t);
      if |s| >= 2 {
        assert s[0] != '.' || s[1] != '.';
        assert s[..2][0] == s[0] && s[..2][1] == s[1];
      }
    }
  }

  /** A name whose only dot is that of its ".docx" extension passes the guard. */
  lemma ExtensionOnlyDot(a: string)
    requires forall k :: 0 <= k < |a| ==> a[k] != '.' && a[k] != '/'
    ensures IsSafeFilename(a + ".docx")
  {
    var r := a + ".docx";
    assert r[|a|..] == ".docx";
    forall k | 0 <= k < |r| - 1 ensures !(r[k] == '.' && r[k + 1] == '.') {
      if k < |a| {
        assert r[k] == a[k];
      } else {
        assert r[k + 1] == ".docx"[k + 1 - |a|];
      }
    }
    NoAdjacentDots(r);
    forall k | 0 <= k < |r| ensures r[k] != '/' {
      if k < |a| {
        assert r[k] == a[k];
      } else {
        assert r[k] == ".docx"[k - |a|];
      }
    }
  }

  /** Every name the generator saves under passes the guard, so the contract it produced can be
      downloaded, read and edited. */
  lemma GeneratedFilenameAccepted(cnpj: string, nameHash: int)
    ensures IsSafeFilename(OutputFilename(cnpj, nameHash))
  {
    var n := RemoveChars(cnpj, {'.', '/', '-'});
    var d := NatToString(nameHash % 10000);
    var a := "contrato_" + n + "_" + d;
    forall k | 0 <= k < |a| ensures a[k] != '.' && a[k] != '/' {
      if k < 9 {
        assert a[k] == "contrato_"[k];
      } else if k < 9 + |n| {
        assert a[k] == n[k - 9];
      } else if k == 9 + |n| {
        assert a[k] == '_';
      } else {
        assert a[k] == d[k - 10 - |n|];
      }
    }
    ExtensionOnlyDot(a);
  }

  /** Download and content (lines 131-143, 194-206): the name guard, then the file must exist. */
  function FileRejection(filename: string, fileExists: bool): (r: Option<Rejection>)
    ensures r.None? <==> IsSafeFilename(filename) && fileExists
    ensures !IsSafeFilename(filename) ==> r == Some(Rejection(400, BadFilename, []))
  {
    if !IsSafeFilename(filename) then Some(Rejection(400, BadFilename, []))
    else if !fileExists then Some(Rejection(404, FileNotFound, []))
    else None
  }

  /** Update and PUT (lines 237-256, 321-342): the body must carry 'content' before the name is
      looked at. */
  function ContentRejection(body: Body, filename: string, fileExists: bool): (r: Option<Rejection>)
    ensures r.None? <==> HasField(body, "content") && IsSafeFilename(filename) && fileExists
    ensures !HasField(body, "content") ==> r == Some(Rejection(400, ContentRequired, []))
    ensures HasField(body, "content") ==> r == FileRejection(filename, fileExists)
  {
    if !HasField(body, "content") then Some(Rejection(400, ContentRequired, []))
    else FileRejection(filename, fileExists)
  }

  // ------------------------------------------------------------------------------------------
  // Missing fields
  // ------------------------------------------------------------------------------------------

  /** The labels of the falsy values, in order. */
  function FalsyFields(entries: seq<(string, JsonValue)>): (r: seq<string>)
    ensures |r| <= |entries|
    decreases |entries|
  {
    if |entries| == 0 then []
    else
      var last := entries[|entries| - 1];
      FalsyFields(entries[..|entries| - 1]) + (if JTruthy(last.1) then [] else [last.0])
  }

  /** A label is listed exactly when one of its values is falsy. */
  lemma {:induction false} FalsyFieldsExactly(entries: seq<(string, JsonValue)>)
    ensures forall f :: f in FalsyFields(entries) <==> exists i :: 0 <= i < |entries| && entries[i].0 == f && !JTruthy(entries[i].1)
    decreases |entries|
  {
    if |entries| > 0 {
      var n := |entries| - 1;
      var init := entries[..n];
      FalsyFieldsExactly(init);
      assert forall i :: 0 <= i < n ==> init[i] == entries[i];
    }
  }

  /** Nothing is listed exactly when every value is truthy. */
  lemma FalsyFieldsNone(entries: seq<(string, JsonValue)>)
    ensures FalsyFields(entries) == [] <==> forall i :: 0 <= i < |entries| ==> JTruthy(entries[i].1)
  {
    FalsyFieldsExactly(entries);
    if FalsyFields(entries) != [] {
      assert FalsyFields(entries)[0] in FalsyFields(entries);
    } else {
      forall i | 0 <= i < |entries| ensures JTruthy(entries[i].1) {
        assert entries[i].0 !in FalsyFields(entries);
      }
    }
  }

  /** What generation validates: 'razao_social' and 'cnpj', then 'Endereço' reported as
      'endereco' (lines 59-70). */
  function ValidatedData(c: Details): seq<(string, JsonValue)>
  {
    [("razao_social", Get(c, "razao_social")), ("cnpj", Get(c, "cnpj")), ("endereco", Get(c, "Endereço"))]
  }

  lemma FalsyFieldsOfThree(a: (string, JsonValue), b: (string, JsonValue), e: (string, JsonValue))
    ensures FalsyFields([a, b, e]) ==
      (if JTruthy(a.1) then [] else [a.0]) + (if JTruthy(b.1) then [] else [b.0]) + (if JTruthy(e.1) then [] else [e.0])
  {
    var s := [a, b, e];
    assert s[..2] == [a, b] && [a, b][..1] == [a] && [a][..0] == [];
    assert FalsyFields([a]) == FalsyFields([]) + (if JTruthy(a.1) then [] else [a.0]);
    assert FalsyFields([a, b]) == FalsyFields([a]) + (if JTruthy(b.1) then [] else [b.0]);
    assert FalsyFields(s) == FalsyFields([a, b]) + (if JTruthy(e.1) then [] else [e.0]);
  }

  /** Generation reports razao_social, cnpj and endereco, in that order, for each that is absent
      or falsy, and proceeds only when none is. */
  lemma GenerateMissingExactly(c: Details)
    ensures FalsyFields(ValidatedData(c)) ==
      (if JTruthy(Get(c, "razao_social")) then [] else ["razao_social"])
      + (if JTruthy(Get(c, "cnpj")) then [] else ["cnpj"])
      + (if JTruthy(Get(c, "Endereço")) then [] else ["endereco"])
  {
    var v := ValidatedData(c);
    FalsyFieldsOfThree(v[0], v[1], v[2]);
    assert v == [v[0], v[1], v[2]];
  }

  /** The validation loop of generate_contract (lines 59-70). */
  method CollectGenerateMissing(c: Details) returns (missing: seq<string>)
    ensures missing == FalsyFields(ValidatedData(c))
  {
    ghost var v := ValidatedData(c);
    var required := ["razao_social", "cnpj"];
    missing := [];
    for i := 0 to |required|
      invariant missing == FalsyFields(v[..i])
    {
      assert v[..i + 1][..i] == v[..i] && v[i] == (required[i], Get(c, required[i]));
      if !JTruthy(Get(c, required[i])) {
        missing := missing + [required[i]];
      }
    }
    assert v[..3][..2] == v[..2] && v[..3] == v;
    var endereco := Get(c, "Endereço");
    if !JTruthy(endereco) {
      missing := missing + ["endereco"];
    }
  }

  /** `preview_data` (lines 402-406): 'Razão Social' and 'CNPJ' with '' as default, and
      'Endereço' or ''. */
  function PreviewData(c: Details): seq<(string, JsonValue)>
  {
    [ ("razao_social", if "Razão Social" in c then c["Razão Social"] else JString("")),
      ("cnpj", if "CNPJ" in c then c["CNPJ"] else JString("")),
      ("endereco", if JTruthy(Get(c, "Endereço")) then c["Endereço"] else JString("")) ]
  }

  /** The preview's missing list and `can_generate` (lines 409-420). */
  method CollectPreviewMissing(c: Details) returns (missing: seq<string>, canGenerate: bool)
    ensures missing == FalsyFields(PreviewData(c))
    ensures canGenerate <==> missing == []
  {
    var preview := PreviewData(c);
    missing := [];
    for i := 0 to |preview|
      invariant missing == FalsyFields(preview[..i])
    {
      assert preview[..i + 1][..i] == preview[..i];
      if !JTruthy(preview[i].1) {
        missing := missing + [preview[i].0];
      }
    }
    assert preview[..|preview|] == preview;
    canGenerate := |missing| == 0;
  }

  /** The preview lists, in order, each of razao_social, cnpj and endereco whose displayed key
      ('Razão Social', 'CNPJ', 'Endereço') is absent or falsy; `can_generate` holds exactly when
      all three are truthy. */
  lemma PreviewMissingExactly(c: Details)
    ensures FalsyFields(PreviewData(c)) ==
      (if JTruthy(Get(c, "Razão Social")) then [] else ["razao_social"])
      + (if JTruthy(Get(c, "CNPJ")) then [] else ["cnpj"])
      + (if JTruthy(Get(c, "Endereço")) then [] else ["endereco"])
  {
    var v := PreviewData(c);
    FalsyFieldsOfThree(v[0], v[1], v[2]);
    assert v == [v[0], v[1], v[2]];
  }

  // ------------------------------------------------------------------------------------------
  // Generation
  // ------------------------------------------------------------------------------------------

  function Put(m: CompanyData, k: string, v: JsonValue): CompanyData
  {
    if v.JString? then m[k := v.s] else m
  }

  /** `contract_data` (lines 80-84): read from 'Razão Social', 'CNPJ' and 'Endereço'; a value
      that is not text is left out, as generation treats a missing and a null value alike. */
  function Payload(c: Details): CompanyData
  {
    Put(Put(Put(map[], "razao_social", Get(c, "Razão Social")), "cnpj", Get(c, "CNPJ")), "endereco", Get(c, "Endereço"))
  }

  /** What generate_contract decides before calling the generator (lines 29-77): the body must
      carry 'cnpj', the company must be found, and the validated fields must be present. */
  datatype GenerateGate = GenerateRejected(rejection: Rejection) | GenerateProceeds(payload: CompanyData)

  function GenerateDecision(body: Body, companies: map<string, CompanyRow>, data: map<string, DataRow>,
                            order: seq<string>): (r: GenerateGate)
    ensures !HasField(body, "cnpj") ==> r == GenerateRejected(Rejection(400, CnpjRequired, []))
  {
    if !HasField(body, "cnpj") then GenerateRejected(Rejection(400, CnpjRequired, []))
    else
      match CompanyDetails(companies, data, order, body.value["cnpj"])
      case None => GenerateRejected(Rejection(404, CompanyNotFound, []))
      case Some(c) =>
        var missing := FalsyFields(ValidatedData(c));
        if missing != [] then
          GenerateRejected(Rejection(400, "Dados insuficientes para gerar contrato. Campos ausentes: " + Join(", ", missing), missing))
        else GenerateProceeds(Payload(c))
  }

  /** Generation proceeds exactly for a found company whose razao_social, cnpj and 'Endereço'
      are truthy, and hands over the displayed-key values. */
  lemma GenerateDecisionOutcome(body: Body, companies: map<string, CompanyRow>, data: map<string, DataRow>,
                                order: seq<string>)
    ensures GenerateDecision(body, companies, data, order).GenerateProceeds? <==>
      && HasField(body, "cnpj")
      && var c := CompanyDetails(companies, data, order, body.value["cnpj"]);
      && c.Some? && JTruthy(Get(c.value, "razao_social")) && JTruthy(Get(c.value, "cnpj")) && JTruthy(Get(c.value, "Endereço"))
    ensures GenerateDecision(body, companies, data, order).GenerateRejected? ==>
      GenerateDecision(body, companies, data, order).rejection.status in {400, 404}
  {
    if HasField(body, "cnpj") {
      var c := CompanyDetails(companies, data, order, body.value["cnpj"]);
      if c.Some? {
        GenerateMissingExactly(c.value);
      }
    }
  }

  /** The values handed to the generator come from the displayed keys, so what the generator's
      own check reports missing is exactly what the preview reports, when those values are text
      or absent. */
  lemma PayloadMissingIsPreviewMissing(c: Details)
    requires !Get(c, "Razão Social").JOther? && !Get(c, "CNPJ").JOther? && !Get(c, "Endereço").JOther?
    ensures Missing(Payload(c), RequiredFields) == FalsyFields(PreviewData(c))
  {
    PreviewMissingExactly(c);
    var p := Payload(c);
    assert Provided(p, "razao_social") <==> JTruthy(Get(c, "Razão Social"));
    assert Provided(p, "cnpj") <==> JTruthy(Get(c, "CNPJ"));
    assert Provided(p, "endereco") <==> JTruthy(Get(c, "Endereço"));
    var f := RequiredFields;
    assert f[..2] == ["razao_social", "cnpj"] && f[..2][..1] == ["razao_social"] && f[..2][..1][..0] == [];
    assert Missing(p, ["razao_social"]) == (if Provided(p, "razao_social") then [] else ["razao_social"]);
    assert Missing(p, ["razao_social", "cnpj"]) == Missing(p, ["razao_social"]) + (if Provided(p, "cnpj") then [] else ["cnpj"]);
    assert Missing(p, f) == Missing(p, ["razao_social", "cnpj"]) + (if Provided(p, "endereco") then [] else ["endereco"]);
  }

  /** The keys validated and the keys handed over differ: a company with 'razao_social' and
      'cnpj' but no 'Razão Social' or 'CNPJ' passes the route's check, is previewed as unable to
      generate, and then fails the generator's own check on both fields (a 400 from the
      ValueError). */
  lemma ValidatedKeysDifferFromPayloadKeys()
    ensures var c := map["razao_social" := JString("ACME"), "cnpj" := JString("1"), "Endereço" := JString("Rua A")];
      && FalsyFields(ValidatedData(c)) == []
      && FalsyFields(PreviewData(c)) == ["razao_social", "cnpj"]
      && Missing(Payload(c), RequiredFields) == ["razao_social", "cnpj"]
  {
    var c := map["razao_social" := JString("ACME"), "cnpj" := JString("1"), "Endereço" := JString("Rua A")];
    assert "Razão Social" !in c && "CNPJ" !in c;
    GenerateMissingExactly(c);
    PayloadMissingIsPreviewMissing(c);
  }

  // ------------------------------------------------------------------------------------------
  // Update from edited text
  // ------------------------------------------------------------------------------------------

  /** `updated_data` (lines 266-283): the three groups of the route's contractor pattern, each
      stripped; None when the pattern does not match. */
  function UpdatedData(content: string): Option<CompanyData>
  {
    match ContractorClause.Parse(content, ContractorClause.Route)
    case None => None
    case Some(cap) => Some(ClauseData(cap))
  }

  /** The captured groups, each stripped, under the generator's keys. */
  function ClauseData(cap: ContractorClause.Capture): CompanyData
  {
    map["razao_social" := Strip(cap.name), "cnpj" := Strip(cap.cnpj), "endereco" := Strip(cap.address)]
  }

  /** What the update route decides (lines 237-302): body, name and file checks, then either
      regeneration with the captured data or a 400 when the clause is not found. */
  datatype UpdateGate = UpdateRejected(rejection: Rejection) | Regenerate(updated: CompanyData)

  function UpdateDecision(body: Body, filename: string, fileExists: bool): (r: UpdateGate)
    ensures r.Regenerate? ==> HasField(body, "content") && IsSafeFilename(filename) && fileExists
    ensures r.Regenerate? ==> UpdatedData(body.value["content"]) == Some(r.updated)
  {
    match ContentRejection(body, filename, fileExists)
    case Some(rej) => UpdateRejected(rej)
    case None =>
      match UpdatedData(body.value["content"])
      case None => UpdateRejected(Rejection(400, ClauseNotFound, []))
      case Some(d) => Regenerate(d)
  }

  /** The data read from a matched clause. */
  lemma UpdatedDataOf(content: string, cap: ContractorClause.Capture)
    requires ContractorClause.Parse(content, ContractorClause.Route) == Some(cap)
    ensures UpdatedData(content) == Some(ClauseData(cap))
  {
  }

  lemma UpdatedDataNone(content: string)
    requires ContractorClause.Parse(content, ContractorClause.Route).None?
    ensures UpdatedData(content).None?
  {
  }

  lemma ClauseDataFields(cap: ContractorClause.Capture)
    ensures ClauseData(cap)["razao_social"] == Strip(cap.name)
    ensures ClauseData(cap)["cnpj"] == Strip(cap.cnpj)
    ensures ClauseData(cap)["endereco"] == Strip(cap.address)
  {
    ThreeKeys(Strip(cap.name), Strip(cap.cnpj), Strip(cap.address));
  }

  lemma ThreeKeys(name: string, cnpj: string, address: string)
    ensures var d := map["razao_social" := name, "cnpj" := cnpj, "endereco" := address];
      d["razao_social"] == name && d["cnpj"] == cnpj && d["endereco"] == address
  {
  }

  /** `strip()` adds no character. */
  lemma StripKeepsOut(s: string, c: char)
    requires c !in s
    ensures c !in Strip(s)
  {
    var lo := StripIsInfix(s);
    forall j | 0 <= j < |Strip(s)| ensures Strip(s)[j] != c {
      assert Strip(s)[j] == s[lo + j];
    }
  }

  /** A captured CNPJ is a non-empty run of digits and "/.,-", kept whole by `strip()`; the
      captured name has no comma or line break. */
  lemma UpdatedDataShape(content: string)
    ensures var d := UpdatedData(content);
      d.Some? ==>
        && ContractorClause.CnpjGroup(d.value["cnpj"])
        && ',' !in d.value["razao_social"] && '\n' !in d.value["razao_social"]
  {
    var p := ContractorClause.Parse(content, ContractorClause.Route);
    if p.Some? {
      UpdatedDataOf(content, p.value);
      ClauseDataFields(p.value);
      ContractorClause.CnpjGroupStripped(p.value.cnpj);
      StripKeepsOut(p.value.name, ',');
      StripKeepsOut(p.value.name, '\n');
    } else {
      UpdatedDataNone(content);
    }
  }

  /** Edited text that still carries the rendered clause, followed by ", neste ato", yields the
      rendered name, CNPJ and address again. */
  lemma UpdateReadsRenderedClause(prefix: string, name: string, cnpj: string, address: string, tail: string)
    requires ContractorClause.Readable(prefix, name, cnpj, ContractorClause.Route)
    requires ContractorClause.Segments(address, true) && ContractorClause.NoActingClause(address)
    requires Strip(name) == name && Strip(address) == address
    ensures UpdatedData(prefix + ContractorClause.Render(name, cnpj, address) + (", " + ContractorClause.ActingClause + tail))
         == Some(map["razao_social" := name, "cnpj" := cnpj, "endereco" := address])
  {
    var content := prefix + ContractorClause.Render(name, cnpj, address) + (", " + ContractorClause.ActingClause + tail);
    ContractorClause.RouteReadsRenderedClause(prefix, name, cnpj, address, tail);
    var cap := ContractorClause.Capture(name, cnpj, address);
    UpdatedDataOf(content, cap);
    ContractorClause.CnpjGroupStripped(cnpj);
    assert ClauseData(cap) == map["razao_social" := name, "cnpj" := cnpj, "endereco" := address];
  }

  // ------------------------------------------------------------------------------------------
  // Preview
  // ------------------------------------------------------------------------------------------

  datatype PreviewGate = PreviewRejected(rejection: Rejection)
                       | Preview(data: seq<(string, JsonValue)>, missing: seq<string>, canGenerate: bool, company: Details)

  /** preview_contract_data (lines 383-420). */
  function PreviewDecision(body: Body, companies: map<string, CompanyRow>, data: map<string, DataRow>,
                           order: seq<string>): (r: PreviewGate)
    ensures !HasField(body, "cnpj") ==> r == PreviewRejected(Rejection(400, CnpjRequired, []))
    ensures r.Preview? ==> (r.canGenerate <==> r.missing == [])
  {
    if !HasField(body, "cnpj") then PreviewRejected(Rejection(400, CnpjRequired, []))
    else
      match CompanyDetails(companies, data, order, body.value["cnpj"])
      case None => PreviewRejected(Rejection(404, CompanyNotFound, []))
      case Some(c) =>
        var missing := FalsyFields(PreviewData(c));
        Preview(PreviewData(c), missing, missing == [], c)
  }
}

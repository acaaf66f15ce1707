/** The contract template service (backend/services/contract_generation_service.py): a Word
    template is a sequence of paragraphs, each a sequence of formatted runs, plus tables whose
    cells are plain texts. Generation fills the three bracketed placeholders with company data;
    an edited contract text is mapped back onto the template at run level. Loading and saving
    .docx files is I/O: a file that loads is `Ok(content)`, one that raises is `Err(message)`. */
module ContractGeneration {
  import opened Common
  import ContractorClause

  const RazaoPlaceholder: string := "[RAZÃO SOCIAL]"
  const CnpjPlaceholder: string := "[CNPJ]"
  const EnderecoPlaceholder: string := "[ENDEREÇO]"

  /** The fields generation requires, in the order they are checked. */
  const RequiredFields: seq<string> := ["razao_social", "cnpj", "endereco"]

  datatype Paragraph = Paragraph(runs: seq<string>)

  /** A table as rows of cell texts. */
  type Table = seq<seq<string>>

  datatype DocContent = DocContent(paragraphs: seq<Paragraph>, tables: seq<Table>)

  /** `paragraph.text`: the runs' texts concatenated. */
  function Text(p: Paragraph): string
  {
    Join("", p.runs)
  }

  /** A placeholder-to-value dictionary, in insertion order. */
  type Mapping = seq<(string, string)>

  predicate NonEmptyKeys(m: Mapping)
  {
    forall i :: 0 <= i < |m| ==> |m[i].0| > 0
  }

  // ------------------------------------------------------------------------------------------
  // Required-field validation
  // ------------------------------------------------------------------------------------------

  /** Company data as the route passes it: field name to text. */
  type CompanyData = map<string, string>

  /** `company_data.get(field)` is truthy. */
  predicate Provided(data: CompanyData, field: string)
  {
    field in data && data[field] != ""
  }

  /** The fields of `fields` that are absent or empty, in order. */
  function Missing(data: CompanyData, fields: seq<string>): (r: seq<string>)
    decreases |fields|
  {
    if |fields| == 0 then []
    else
      var last := fields[|fields| - 1];
      Missing(data, fields[..|fields| - 1]) + (if Provided(data, last) then [] else [last])
  }

  /** The collected list holds exactly the absent or empty fields. */
  lemma {:induction false} MissingExactly(data: CompanyData, fields: seq<string>)
    ensures forall f :: f in Missing(data, fields) <==> f in fields && !Provided(data, f)
    ensures |Missing(data, fields)| <= |fields|
    decreases |fields|
  {
    if |fields| > 0 {
      var init := fields[..|fields| - 1];
      MissingExactly(data, init);
      assert fields == init + [fields[|fields| - 1]];
    }
  }

  /** The validation loop of generate_contract. */
  method MissingFields(data: CompanyData) returns (missing: seq<string>)
    ensures missing == Missing(data, RequiredFields)
  {
    var fields := RequiredFields;
    missing := [];
    for i := 0 to |fields|
      invariant missing == Missing(data, fields[..i])
    {
      assert fields[..i + 1][..i] == fields[..i];
      if !Provided(data, fields[i]) {
        missing := missing + [fields[i]];
      }
    }
    assert fields[..|fields|] == fields;
  }

  /** The ValueError text for missing fields. */
  function MissingMessage(missing: seq<string>): string
  {
    "Campos obrigatórios ausentes: " + Join(", ", missing)
  }

  // ------------------------------------------------------------------------------------------
  // Sequential placeholder substitution
  // ------------------------------------------------------------------------------------------

  /** One entry of the substitution loop: replace every occurrence when there is one. */
  function Step(t: string, entry: (string, string)): string
    requires |entry.0| > 0
  {
    if Contains(t, entry.0) then ReplaceAll(t, entry.0, entry.1) else t
  }

  /** The substitution loop over all entries, in order. */
  function FillText(t: string, m: Mapping): string
    requires NonEmptyKeys(m)
    decreases |m|
  {
    if |m| == 0 then t else Step(FillText(t, m[..|m| - 1]), m[|m| - 1])
  }

  /** The substitution loop, as the service runs it on one paragraph or cell text. */
  method SubstituteFields(text: string, m: Mapping) returns (newText: string)
    requires NonEmptyKeys(m)
    ensures newText == FillText(text, m)
  {
    newText := text;
    for k := 0 to |m|
      invariant newText == FillText(text, m[..k])
    {
      assert m[..k + 1][..k] == m[..k];
      if Contains(newText, m[k].0) {
        newText := ReplaceAll(newText, m[k].0, m[k].1);
      }
    }
    assert m[..|m|] == m;
  }

  /** Text without any of the entries' placeholders is left as it is. */
  lemma {:induction false} FillTextAbsent(t: string, m: Mapping)
    requires NonEmptyKeys(m)
    requires forall i :: 0 <= i < |m| ==> !Contains(t, m[i].0)
    ensures FillText(t, m) == t
    decreases |m|
  {
    if |m| > 0 {
      FillTextAbsent(t, m[..|m| - 1]);
    }
  }

  /** After the loop no placeholder of the mapping is left, when every value is safe for every
      placeholder (non-empty, bracket-free, not a piece of the placeholder). */
  lemma {:induction false} FillTextClears(t: string, m: Mapping)
    requires forall i :: 0 <= i < |m| ==> IsPlaceholder(m[i].0)
    requires forall i, j :: 0 <= i < |m| && 0 <= j < |m| ==> SafeValue(m[i].1, m[j].0)
    ensures NonEmptyKeys(m)
    ensures forall j :: 0 <= j < |m| ==> !Contains(FillText(t, m), m[j].0)
    decreases |m|
  {
    if |m| > 0 {
      var init := m[..|m| - 1];
      var (p, v) := m[|m| - 1];
      FillTextClears(t, init);
      var s := FillText(t, init);
      forall j | 0 <= j < |m|
        ensures !Contains(FillText(t, m), m[j].0)
      {
        var q := m[j].0;
        if Contains(s, p) {
          if j < |m| - 1 {
            assert init[j] == m[j];
          }
          ReplaceLeavesNoPlaceholder(s, p, v, q);
        } else if j < |m| - 1 {
          assert init[j] == m[j];
        }
      }
    }
  }

  /** The generation mapping, in the order of the service's dictionary. */
  function FieldMapping(data: CompanyData): (m: Mapping)
    requires forall f :: f in RequiredFields ==> f in data
    ensures NonEmptyKeys(m) && |m| == 3
    ensures forall i :: 0 <= i < 3 ==> IsPlaceholder(m[i].0) && m[i].1 == data[RequiredFields[i]]
  {
    assert IsPlaceholder(RazaoPlaceholder) by {
      assert RazaoPlaceholder[1..|RazaoPlaceholder| - 1] == "RAZÃO SOCIAL";
    }
    assert IsPlaceholder(CnpjPlaceholder) by {
      assert CnpjPlaceholder[1..|CnpjPlaceholder| - 1] == "CNPJ";
    }
    assert IsPlaceholder(EnderecoPlaceholder) by {
      assert EnderecoPlaceholder[1..|EnderecoPlaceholder| - 1] == "ENDEREÇO";
    }
    [(RazaoPlaceholder, data["razao_social"]), (CnpjPlaceholder, data["cnpj"]),
     (EnderecoPlaceholder, data["endereco"])]
  }

  /** A paragraph after the generation loop: a non-empty paragraph whose text changed is
      rewritten as one run (`paragraph.text = new_text`); every other paragraph keeps its runs. */
  function FillParagraph(p: Paragraph, m: Mapping): Paragraph
    requires NonEmptyKeys(m)
  {
    if Text(p) == "" then p
    else
      var n := FillText(Text(p), m);
      if n != Text(p) then Paragraph([n]) else p
  }

  /** A table with every cell text substituted. */
  function FillTable(t: Table, m: Mapping): (r: Table)
    requires NonEmptyKeys(m)
    ensures |r| == |t| && forall i :: 0 <= i < |t| ==> |r[i]| == |t[i]|
  {
    seq(|t|, i requires 0 <= i < |t| => seq(|t[i]|, j requires 0 <= j < |t[i]| => FillText(t[i][j], m)))
  }

  function FillTables(ts: seq<Table>, m: Mapping): (r: seq<Table>)
    requires NonEmptyKeys(m)
    ensures |r| == |ts|
  {
    seq(|ts|, i requires 0 <= i < |ts| => FillTable(ts[i], m))
  }

  /** The whole document after generate_contract's two loops. */
  function Filled(c: DocContent, m: Mapping): (r: DocContent)
    requires NonEmptyKeys(m)
    ensures |r.paragraphs| == |c.paragraphs| && |r.tables| == |c.tables|
  {
    DocContent(seq(|c.paragraphs|, i requires 0 <= i < |c.paragraphs| => FillParagraph(c.paragraphs[i], m)),
               FillTables(c.tables, m))
  }

  lemma FillTextEmpty(m: Mapping)
    requires NonEmptyKeys(m)
    ensures FillText("", m) == ""
  {
    FillTextAbsent("", m);
  }

  /** Whatever branch it takes, a filled paragraph reads as the substituted text. */
  lemma FillParagraphText(p: Paragraph, m: Mapping)
    requires NonEmptyKeys(m)
    ensures Text(FillParagraph(p, m)) == FillText(Text(p), m)
  {
    if Text(p) == "" {
      FillTextEmpty(m);
    }
  }

  /** A paragraph keeps its runs exactly when substitution leaves its text as it was; otherwise it
      collapses to one run holding the new text. */
  lemma FillParagraphUntouched(p: Paragraph, m: Mapping)
    requires NonEmptyKeys(m)
    ensures FillText(Text(p), m) == Text(p) ==> FillParagraph(p, m) == p
    ensures FillText(Text(p), m) != Text(p) ==> FillParagraph(p, m).runs == [FillText(Text(p), m)]
  {
    if Text(p) == "" {
      FillTextEmpty(m);
    }
  }

  /** A paragraph or cell holding no placeholder of the mapping is not touched. */
  lemma NoPlaceholderUntouched(p: Paragraph, cell: string, m: Mapping)
    requires NonEmptyKeys(m)
    requires forall i :: 0 <= i < |m| ==> !Contains(Text(p), m[i].0) && !Contains(cell, m[i].0)
    ensures FillParagraph(p, m) == p
    ensures FillText(cell, m) == cell
  {
    FillTextAbsent(Text(p), m);
    FillTextAbsent(cell, m);
  }

  /** The three values of the company data are safe for the three placeholders. */
  predicate SafeData(data: CompanyData)
  {
    && (forall f :: f in RequiredFields ==> f in data)
    && (forall f, q :: f in RequiredFields && q in [RazaoPlaceholder, CnpjPlaceholder, EnderecoPlaceholder]
          ==> SafeValue(data[f], q))
  }

  /** Safe company data makes every value of the mapping safe for every placeholder. */
  lemma SafeMapping(data: CompanyData)
    requires SafeData(data)
    ensures forall i, j :: 0 <= i < 3 && 0 <= j < 3 ==> SafeValue(FieldMapping(data)[i].1, FieldMapping(data)[j].0)
  {
    var m := FieldMapping(data);
    forall i, j | 0 <= i < 3 && 0 <= j < 3
      ensures SafeValue(m[i].1, m[j].0)
    {
      assert m[i].1 == data[RequiredFields[i]];
      assert m[j].0 in [RazaoPlaceholder, CnpjPlaceholder, EnderecoPlaceholder];
    }
  }

  /** With safe values, no paragraph and no cell of the generated contract holds a placeholder. */
  lemma FilledHasNoPlaceholder(c: DocContent, data: CompanyData)
    requires SafeData(data)
    ensures
      var m := FieldMapping(data);
      var r := Filled(c, m);
      && (forall i, j :: 0 <= i < |r.paragraphs| && 0 <= j < 3 ==> !Contains(Text(r.paragraphs[i]), m[j].0))
      && (forall t, i, k, j :: 0 <= t < |r.tables| && 0 <= i < |r.tables[t]| && 0 <= k < |r.tables[t][i]| && 0 <= j < 3
            ==> !Contains(r.tables[t][i][k], m[j].0))
  {
    var m := FieldMapping(data);
    var r := Filled(c, m);
    SafeMapping(data);
    forall i, j | 0 <= i < |r.paragraphs| && 0 <= j < 3
      ensures !Contains(Text(r.paragraphs[i]), m[j].0)
    {
      FillParagraphText(c.paragraphs[i], m);
      FillTextClears(Text(c.paragraphs[i]), m);
    }
    forall t, i, k, j | 0 <= t < |r.tables| && 0 <= i < |r.tables[t]| && 0 <= k < |r.tables[t][i]| && 0 <= j < 3
      ensures !Contains(r.tables[t][i][k], m[j].0)
    {
      FillTextClears(c.tables[t][i][k], m);
    }
  }

  // ------------------------------------------------------------------------------------------
  // Run-level update of the template
  // ------------------------------------------------------------------------------------------

  /** One placeholder applied to one paragraph: when the paragraph text holds it, every run that
      holds it whole is rewritten; runs and their count are otherwise kept. */
  function UpdateParagraph(p: Paragraph, placeholder: string, value: string): (q: Paragraph)
    requires |placeholder| > 0
    ensures |q.runs| == |p.runs|
  {
    if Contains(Text(p), placeholder) then
      Paragraph(seq(|p.runs|, j requires 0 <= j < |p.runs| =>
        if Contains(p.runs[j], placeholder) then ReplaceAll(p.runs[j], placeholder, value) else p.runs[j]))
    else p
  }

  /** All changes applied in order, each to every paragraph. */
  function UpdateParagraphs(ps: seq<Paragraph>, changes: Mapping): (r: seq<Paragraph>)
    requires NonEmptyKeys(changes)
    ensures |r| == |ps|
    decreases |changes|
  {
    if |changes| == 0 then ps
    else
      var prev := UpdateParagraphs(ps, changes[..|changes| - 1]);
      var (placeholder, value) := changes[|changes| - 1];
      seq(|prev|, i requires 0 <= i < |prev| => UpdateParagraph(prev[i], placeholder, value))
  }

  /** The template after update_document_content's loops; each cell takes every change in turn,
      which is the substitution loop again. */
  function Updated(c: DocContent, changes: Mapping): DocContent
    requires NonEmptyKeys(changes)
  {
    DocContent(UpdateParagraphs(c.paragraphs, changes), FillTables(c.tables, changes))
  }

  /** The run loop for one paragraph. */
  method ReplaceInRuns(p: Paragraph, placeholder: string, value: string) returns (q: Paragraph)
    requires |placeholder| > 0 && Contains(Text(p), placeholder)
    ensures q == UpdateParagraph(p, placeholder, value)
  {
    var runs := p.runs;
    for j := 0 to |runs|
      invariant |runs| == |p.runs|
      invariant forall k :: 0 <= k < j ==> runs[k] == UpdateParagraph(p, placeholder, value).runs[k]
      invariant forall k :: j <= k < |runs| ==> runs[k] == p.runs[k]
    {
      if Contains(runs[j], placeholder) {
        runs := runs[j := ReplaceAll(runs[j], placeholder, value)];
      }
    }
    q := Paragraph(runs);
  }

  /** Only runs that hold the whole placeholder change. */
  lemma UpdateTouchesOnlyHoldingRuns(p: Paragraph, placeholder: string, value: string, j: nat)
    requires |placeholder| > 0 && j < |p.runs|
    ensures UpdateParagraph(p, placeholder, value).runs[j] != p.runs[j] ==> Contains(p.runs[j], placeholder)
  {
  }

  /** A run holding the whole placeholder no longer holds it after the update, for a safe value. */
  lemma UpdateClearsRuns(p: Paragraph, placeholder: string, value: string)
    requires IsPlaceholder(placeholder) && SafeValue(value, placeholder)
    ensures forall j :: 0 <= j < |p.runs| ==> !Contains(UpdateParagraph(p, placeholder, value).runs[j], placeholder)
  {
    var q := UpdateParagraph(p, placeholder, value);
    forall j | 0 <= j < |p.runs|
      ensures !Contains(q.runs[j], placeholder)
    {
      if Contains(Text(p), placeholder) {
        ReplaceLeavesNoPlaceholder(p.runs[j], placeholder, value, placeholder);
      } else {
        ContainsRun(p.runs, j, placeholder);
      }
    }
  }

  /** A run's pattern is a pattern of the paragraph text. */
  lemma {:induction false} ContainsRun(runs: seq<string>, j: nat, s: string)
    requires j < |runs|
    ensures Contains(runs[j], s) ==> Contains(Join("", runs), s)
    decreases |runs|
  {
    if |runs| > 1 {
      assert Join("", runs) == runs[0] + Join("", runs[1..]);
      if j == 0 {
        if Contains(runs[0], s) {
          ContainsConcatLeft(runs[0], Join("", runs[1..]), s);
        }
      } else {
        ContainsRun(runs[1..], j - 1, s);
        if Contains(runs[j], s) {
          ContainsConcatRight(runs[0], Join("", runs[1..]), s);
        }
      }
    }
  }

  /** A placeholder split across two runs survives the update: the paragraph text holds it, no
      run does, so nothing changes. */
  lemma SplitPlaceholderSurvives()
    ensures var p := Paragraph(["[CN", "PJ]"]);
            Contains(Text(p), CnpjPlaceholder) && UpdateParagraph(p, CnpjPlaceholder, "12.345.678/0001-90") == p
  {
    var p := Paragraph(["[CN", "PJ]"]);
    assert Text(p) == "[CNPJ]";
    assert StartsWith(Text(p), CnpjPlaceholder);
    assert !Contains("[CN", CnpjPlaceholder) by {
      if Contains("[CN", CnpjPlaceholder) {
        ContainsLength("[CN", CnpjPlaceholder);
      }
    }
    assert !Contains("PJ]", CnpjPlaceholder) by {
      if Contains("PJ]", CnpjPlaceholder) {
        ContainsLength("PJ]", CnpjPlaceholder);
      }
    }
    var q := UpdateParagraph(p, CnpjPlaceholder, "12.345.678/0001-90");
    assert q.runs == p.runs;
  }

  /** With no detected change the template is saved as it was. */
  lemma UpdatedWithoutChanges(c: DocContent)
    ensures Updated(c, []) == c
  {
    var r := FillTables(c.tables, []);
    forall t | 0 <= t < |c.tables|
      ensures r[t] == c.tables[t]
    {
      var ft := FillTable(c.tables[t], []);
      forall i | 0 <= i < |c.tables[t]|
        ensures ft[i] == c.tables[t][i]
      {
        assert |ft[i]| == |c.tables[t][i]|;
        forall k | 0 <= k < |ft[i]|
          ensures ft[i][k] == c.tables[t][i][k]
        {
        }
      }
    }
  }

  // ------------------------------------------------------------------------------------------
  // The document object and its in-place loops
  // ------------------------------------------------------------------------------------------

  /** A loaded python-docx document whose paragraphs, runs and cells are rewritten in place. */
  class Document {
    var paragraphs: seq<Paragraph>
    var tables: seq<Table>

    constructor (c: DocContent)
      ensures paragraphs == c.paragraphs && tables == c.tables
    {
      paragraphs := c.paragraphs;
      tables := c.tables;
    }

    function Content(): DocContent
      reads this
    {
      DocContent(paragraphs, tables)
    }

    /** Rewrites every cell of every table with `rewrite`-style substitution; `guarded` skips
        empty and unchanged cells as generation does. */
    method SubstituteCells(m: Mapping, guarded: bool)
      requires NonEmptyKeys(m)
      modifies this
      ensures paragraphs == old(paragraphs)
      ensures tables == FillTables(old(tables), m)
    {
      var ts: seq<Table> := tables;
      for t := 0 to |ts|
        invariant paragraphs == old(paragraphs) && tables == old(tables)
        invariant |ts| == |old(tables)|
        invariant forall u :: 0 <= u < t ==> ts[u] == FillTable(old(tables)[u], m)
        invariant forall u :: t <= u < |ts| ==> ts[u] == old(tables)[u]
      {
        var table: Table := ts[t];
        ghost var goal := FillTable(table, m);
        for i := 0 to |table|
          invariant paragraphs == old(paragraphs) && tables == old(tables)
          invariant |table| == |goal|
          invariant forall k :: 0 <= k < i ==> table[k] == goal[k]
          invariant forall k :: i <= k < |table| ==> table[k] == ts[t][k]
        {
          var row: seq<string> := table[i];
          for k := 0 to |row|
            invariant paragraphs == old(paragraphs) && tables == old(tables)
            invariant |row| == |ts[t][i]|
            invariant forall l :: 0 <= l < k ==> row[l] == FillText(ts[t][i][l], m)
            invariant forall l :: k <= l < |row| ==> row[l] == ts[t][i][l]
          {
            if !guarded || row[k] != "" {
              var n := SubstituteFields(row[k], m);
              if !guarded || n != row[k] {
                row := row[k := n];
              }
            } else {
              FillTextEmpty(m);
            }
          }
          assert row == goal[i];
          table := table[i := row];
        }
        assert table == goal;
        ts := ts[t := table];
      }
      assert ts == FillTables(old(tables), m);
      tables := ts;
    }

    /** generate_contract's paragraph and table loops. */
    method FillPlaceholders(m: Mapping)
      requires NonEmptyKeys(m)
      modifies this
      ensures Content() == Filled(old(Content()), m)
    {
      ghost var p0 := paragraphs;
      for i := 0 to |paragraphs|
        invariant |paragraphs| == |p0| && tables == old(tables)
        invariant forall j :: 0 <= j < i ==> paragraphs[j] == FillParagraph(p0[j], m)
        invariant forall j :: i <= j < |paragraphs| ==> paragraphs[j] == p0[j]
      {
        var original := Text(paragraphs[i]);
        if original != "" {
          var newText := SubstituteFields(original, m);
          if newText != original {
            paragraphs := paragraphs[i := Paragraph([newText])];
          }
        }
      }
      SubstituteCells(m, true);
    }

    /** update_document_content's loops: each change over all paragraphs, then each cell over all
        changes. */
    method ApplyChanges(changes: Mapping)
      requires NonEmptyKeys(changes)
      modifies this
      ensures Content() == Updated(old(Content()), changes)
    {
      for c := 0 to |changes|
        invariant paragraphs == UpdateParagraphs(old(paragraphs), changes[..c])
        invariant tables == old(tables)
      {
        var (placeholder, value) := changes[c];
        ghost var p0 := paragraphs;
        for i := 0 to |paragraphs|
          invariant |paragraphs| == |p0| && tables == old(tables)
          invariant forall j :: 0 <= j < i ==> paragraphs[j] == UpdateParagraph(p0[j], placeholder, value)
          invariant forall j :: i <= j < |paragraphs| ==> paragraphs[j] == p0[j]
        {
          if Contains(Text(paragraphs[i]), placeholder) {
            var q := ReplaceInRuns(paragraphs[i], placeholder, value);
            paragraphs := paragraphs[i := q];
          }
        }
        assert changes[..c + 1][..c] == changes[..c];
      }
      assert changes[..|changes|] == changes;
      SubstituteCells(changes, false);
    }
  }

  // ------------------------------------------------------------------------------------------
  // The service operations
  // ------------------------------------------------------------------------------------------

  /** The temporary file name: "contrato_", the CNPJ without '.', '/' and '-', "_", the name's
      hash modulo 10000 (Python's `%`, never negative here), ".docx". `nameHash` stands for
      `hash(razao_social)`, which Python randomises per process. */
  function OutputFilename(cnpj: string, nameHash: int): (r: string)
  {
    "contrato_" + RemoveChars(cnpj, {'.', '/', '-'}) + "_" + NatToString(nameHash % 10000) + ".docx"
  }

  /** The pieces of the name: the prefix, a CNPJ part without '.', '/' or '-', a number of at
      most four digits, and the extension. */
  lemma OutputFilenameShape(cnpj: string, nameHash: int)
    ensures var r := OutputFilename(cnpj, nameHash);
            StartsWith(r, "contrato_") && EndsWith(r, ".docx")
    ensures var n := RemoveChars(cnpj, {'.', '/', '-'});
            '.' !in n && '/' !in n && '-' !in n
    ensures 0 < |NatToString(nameHash % 10000)| <= 4
  {
    var r := OutputFilename(cnpj, nameHash);
    var tail := RemoveChars(cnpj, {'.', '/', '-'}) + "_" + NatToString(nameHash % 10000) + ".docx";
    assert r == "contrato_" + tail;
    assert r[..9] == "contrato_";
    assert r[|r| - 5..] == ".docx";
    assert Pow10(4) == 10000;
    NatToStringLength(nameHash % 10000, 4);
  }

  /** The CNPJ part is what the source's `.replace('.', '').replace('/', '').replace('-', '')`
      chain leaves: every other character of the CNPJ, in order. */
  lemma OutputFilenameReplaces(cnpj: string, nameHash: int)
    ensures OutputFilename(cnpj, nameHash) ==
      "contrato_" + ReplaceAll(ReplaceAll(ReplaceAll(cnpj, ".", ""), "/", ""), "-", "") + "_"
      + NatToString(nameHash % 10000) + ".docx"
  {
    ReplaceChainRemoves(cnpj, '.', '/', '-');
  }

  /** A CNPJ given as digits only appears in the name unchanged. */
  lemma OutputFilenameKeepsDigits(cnpj: string, nameHash: int)
    requires forall k :: 0 <= k < |cnpj| ==> IsDigit(cnpj[k])
    ensures OutputFilename(cnpj, nameHash) == "contrato_" + cnpj + "_" + NatToString(nameHash % 10000) + ".docx"
  {
    RemoveCharsKeeps(cnpj, {'.', '/', '-'});
  }

  /** What generate_contract ends in. */
  datatype GenerateOutcome =
    | Saved(filename: string, content: DocContent)
    | MissingRequired(fields: seq<string>)  // ValueError, raised before the template is read
    | TemplateUnreadable(error: string)     // the template failed to load

  /** generate_contract: validation first, then the template is loaded, filled and saved under
      the generated name. */
  method GenerateContract(data: CompanyData, template: Result<DocContent>, nameHash: int)
    returns (r: GenerateOutcome)
    ensures Missing(data, RequiredFields) != [] ==> r == MissingRequired(Missing(data, RequiredFields))
    ensures Missing(data, RequiredFields) == [] && template.Err? ==> r == TemplateUnreadable(template.message)
    ensures Missing(data, RequiredFields) == [] && template.Ok? ==>
              (forall f :: f in RequiredFields ==> f in data)
              && r == Saved(OutputFilename(data["cnpj"], nameHash), Filled(template.value, FieldMapping(data)))
  {
    var missing := MissingFields(data);
    if missing != [] {
      return MissingRequired(missing);
    }
    MissingExactly(data, RequiredFields);
    if template.Err? {
      return TemplateUnreadable(template.message);
    }
    var doc := new Document(template.value);
    var m := FieldMapping(data);
    doc.FillPlaceholders(m);
    r := Saved(OutputFilename(data["cnpj"], nameHash), doc.Content());
  }

  /** `re.findall(r'\[([^\]]+)\]', text)`: at each '[' the label runs to the next ']' and must
      be non-empty; scanning resumes after the ']'. */
  function BracketFields(t: string): (r: seq<string>)
    ensures forall i :: 0 <= i < |r| ==> |r[i]| > 0 && ']' !in r[i]
    decreases |t|
  {
    if |t| == 0 then []
    else if t[0] == '[' then
      var j := IndexOf(t[1..], ']');
      if j.Some? && j.value > 0 then [t[1..1 + j.value]] + BracketFields(t[2 + j.value..])
      else BracketFields(t[1..])
    else BracketFields(t[1..])
  }

  /** The first index of `c` in `s`. */
  function IndexOf(s: string, c: char): (r: Option<nat>)
    ensures r.Some? ==> r.value < |s| && s[r.value] == c && c !in s[..r.value]
    ensures r.None? ==> c !in s
    decreases |s|
  {
    if |s| == 0 then None
    else if s[0] == c then Some(0)
    else
      var r := IndexOf(s[1..], c);
      if r.Some? then
        assert s[..r.value + 1] == [s[0]] + s[1..][..r.value];
        Some(r.value + 1)
      else None
  }

  /** Every reported label sits between brackets in the text. */
  lemma {:induction false} BracketFieldsSound(t: string)
    ensures forall x :: x in BracketFields(t) ==> Contains(t, "[" + x + "]")
    decreases |t|
  {
    if |t| > 0 {
      BracketFieldsSound(t[1..]);
      forall x | x in BracketFields(t[1..]) ensures Contains(t, "[" + x + "]") {
        assert t[1..|t|] == t[1..];
        ContainsSlice(t, 1, |t|, "[" + x + "]");
      }
      if t[0] == '[' {
        var j := IndexOf(t[1..], ']');
        if j.Some? && j.value > 0 {
          var x := t[1..1 + j.value];
          assert t[..2 + j.value] == "[" + x + "]";
          assert OccursAt(t, "[" + x + "]", 0);
          OccursAtContains(t, "[" + x + "]", 0);
          BracketFieldsSound(t[2 + j.value..]);
          forall y | y in BracketFields(t[2 + j.value..]) ensures Contains(t, "[" + y + "]") {
            assert t[2 + j.value..|t|] == t[2 + j.value..];
            ContainsSlice(t, 2 + j.value, |t|, "[" + y + "]");
          }
        }
      }
    }
  }

  /** A placeholder preceded by text without '[' is reported, and scanning resumes after it. */
  lemma {:induction false} BracketFieldsFind(a: string, x: string, b: string)
    requires '[' !in a && |x| > 0 && ']' !in x
    ensures BracketFields(a + "[" + x + "]" + b) == [x] + BracketFields(b)
    decreases |a|
  {
    var t := a + "[" + x + "]" + b;
    if |a| > 0 {
      assert t[1..] == a[1..] + "[" + x + "]" + b;
      BracketFieldsFind(a[1..], x, b);
    } else {
      assert t == "[" + x + "]" + b;
      var s := t[1..];
      assert s == x + "]" + b;
      assert s[..|x|] == x;
      assert ']' !in s[..|x|];
      assert s[|x|] == ']';
      IndexOfAt(s, ']', |x|);
      assert t[1..1 + |x|] == x;
      assert t[2 + |x|..] == b;
    }
  }

  lemma {:induction false} IndexOfAt(s: string, c: char, k: nat)
    requires k < |s| && s[k] == c && c !in s[..k]
    ensures IndexOf(s, c) == Some(k)
    decreases k
  {
    if k > 0 {
      assert s[0] == s[..k][0];
      assert s[1..][..k - 1] == s[..k][1..];
      IndexOfAt(s[1..], c, k - 1);
    }
  }

  function Elems(xs: seq<string>): set<string>
  {
    set x | x in xs
  }

  /** Labels in paragraph texts, then in cells, as sets. */
  function ParagraphFields(ps: seq<Paragraph>): set<string>
    decreases |ps|
  {
    if |ps| == 0 then {} else ParagraphFields(ps[..|ps| - 1]) + Elems(BracketFields(Text(ps[|ps| - 1])))
  }

  function CellFields(cells: seq<string>): set<string>
    decreases |cells|
  {
    if |cells| == 0 then {} else CellFields(cells[..|cells| - 1]) + Elems(BracketFields(cells[|cells| - 1]))
  }

  function TableFields(ts: seq<Table>): set<string>
    decreases |ts|
  {
    if |ts| == 0 then {}
    else
      var t := ts[|ts| - 1];
      TableFields(ts[..|ts| - 1]) + RowFields(t)
  }

  function RowFields(t: Table): set<string>
    decreases |t|
  {
    if |t| == 0 then {} else RowFields(t[..|t| - 1]) + CellFields(t[|t| - 1])
  }

  /** Every label set holds only non-empty labels without ']'. */
  lemma {:induction false} FieldSetsWellFormed(ps: seq<Paragraph>, ts: seq<Table>)
    ensures forall x :: x in ParagraphFields(ps) + TableFields(ts) ==> |x| > 0 && ']' !in x
    decreases |ps| + |ts|
  {
    if |ps| > 0 {
      FieldSetsWellFormed(ps[..|ps| - 1], ts);
    } else if |ts| > 0 {
      FieldSetsWellFormed(ps, ts[..|ts| - 1]);
      RowFieldsWellFormed(ts[|ts| - 1]);
    }
  }

  lemma {:induction false} RowFieldsWellFormed(t: Table)
    ensures forall x :: x in RowFields(t) ==> |x| > 0 && ']' !in x
    decreases |t|
  {
    if |t| > 0 {
      RowFieldsWellFormed(t[..|t| - 1]);
      CellFieldsWellFormed(t[|t| - 1]);
    }
  }

  lemma {:induction false} CellFieldsWellFormed(cells: seq<string>)
    ensures forall x :: x in CellFields(cells) ==> |x| > 0 && ']' !in x
    decreases |cells|
  {
    if |cells| > 0 {
      CellFieldsWellFormed(cells[..|cells| - 1]);
    }
  }

  /** The labels of every cell of one table row added to `acc`. */
  method AddCellFields(acc: set<string>, row: seq<string>) returns (out: set<string>)
    ensures out == acc + CellFields(row)
  {
    out := acc;
    for k := 0 to |row|
      invariant out == acc + CellFields(row[..k])
    {
      assert row[..k + 1][..k] == row[..k];
      out := out + Elems(BracketFields(row[k]));
    }
    assert row[..|row|] == row;
  }

  /** The labels of every cell of one table added to `acc`. */
  method AddTableFields(acc: set<string>, table: Table) returns (out: set<string>)
    ensures out == acc + RowFields(table)
  {
    out := acc;
    for i := 0 to |table|
      invariant out == acc + RowFields(table[..i])
    {
      assert table[..i + 1][..i] == table[..i];
      out := AddCellFields(out, table[i]);
    }
    assert table[..|table|] == table;
  }

  /** A table with at least one cell. */
  predicate HasCell(t: Table)
  {
    exists r :: 0 <= r < |t| && |t[r]| > 0
  }

  /** A table without cells contributes no labels. */
  lemma {:induction false} CelllessTableNoFields(t: Table)
    requires !HasCell(t)
    ensures RowFields(t) == {}
  {
    if |t| > 0 {
      CelllessTableNoFields(t[..|t| - 1]);
      assert |t[|t| - 1]| == 0;
    }
  }

  /** get_template_fields: labels of every paragraph and cell, sorted without duplicates; [] when
      the template cannot be read. The `import re` sits inside the paragraph loop, so `re` is a
      local name bound only once that loop has run: with no paragraph, the first table cell
      raises UnboundLocalError, which the handler also turns into []. A template without
      paragraphs therefore reports no labels, even from its tables. */
  method GetTemplateFields(template: Result<DocContent>) returns (fields: seq<string>)
    ensures template.Err? ==> fields == []
    ensures template.Ok? ==> StrictlySorted(fields)
    ensures template.Ok? ==> forall x :: x in fields <==>
              |template.value.paragraphs| > 0
              && x in ParagraphFields(template.value.paragraphs) + TableFields(template.value.tables)
    ensures template.Ok? && |template.value.paragraphs| == 0 ==> fields == []
    ensures forall x :: x in fields ==> |x| > 0 && ']' !in x
  {
    if template.Err? {
      return [];
    }
    var ps := template.value.paragraphs;
    var ts := template.value.tables;
    var placeholders: set<string> := {};
    for i := 0 to |ps|
      invariant placeholders == ParagraphFields(ps[..i])
    {
      assert ps[..i + 1][..i] == ps[..i];
      placeholders := placeholders + Elems(BracketFields(Text(ps[i])));
    }
    assert ps[..|ps|] == ps;
    for t := 0 to |ts|
      invariant placeholders == ParagraphFields(ps) + TableFields(ts[..t])
      invariant |ps| == 0 ==> placeholders == {}
    {
      assert ts[..t + 1][..t] == ts[..t];
      if |ps| == 0 && HasCell(ts[t]) {
        return [];
      }
      if |ps| == 0 {
        CelllessTableNoFields(ts[t]);
      }
      placeholders := AddTableFields(placeholders, ts[t]);
    }
    assert ts[..|ts|] == ts;
    FieldSetsWellFormed(ps, ts);
    fields := SortedList(placeholders);
  }

  function ParagraphTexts(ps: seq<Paragraph>): (r: seq<string>)
    ensures |r| == |ps|
  {
    seq(|ps|, i requires 0 <= i < |ps| => Text(ps[i]))
  }

  /** extract_text_content: the paragraph texts joined by newlines; tables are not read, and a
      file that fails to load gives "". */
  method ExtractTextContent(file: Result<DocContent>) returns (text: string)
    ensures file.Err? ==> text == ""
    ensures file.Ok? ==> text == Join("\n", ParagraphTexts(file.value.paragraphs))
  {
    if file.Err? {
      return "";
    }
    var ps := file.value.paragraphs;
    var lines: seq<string> := [];
    for i := 0 to |ps|
      invariant lines == ParagraphTexts(ps[..i])
    {
      lines := lines + [Text(ps[i])];
    }
    assert ps[..|ps|] == ps;
    text := Join("\n", lines);
  }

  /** The extracted text splits back into the paragraph texts when none holds a newline. */
  lemma ExtractedLinesRoundTrip(ps: seq<Paragraph>)
    requires |ps| > 0 && forall i :: 0 <= i < |ps| ==> '\n' !in Text(ps[i])
    ensures Split(Join("\n", ParagraphTexts(ps)), '\n') == ParagraphTexts(ps)
  {
    SplitJoin(ParagraphTexts(ps), '\n');
  }

  /** _identify_field_changes: nothing, or the three placeholders bound to the stripped groups of
      the first contractor clause in the edited text. */
  function IdentifyFieldChanges(original: string, edited: string): (r: Mapping)
    ensures NonEmptyKeys(r)
    ensures r == [] <==> ContractorClause.Parse(edited, ContractorClause.Service).None?
    ensures r != [] ==> |r| == 3 && r[0].0 == RazaoPlaceholder && r[1].0 == CnpjPlaceholder && r[2].0 == EnderecoPlaceholder
  {
    var found := ContractorClause.Parse(edited, ContractorClause.Service);
    if found.None? then []
    else
      var r := [(RazaoPlaceholder, Strip(found.value.name)), (CnpjPlaceholder, Strip(found.value.cnpj)),
                (EnderecoPlaceholder, Strip(found.value.address))];
      PlaceholderKeys(r);
      r
  }

  lemma PlaceholderKeys(r: Mapping)
    requires |r| == 3 && r[0].0 == RazaoPlaceholder && r[1].0 == CnpjPlaceholder && r[2].0 == EnderecoPlaceholder
    ensures NonEmptyKeys(r)
  {
    assert |RazaoPlaceholder| == 14 && |CnpjPlaceholder| == 6 && |EnderecoPlaceholder| == 10;
  }

  /** The CNPJ value is a non-empty run of digits and "/.,-". */
  lemma ChangedCnpjCharacters(original: string, edited: string)
    ensures var r := IdentifyFieldChanges(original, edited);
            r != [] ==> ContractorClause.CnpjGroup(r[1].1)
  {
    var c := ContractorClause.Parse(edited, ContractorClause.Service);
    if c.Some? {
      ContractorClause.CnpjGroupStripped(c.value.cnpj);
    }
  }

  /** A contractor clause as the template renders it, with a line-ending address, maps back to
      its three values. */
  lemma IdentifyRenderedClause(original: string, prefix: string, name: string, cnpj: string, address: string, tail: string)
    requires ContractorClause.Readable(prefix, name, cnpj, ContractorClause.Service)
    requires ContractorClause.Segments(address, false)
    requires tail == "" || tail[0] == '\n'
    ensures IdentifyFieldChanges(original, prefix + ContractorClause.Render(name, cnpj, address) + ("," + tail))
         == [(RazaoPlaceholder, Strip(name)), (CnpjPlaceholder, cnpj), (EnderecoPlaceholder, Strip(address))]
  {
    ContractorClause.ServiceReadsRenderedClause(prefix, name, cnpj, address, tail);
    ContractorClause.CnpjGroupStripped(cnpj);
  }

  /** update_document_content: the template is reloaded, the clause found in the edited text is
      mapped onto it at run level, and the result is saved over the contract. False, and nothing
      saved, when the template cannot be loaded. */
  method UpdateDocumentContent(template: Result<DocContent>, newContent: string)
    returns (ok: bool, saved: Option<DocContent>)
    ensures ok <==> template.Ok?
    ensures !ok ==> saved == None
    ensures ok ==> saved == Some(Updated(template.value,
              IdentifyFieldChanges(Join("\n", ParagraphTexts(template.value.paragraphs)), newContent)))
  {
    if template.Err? {
      return false, None;
    }
    var doc := new Document(template.value);
    var originalContent := ExtractTextContent(template);
    var changes := IdentifyFieldChanges(originalContent, newContent);
    doc.ApplyChanges(changes);
    ok, saved := true, Some(doc.Content());
  }

  /** Edited text without a contractor clause saves the template unchanged. */
  lemma UpdateWithoutClauseKeepsTemplate(c: DocContent, newContent: string)
    requires ContractorClause.Parse(newContent, ContractorClause.Service).None?
    ensures Updated(c, IdentifyFieldChanges(Join("\n", ParagraphTexts(c.paragraphs)), newContent)) == c
  {
    UpdatedWithoutChanges(c);
  }

  datatype TemplateReport = TemplateReport(
    valid: bool, path: string, paragraphsCount: nat, tablesCount: nat,
    fieldsFound: seq<string>, error: Option<string>)

  /** validate_template: counts and labels of a loadable template, or the load error. */
  method ValidateTemplate(path: string, template: Result<DocContent>) returns (report: TemplateReport)
    ensures report.path == path
    ensures report.valid <==> template.Ok?
    ensures template.Ok? ==>
              && report.error == None
              && report.paragraphsCount == |template.value.paragraphs|
              && report.tablesCount == |template.value.tables|
              && StrictlySorted(report.fieldsFound)
              && (forall x :: x in report.fieldsFound <==>
                    |template.value.paragraphs| > 0
                    && x in ParagraphFields(template.value.paragraphs) + TableFields(template.value.tables))
    ensures template.Err? ==> report == TemplateReport(false, path, 0, 0, [], Some(template.message))
  {
    if template.Err? {
      return TemplateReport(false, path, 0, 0, [], Some(template.message));
    }
    var fields := GetTemplateFields(template);
    report := TemplateReport(true, path, |template.value.paragraphs|, |template.value.tables|, fields, None);
  }
}

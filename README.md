# ContratosCS contract back end: a Dafny model

This project models the core of the ContratosCS back end. The back end keeps a registry of
client companies, imported from a spreadsheet. From that registry it fills a Word contract
template for a chosen company, and it maps an edited contract text back onto the template.
The model covers six parts:

- **Contract template service** (`ContractGeneration`, `ContractorClause`).
  - A template is a sequence of paragraphs, each a sequence of formatted runs, plus tables
    of cell texts. The `Document` class holds them, and its methods change them in place.
  - Generation validates the three required fields, then replaces `[RAZÃO SOCIAL]`, `[CNPJ]`
    and `[ENDEREÇO]` in every paragraph and cell, in that order.
  - It names the output `contrato_<cnpj without . / ->_<n>.docx`.
  - Bracketed fields are listed in sorted order, and the paragraph text is extracted.
  - Edits are read back through the contractor clause ("…, inscrita no CNPJ sob o nº …, com
    sede à …,") and applied run by run to the template.
- **Spreadsheet import** (`ExcelSync`, `ExcelSyncOld`, `Registry`). Two versions are modelled.
  - Current version: choose the sheet, find the header row among the first ten rows, map the
    basic columns by substring variants, collect the extra columns, and read one company per
    row that has a code.
  - Legacy version: a fixed header row and exact header names.
  - Both upsert the companies into SQLite tables keyed by `cod`. Each table is a map, held as
    a field of the `Database` class.
- **Company lookup** (`Companies`). The identifier is resolved first as an exact code, then by
  the digits of a stored CNPJ. The company's stored JSON is then merged over its basic fields,
  and `razao_social` and `cnpj` are filled from fallbacks.
- **Contract routes** (`ContractRoutes`). These are the route-level decisions:
  - the filename guard;
  - the body guards;
  - the missing-field lists of generation and preview, and the `can_generate` flag;
  - the contractor clause captured from edited text.
- **Account service** (`UserService`). This covers lookup by e-mail, the outcomes of login, and
  the order of the guard clauses in user creation.

Python's string operations (`in`, `str.replace`, `strip`, `lower`, `join`, `split`, sorting)
are written out in `Common`, together with the facts the services need about them.

## Model

| member | source | states |
|---|---|---|
| ContractGeneration.MissingFields | backend/services/contract_generation_service.py:49-57 | the list of missing fields is exactly the required fields (razao_social, cnpj, endereco) that are absent or empty, in that order |
| ContractGeneration.MissingExactly | backend/services/contract_generation_service.py:49-57 | a field is reported missing iff it is required and not provided; the list is never longer than the required list |
| ContractGeneration.FieldMapping | backend/services/contract_generation_service.py:63-67 | the mapping has three entries, in order; each key is a bracketed placeholder and each value is the company's value for the matching field |
| ContractGeneration.SubstituteFields | backend/services/contract_generation_service.py:76-80 | the replacement loop over one text gives the sequential fill: each placeholder, in mapping order, has every occurrence replaced |
| ContractGeneration.FillTextAbsent | backend/services/contract_generation_service.py:76-84 | a text that holds no placeholder comes out of the fill unchanged |
| ContractGeneration.FillTextClears | backend/services/contract_generation_service.py:76-80 | when no value can form a placeholder, no placeholder is left in the filled text |
| ContractGeneration.FillParagraphText | backend/services/contract_generation_service.py:71-84 | a filled paragraph's text is the fill of its original text |
| ContractGeneration.FillParagraphUntouched | backend/services/contract_generation_service.py:72-84 | a paragraph is reassigned only when the fill changes its text, and then it becomes one run holding the new text; otherwise it is left as it was, runs included |
| ContractGeneration.NoPlaceholderUntouched | backend/services/contract_generation_service.py:72-101 | paragraphs and cells without a placeholder, empty ones included, are left unchanged |
| ContractGeneration.FillTextEmpty | backend/services/contract_generation_service.py:72 | the empty text stays empty, as the `if paragraph.text` guard skips it |
| ContractGeneration.FillTable | backend/services/contract_generation_service.py:87-101 | filling a table keeps its number of rows and the number of cells in each row |
| ContractGeneration.FillTables | backend/services/contract_generation_service.py:87-101 | filling keeps the number of tables |
| ContractGeneration.Filled | backend/services/contract_generation_service.py:71-101 | a filled document keeps its numbers of paragraphs and tables |
| ContractGeneration.SafeMapping | backend/services/contract_generation_service.py:63-67 | for safe company data, no mapped value can form any of the three placeholders |
| ContractGeneration.FilledHasNoPlaceholder | backend/services/contract_generation_service.py:63-101 | after generation with safe values, no paragraph and no cell holds any of the three placeholders |
| ContractGeneration.Document.constructor | backend/services/contract_generation_service.py:60 | a loaded document holds the template's paragraphs and tables |
| ContractGeneration.Document.SubstituteCells | backend/services/contract_generation_service.py:87-101 | the nested loop over tables, rows and cells leaves every table as the fill of the old one and the paragraphs unchanged |
| ContractGeneration.Document.FillPlaceholders | backend/services/contract_generation_service.py:69-101 | the document's content after the paragraph and table loops is the fill of its old content |
| ContractGeneration.OutputFilenameShape | backend/services/contract_generation_service.py:106 | the name starts with "contrato_" and ends with ".docx"; the CNPJ part holds no '.', '/' or '-', and the number part has one to four digits |
| ContractGeneration.GenerateContract | backend/services/contract_generation_service.py:31-117 | missing fields are reported before the template is read; an unreadable template raises its error; otherwise the filled template is saved under the output name |
| ContractGeneration.UpdateParagraph | backend/services/contract_generation_service.py:200-206 | a run-level update keeps the paragraph's number of runs |
| ContractGeneration.UpdateParagraphs | backend/services/contract_generation_service.py:200-206 | applying every change keeps the number of paragraphs |
| ContractGeneration.ReplaceInRuns | backend/services/contract_generation_service.py:202-206 | the run loop replaces the placeholder in exactly the runs that hold it |
| ContractGeneration.UpdateTouchesOnlyHoldingRuns | backend/services/contract_generation_service.py:204-206 | a run that changes held a whole placeholder |
| ContractGeneration.UpdateClearsRuns | backend/services/contract_generation_service.py:204-206 | with a safe value, no run holds the placeholder afterwards |
| ContractGeneration.SplitPlaceholderSurvives | backend/services/contract_generation_service.py:202-206 | a placeholder split across two runs is found in the paragraph text but left in place (runs "[CN" and "PJ]") |
| ContractGeneration.UpdatedWithoutChanges | backend/services/contract_generation_service.py:199-214 | with no change detected, the template is kept as it is |
| ContractGeneration.Document.ApplyChanges | backend/services/contract_generation_service.py:199-214 | the document's new content is the old content with every change applied to paragraph runs and to cells |
| ContractGeneration.AddCellFields | backend/services/contract_generation_service.py:141-144 | the loop over a row's cells adds exactly the bracket fields of those cells |
| ContractGeneration.AddTableFields | backend/services/contract_generation_service.py:139-144 | the loop over a table's rows adds exactly the bracket fields of its cells |
| ContractGeneration.BracketFields | backend/services/contract_generation_service.py:135 | every field found is non-empty and holds no ']' |
| ContractGeneration.IndexOf | backend/services/contract_generation_service.py:135 | the result is the first position of the character, or None when the character is absent |
| ContractGeneration.BracketFieldsSound | backend/services/contract_generation_service.py:135 | every field found occurs in the text between '[' and ']' |
| ContractGeneration.BracketFieldsFind | backend/services/contract_generation_service.py:135 | the scan finds a well-formed `[x]` after a text without '[' and goes on after it |
| ContractGeneration.FieldSetsWellFormed | backend/services/contract_generation_service.py:130-144 | every field collected from paragraphs and tables is non-empty and holds no ']' |
| ContractGeneration.RowFieldsWellFormed | backend/services/contract_generation_service.py:139-144 | every field collected from a table is non-empty and holds no ']' |
| ContractGeneration.CellFieldsWellFormed | backend/services/contract_generation_service.py:141-144 | every field collected from cells is non-empty and holds no ']' |
| ContractGeneration.GetTemplateFields | backend/services/contract_generation_service.py:119-150 | an unreadable template gives []; a template without paragraphs gives [] too, because `re` is bound only by the `import re` inside the paragraph loop and the first table cell raises; otherwise the list is strictly sorted (so free of duplicates), and holds exactly the bracket fields of paragraphs and cells, all non-empty and without ']' |
| ContractGeneration.ParagraphTexts | backend/services/contract_generation_service.py:166-169 | one text per paragraph, in order |
| ContractGeneration.ExtractTextContent | backend/services/contract_generation_service.py:152-173 | the paragraph texts in document order joined by '\n', tables left out; "" when the file does not load |
| ContractGeneration.ExtractedLinesRoundTrip | backend/services/contract_generation_service.py:166-169 | splitting the extracted text at '\n' gives back the paragraph texts when none holds a line break |
| ContractGeneration.IdentifyFieldChanges | backend/services/contract_generation_service.py:225-256 | the result is empty iff the clause is not found, and otherwise binds exactly the three placeholders in order |
| ContractGeneration.ChangedCnpjCharacters | backend/services/contract_generation_service.py:240-253 | a captured CNPJ is non-empty and made only of digits and "/.,-" |
| ContractGeneration.IdentifyRenderedClause | backend/services/contract_generation_service.py:240-254 | a clause written as "name, inscrita no CNPJ sob o nº cnpj, com sede à address," at the end of a line is read back as the trimmed name, the CNPJ and the trimmed address |
| ContractGeneration.UpdateDocumentContent | backend/services/contract_generation_service.py:175-223 | returns True iff the template loads, and then saves the template with the detected changes applied; returns False with nothing saved otherwise |
| ContractGeneration.UpdateWithoutClauseKeepsTemplate | backend/services/contract_generation_service.py:194-217 | when the edited text holds no contractor clause, the saved document is the template unchanged |
| ContractGeneration.ValidateTemplate | backend/services/contract_generation_service.py:258-279 | a loadable template reports valid, its paragraph and table counts and its sorted fields, which are none when it has no paragraph; otherwise the report is invalid, with zero counts, no fields and the error |
| ContractorClause.CnpjGroupStripped | backend/services/contract_generation_service.py:240-253 | a CNPJ group (digits and "/.,-") is unchanged by strip |
| ContractorClause.LastSegment | backend/services/contract_generation_service.py:240 | the name group is the longest suffix of the text before the match that holds no ',' or newline |
| ContractorClause.CnpjRun | backend/services/contract_generation_service.py:240 | the CNPJ group's maximal run: every character in it is a CNPJ character and the next one is not |
| ContractorClause.ServiceAddress | backend/services/contract_generation_service.py:240 | the greedy address of the service pattern is a prefix made of comma-separated segments without newlines, followed by a comma |
| ContractorClause.RouteAddress | backend/routes/contracts_routes.py:266 | the lazy address of the route pattern is a prefix made of segments that ends at the first ", neste ato" or at the end of the text |
| ContractorClause.Address | backend/services/contract_generation_service.py:240 | the address group, by variant, is a prefix of the rest made of well-formed segments |
| ContractorClause.AfterRegistration | backend/services/contract_generation_service.py:240 | the CNPJ group and the address that follow the marker; the CNPJ group is a non-empty prefix of the CNPJ run, tried from the longest down |
| ContractorClause.TryAt | backend/services/contract_generation_service.py:240 | a match at one marker position has a name without ',' or newline, a CNPJ group of CNPJ characters and a segmented address |
| ContractorClause.FindFrom | backend/services/contract_generation_service.py:248 | the first marker position from m on where the pattern matches, with the same guarantees on its groups |
| ContractorClause.Parse | backend/services/contract_generation_service.py:240-248 | a found clause has a name without ',' or newline, a CNPJ made only of digits and "/.,-", and a non-empty segmented address |
| ContractorClause.FindFromSkip | backend/services/contract_generation_service.py:248 | positions without the marker are skipped by the search |
| ContractorClause.LastSegmentAfterLine | backend/services/contract_generation_service.py:240 | a name written at the start of a line is captured whole |
| ContractorClause.CnpjRunConcat | backend/services/contract_generation_service.py:240 | the CNPJ run extends across a prefix of CNPJ characters |
| ContractorClause.NoMarkerBefore | backend/services/contract_generation_service.py:240 | no marker occurs before the clause written after a marker-free prefix |
| ContractorClause.AfterRegistrationAt | backend/services/contract_generation_service.py:240 | the match takes the CNPJ up to the comma that is followed by "com sede à" and an address |
| ContractorClause.AfterRegistrationSkip | backend/services/contract_generation_service.py:240 | a CNPJ length not followed by a comma is backtracked over |
| ContractorClause.CnpjRunRendered | backend/services/contract_generation_service.py:240 | in a written clause, the CNPJ run takes the CNPJ and the comma after it |
| ContractorClause.AfterRegistrationRendered | backend/services/contract_generation_service.py:240 | a written CNPJ and address after the marker are read back exactly |
| ContractorClause.TryAtRendered | backend/services/contract_generation_service.py:240 | at the written clause's marker, the match returns the written name, CNPJ and address |
| ContractorClause.ParseAt | backend/services/contract_generation_service.py:248 | the search returns the match at the first marker position when that match succeeds |
| ContractorClause.ParseRendered | backend/services/contract_generation_service.py:240-248 | a clause written after a marker-free prefix is found, with its own name, CNPJ and address |
| ContractorClause.ServiceAddressLineEnd | backend/services/contract_generation_service.py:240 | the greedy address stops at the last comma before the end of the line |
| ContractorClause.ServiceReadsRenderedClause | backend/services/contract_generation_service.py:240-248 | the service pattern reads back a clause whose address ends the line with a comma |
| ContractorClause.LiteralBeforeComma | backend/routes/contracts_routes.py:266 | the ", neste ato" literal cannot be matched across an appended comma |
| ContractorClause.StripLeftConcat | backend/routes/contracts_routes.py:266 | leading whitespace ends at the first non-space character |
| ContractorClause.ActingAtPrefix | backend/routes/contracts_routes.py:266 | ", neste ato" inside the address is found in the address alone |
| ContractorClause.RouteAddressBeforeActing | backend/routes/contracts_routes.py:266 | the lazy address stops exactly before ", neste ato" |
| ContractorClause.RouteReadsRenderedClause | backend/routes/contracts_routes.py:266 | the route pattern reads back a clause followed by ", neste ato" |
| ContractRoutes.NoAdjacentDots | backend/routes/contracts_routes.py:131 | a text with no two adjacent dots does not contain ".." |
| ContractRoutes.ExtensionOnlyDot | backend/routes/contracts_routes.py:131 | a name without '.' or '/' with ".docx" appended passes the filename guard |
| ContractRoutes.GeneratedFilenameAccepted | backend/routes/contracts_routes.py:131 | every generated contract name passes the download guard |
| ContractRoutes.FileRejection | backend/routes/contracts_routes.py:131-144 | a file is served iff its name ends with ".docx", contains neither ".." nor '/', and the file exists; a bad name is a 400 |
| ContractRoutes.ContentRejection | backend/routes/contracts_routes.py:237-257 | the update and PUT routes go on iff the body has 'content', the name is safe and the file exists; a missing 'content' is a 400 reported first |
| ContractRoutes.FalsyFields | backend/routes/contracts_routes.py:62-70 | the list of missing fields is never longer than the list of candidates |
| ContractRoutes.FalsyFieldsExactly | backend/routes/contracts_routes.py:62-70 | a field is listed iff one of its entries holds a falsy value |
| ContractRoutes.FalsyFieldsNone | backend/routes/contracts_routes.py:411-420 | no field is missing iff every value is truthy |
| ContractRoutes.FalsyFieldsOfThree | backend/routes/contracts_routes.py:411-414 | for three entries, the missing list is each falsy one's name, in order |
| ContractRoutes.GenerateMissingExactly | backend/routes/contracts_routes.py:59-77 | generation lists razao_social and cnpj when falsy, then endereco when 'Endereço' is falsy, in that order |
| ContractRoutes.CollectGenerateMissing | backend/routes/contracts_routes.py:59-70 | the append loop builds the missing-field list of generation |
| ContractRoutes.CollectPreviewMissing | backend/routes/contracts_routes.py:411-420 | the append loop builds the preview's missing list, and can_generate is true iff that list is empty |
| ContractRoutes.PreviewMissingExactly | backend/routes/contracts_routes.py:402-414 | the preview lists razao_social, cnpj and endereco, in that order, when 'Razão Social', 'CNPJ' and 'Endereço' are falsy |
| ContractRoutes.GenerateDecision | backend/routes/contracts_routes.py:29-33 | a body without 'cnpj' is rejected with 400 before any lookup |
| ContractRoutes.GenerateDecisionOutcome | backend/routes/contracts_routes.py:29-84 | generation proceeds iff the body has 'cnpj', the company is found and razao_social, cnpj and 'Endereço' are truthy; every rejection is a 400 or a 404 |
| ContractRoutes.PayloadMissingIsPreviewMissing | backend/routes/contracts_routes.py:80-90 | the fields the generator finds missing in the payload are the preview's missing fields |
| ContractRoutes.ValidatedKeysDifferFromPayloadKeys | backend/routes/contracts_routes.py:59-90 | a company with only razao_social, cnpj and 'Endereço' passes the route's validation, yet the payload built from 'Razão Social' and 'CNPJ' misses both, so the generator rejects it |
| ContractRoutes.UpdateDecision | backend/routes/contracts_routes.py:237-302 | regeneration happens only with 'content', a safe existing file and a matched clause, and uses the data read from the clause |
| ContractRoutes.ClauseDataFields | backend/routes/contracts_routes.py:269-282 | razao_social, cnpj and endereco are the stripped name, CNPJ and address groups |
| ContractRoutes.StripKeepsOut | backend/routes/contracts_routes.py:269-282 | stripping adds no character |
| ContractRoutes.UpdatedDataShape | backend/routes/contracts_routes.py:266-282 | the read CNPJ is non-empty and made only of digits and "/.,-"; the name holds no ',' or newline |
| ContractRoutes.UpdateReadsRenderedClause | backend/routes/contracts_routes.py:266-282 | a clause written with trimmed name and address and followed by ", neste ato" is read back as exactly those values |
| ContractRoutes.PreviewDecision | backend/routes/contracts_routes.py:375-429 | a body without 'cnpj' is a 400; a preview's can_generate is true iff its missing list is empty |
| Companies.Get | backend/models/companies.py:86 | a truthy value read with `get` is the one stored under that key |
| Companies.CnpjField | backend/models/companies.py:86 | the stored 'cnpj' when it is truthy, else 'CNPJ' |
| Companies.BasicCod | backend/models/companies.py:73-98 | an exact code match wins, and only then is the CNPJ scan used; the result is always a known code |
| Companies.FillCnpj | backend/models/companies.py:132-137 | the fallback loop over 'CNPJ', 'cnpj' and 'documento' fills cnpj as the fallback definition says |
| Companies.GetCompanyDetails | backend/models/companies.py:58-143 | the lookup run over the registry's tables returns the resolved, merged and completed details, or None |
| Companies.FirstCnpjMatchDecides | backend/models/companies.py:81-96 | the first row in scan order whose CNPJ digits match decides the result |
| Companies.NoMatchNotFound | backend/models/companies.py:100-102 | with no code match and no CNPJ match, the result is None |
| Companies.UnreadableRowSkipped | backend/models/companies.py:97-98 | a row whose JSON cannot be read is skipped by the scan |
| Companies.SameDigitsSameLookup | backend/models/companies.py:89-92 | identifiers with the same digits resolve alike, so formatting is ignored |
| Companies.LookupOutcome | backend/models/companies.py:100-143 | the result is None iff no company resolves or its details are JSON but not an object; otherwise "cod" is the resolved code unless the details override it |
| Companies.MergedOverlay | backend/models/companies.py:121-126 | the merged keys are cod, name, group_name and every detail key; detail values override the basic ones |
| Companies.RazaoSocialFallback | backend/models/companies.py:129-130 | razao_social is set from name only when it is falsy and name is truthy; nothing else changes |
| Companies.CnpjFallback | backend/models/companies.py:132-137 | a falsy cnpj is filled from the first truthy of 'CNPJ' and 'documento'; other keys are unchanged |
| Companies.NoDetailsBasicOnly | backend/models/companies.py:110-130 | without stored details, or with unreadable ones, the result holds only the basic fields, plus razao_social when the name is truthy |
| ExcelSync.FindAny | backend/services/excel_sync_service.py:169 | the loop tells whether any of the words occurs in the text |
| ExcelSync.SheetChoice | backend/services/excel_sync_service.py:154-175 | no sheet is chosen iff the list is empty; a chosen sheet is always in the list |
| ExcelSync.FirstIndex | backend/services/excel_sync_service.py:162-171 | the loop with `break` finds the first name that satisfies the test |
| ExcelSync.ChooseSheet | backend/services/excel_sync_service.py:154-175 | the sheet choice by priority; a file without sheets is an error |
| ExcelSync.SheetChoicePriority | backend/services/excel_sync_service.py:157-165 | 'Clientes' wins when present; otherwise a name containing 'client' leads to the first such name |
| ExcelSync.SheetChoiceTiers | backend/services/excel_sync_service.py:157-175 | each tier picks its first sheet: the first name containing 'client'; failing that the first containing 'empresa' or 'dados'; failing both the first sheet |
| ExcelSync.NonNullTexts | backend/services/excel_sync_service.py:200 | the non-null cells of a row, no more of them than the row has |
| ExcelSync.CountFoundThree | backend/services/excel_sync_service.py:205-208 | the count of basic column names found is the sum of the three tests |
| ExcelSync.HeaderRowMeaning | backend/services/excel_sync_service.py:198-211 | a row is a header iff its text contains at least two of 'Código Domínio', 'Nome Fantasia' and 'Grupo' |
| ExcelSync.CountBasicColumns | backend/services/excel_sync_service.py:205-208 | the counting loop returns the number of basic column names found |
| ExcelSync.FindHeaderRow | backend/services/excel_sync_service.py:189-216 | the header is the first qualifying row below min(10, rows); None means no such row |
| ExcelSync.TextFieldsMeaning | backend/services/excel_sync_service.py:241-249 | a header serves a field iff it contains one of that field's variants |
| ExcelSync.FieldsMatchedMeaning | backend/services/excel_sync_service.py:237-249 | a non-null header cell serves a field iff its stripped, lower-cased text contains a variant |
| ExcelSync.Hits | backend/services/excel_sync_service.py:237-249 | one set of matched fields per header |
| ExcelSync.ClaimAll | backend/services/excel_sync_service.py:243-249 | a header claims the fields it matches that are not yet mapped; mapped fields keep their column |
| ExcelSync.BasicUpToFirst | backend/services/excel_sync_service.py:237-249 | a field is mapped iff some header matches it, and it is mapped to the first such header |
| ExcelSync.BasicColumnsFirstMatch | backend/services/excel_sync_service.py:230-249 | each basic field maps to the lowest-index header that matches it; one header may serve several fields |
| ExcelSync.ClaimColumn | backend/services/excel_sync_service.py:243-249 | the inner loop over fields and variants claims the header for the unmapped fields it matches |
| ExcelSync.MapBasicColumns | backend/services/excel_sync_service.py:237-249 | the column loop builds the basic column map |
| ExcelSync.LowerEqualsMeaning | backend/services/excel_sync_service.py:267 | the case-insensitive test equals comparing the lower-cased text |
| ExcelSync.ExtraNames | backend/services/excel_sync_service.py:256-271 | one optional extra name per header |
| ExcelSync.LastIndicesFor | backend/services/excel_sync_service.py:271 | a name is present iff some index carries it, and it keeps the last such index |
| ExcelSync.ExtraColumnsExact | backend/services/excel_sync_service.py:254-272 | the extras are exactly the non-null headers that are not basic columns and whose stripped text is neither '' nor 'unnamed'/'nan'; a repeated name keeps its last index |
| ExcelSync.ExtraNameAt | backend/services/excel_sync_service.py:257-271 | one loop step decides the extra name of one header |
| ExcelSync.ExtraColumns | backend/services/excel_sync_service.py:254-272 | the loop builds the extra column map |
| ExcelSync.CompanyOf | backend/services/excel_sync_service.py:293-333 | a company read from a row has a non-blank stripped code |
| ExcelSync.Yields | backend/services/excel_sync_service.py:289-333 | one outcome per row |
| ExcelSync.Somes | backend/services/excel_sync_service.py:332-333 | the kept companies are never more than the rows |
| ExcelSync.SomesSnoc | backend/services/excel_sync_service.py:332-333 | each row appends its company, if any, at the end |
| ExcelSync.SomesConcat | backend/services/excel_sync_service.py:289-333 | extraction distributes over concatenation |
| ExcelSync.SomesMembers | backend/services/excel_sync_service.py:332-333 | a company is kept iff some row yields it |
| ExcelSync.Extracted | backend/services/excel_sync_service.py:288-333 | no more companies than data rows |
| ExcelSync.ExtractedMembers | backend/services/excel_sync_service.py:288-333 | the companies are exactly those the rows yield, each with a non-blank stripped code |
| ExcelSync.ExtractedConcat | backend/services/excel_sync_service.py:289-333 | companies come out in sheet-row order |
| ExcelSync.ExtraDataOf | backend/services/excel_sync_service.py:311-319 | the loop builds extra_data: the stripped value, or None when blank, for each in-range extra column |
| ExcelSync.ReadRow | backend/services/excel_sync_service.py:290-333 | the body of the row loop reads the row's company, or skips the row |
| ExcelSync.ExtractCompanies | backend/services/excel_sync_service.py:288-333 | the row loop yields the companies of the rows after the header, in order |
| ExcelSync.ProcessExcelContent | backend/services/excel_sync_service.py:144-348 | the whole extraction: sheet, header row, columns, then rows, or the error that stops it |
| ExcelSync.ProcessedOutcome | backend/services/excel_sync_service.py:154-333 | a file without sheets fails; on success the header row qualifies, a column maps to cod, and every company has a non-blank code |
| ExcelSync.WordChars | backend/services/excel_sync_service.py:356-357 | cleaning keeps only word characters and never lengthens the text |
| ExcelSync.RatioAtLeast | backend/services/excel_sync_service.py:367 | the ratio test `shorter / longer >= 0.75` equals 4·shorter ≥ 3·longer |
| ExcelSync.ContainsSameLength | backend/services/excel_sync_service.py:364-368 | for texts of equal length, containment is equality |
| ExcelSync.SimilarStrings | backend/services/excel_sync_service.py:350-370 | false when either cleaned text is empty; otherwise true iff 4·shorter ≥ 3·longer and one contains the other |
| ExcelSync.SimilarStringsSymmetric | backend/services/excel_sync_service.py:350-370 | the similarity test is symmetric |
| ExcelSync.CompanyEntries | backend/services/excel_sync_service.py:422-449 | one companies row per company |
| ExcelSync.DataEntries | backend/services/excel_sync_service.py:422-471 | one companies_data row per company |
| ExcelSync.SyncToDatabase | backend/services/excel_sync_service.py:372-485 | creates companies only when it has no columns, and companies_data; upserts every company into both tables; the counters count new and updated rows, and processed_count is the input length; the scan order of companies_data gains the newly inserted codes at its end, in the order they were inserted |
| ExcelSync.EntryKeys | backend/services/excel_sync_service.py:422-423 | both tables are keyed by the companies' codes |
| ExcelSync.SyncedLastSeen | backend/services/excel_sync_service.py:433-471 | after the upsert every code holds its last-seen name, group and data |
| ExcelSync.SyncedOthersAndCounts | backend/services/excel_sync_service.py:422-485 | rows of other codes are untouched, and the new counts are the number of codes not yet in each table |
| ExcelSync.DocumentedHeadersRecognised | backend/services/excel_sync_service.py:230-234 | the documented headers map to their fields under the variant search |
| ExcelSync.ColumnMappingEntries | backend/services/excel_sync_service.py:491-499 | the column mapping binds exactly the three documented headers |
| ExcelSync.ColumnMappingAgrees | backend/services/excel_sync_service.py:491-499 | every header of the mapping is recognised by the variant search as its field |
| ExcelSyncOld.ExactFields | backend/services/excel_sync_service_old.py:173-175 | one optional field per header |
| ExcelSyncOld.ExactColumnsLast | backend/services/excel_sync_service_old.py:169-175 | a field is mapped iff some header equals its name; a repeated header keeps the last index |
| ExcelSyncOld.ExactFieldMeaning | backend/services/excel_sync_service_old.py:162-175 | only exact equality with 'Código Domínio', 'Nome Fantasia' or 'Grupo' maps a column |
| ExcelSyncOld.MapExactColumns | backend/services/excel_sync_service_old.py:169-175 | the loop builds the exact column map |
| ExcelSyncOld.OldExtracted | backend/services/excel_sync_service_old.py:179-195 | no more companies than rows, each with a non-empty code |
| ExcelSyncOld.NoCodColumnNoCompanies | backend/services/excel_sync_service_old.py:185-194 | without a cod column the lookup falls back to column 0, yet no company is kept |
| ExcelSyncOld.RawValuesKept | backend/services/excel_sync_service_old.py:188-195 | values are kept as `str(cell)` without trimming, or None for null |
| ExcelSyncOld.FirstFailureStops | backend/services/excel_sync_service_old.py:181-186 | a row that raises stops the whole extraction |
| ExcelSyncOld.ReadOldRow | backend/services/excel_sync_service_old.py:182-195 | the body of the row loop reads the row's company, skips the row, or raises |
| ExcelSyncOld.ProcessExcelContentOld | backend/services/excel_sync_service_old.py:148-209 | the extraction with the fixed header row; a sheet with 4 rows or fewer raises "formato esperado" |
| ExcelSyncOld.OldEntries | backend/services/excel_sync_service_old.py:240-261 | one companies row per company |
| ExcelSyncOld.SyncToDatabaseOld | backend/services/excel_sync_service_old.py:211-272 | creates companies only when it has no columns; upserts every company into companies alone; the counters count new and updated rows, and processed_count is the input length |
| ExcelSyncOld.OldSyncOutcome | backend/services/excel_sync_service_old.py:240-272 | each code holds its last-seen name and group, and the new count is the number of codes not yet in the table |
| Registry.LastValueAt | backend/services/excel_sync_service.py:422-471 | the last entry for a code is the value it ends with |
| Registry.KeysSnoc | backend/services/excel_sync_service.py:422-471 | the key set grows by each entry's code |
| Registry.UpsertedContents | backend/services/excel_sync_service.py:422-471 | the upserted table has the old keys plus the input codes, each input code bound to its last value, and the other rows unchanged |
| Registry.UpsertedLastAt | backend/services/excel_sync_service.py:433-449 | the last entry for a code decides its row |
| Registry.UpsertedKeepsOthers | backend/services/excel_sync_service.py:433-449 | rows for codes outside the input are untouched |
| Registry.NewCountDistinct | backend/services/excel_sync_service.py:440-448 | the new counter is the number of distinct input codes not already present, at most the input length |
| Registry.NewKeysMeaning | backend/services/excel_sync_service.py:440-448 | the codes an import inserts are distinct, are exactly the input codes that were not in the table, and number as many as the INSERT counter |
| Registry.Database.constructor | backend/services/excel_sync_service.py:377-386 | the database holds the given tables, with the scan order listing the companies_data codes |
| Registry.Database.EnsureCompaniesTable | backend/services/excel_sync_service.py:390-399 | creates companies with its three columns only when it has none; nothing else changes |
| Registry.Database.EnsureCompaniesDataTable | backend/services/excel_sync_service.py:404-413 | companies_data exists afterwards; nothing else changes |
| Registry.Database.UpsertCompany | backend/services/excel_sync_service.py:430-449 | the row is inserted or updated, and the result says inserted iff the code was absent |
| Registry.Database.UpsertData | backend/services/excel_sync_service.py:452-471 | the row is inserted or updated; an insert appends the code to the scan order, and an update keeps its place |
| UserService.Public | backend/services/user_service.py:13-17 | the public view has the name and e-mail, and admin is true iff the stored flag is non-zero |
| UserService.GetByEmail | backend/services/user_service.py:8-17 | an unknown e-mail gives "User not found"; otherwise name, e-mail and admin, never the password |
| UserService.Login | backend/services/user_service.py:19-38 | a login succeeds iff the user exists and the password check passes; an unknown user and a wrong password give their own errors; the token is issued for the e-mail |
| UserService.LoginAgreesWithLookup | backend/services/user_service.py:8-38 | the user a login returns is the one the lookup returns |
| UserService.SuccessfulLoginsAgree | backend/services/user_service.py:25-36 | any two successful logins for one e-mail return the same reply |
| UserService.CreateUser | backend/services/user_service.py:40-54 | creation is refused iff a field is empty, the password is under 6 characters, or the e-mail lacks '@' |
| UserService.CreateUserGuardOrder | backend/services/user_service.py:42-54 | the guards apply in order (missing fields, short password, invalid e-mail), and `User.create` receives the arguments unchanged |
| Common.SortedList | backend/services/contract_generation_service.py:146 | `sorted(list(fields))`: a strictly sorted list holding exactly the set's members |
| Common.InsertSorted | backend/services/contract_generation_service.py:146 | inserting a new string keeps the list strictly sorted and adds exactly that string |
| Common.FirstWhere | backend/models/companies.py:81-96 | the first index whose element satisfies the test, or None when no element does |
| Common.FirstWhereAt | backend/models/companies.py:81-96 | an index whose element satisfies the test, with none before it, is the first one |
| Common.Digits | backend/models/companies.py:89-90 | the digits-only form holds only digits and is never longer |
| Common.DigitsConcat | backend/models/companies.py:89-90 | the digits-only form of a concatenation is the concatenation of the digits-only forms |
| Common.DigitsOfDigits | backend/models/companies.py:89-90 | a text of digits only is its own digits-only form |
| Common.DigitsOfNoDigits | backend/models/companies.py:89-90 | a text without digits has the empty digits-only form |
| Common.SeparatorIgnored | backend/models/companies.py:89-92 | separators without digits, inserted anywhere, leave the digits-only form unchanged, so formatted and bare CNPJs compare equal |
| Common.RemoveChars | backend/services/contract_generation_service.py:106 | the result holds none of the removed characters and is never longer |
| Common.RemoveCharsConcat | backend/services/contract_generation_service.py:106 | removing characters distributes over concatenation |
| Common.RemoveCharsKeeps | backend/services/contract_generation_service.py:106 | a text holding none of the removed characters is unchanged |
| Common.ReplaceCharByEmpty | backend/services/contract_generation_service.py:106 | `.replace(c, '')` removes exactly the character c |
| Common.RemoveCharsTwice | backend/services/contract_generation_service.py:106 | removing one set of characters and then another is removing their union |
| Common.ReplaceChainRemoves | backend/services/contract_generation_service.py:106 | three chained `.replace(c, '')` calls remove exactly those three characters |
| Common.NatToStringLength | backend/services/contract_generation_service.py:106 | a number below 10^k is written with at most k digits |
| ContractGeneration.OutputFilenameReplaces | backend/services/contract_generation_service.py:106 | the file name is "contrato_", the CNPJ after the `.replace('.', '').replace('/', '').replace('-', '')` chain, "_", the name hash modulo 10000 in decimal, ".docx" |
| ContractGeneration.OutputFilenameKeepsDigits | backend/services/contract_generation_service.py:106 | a digits-only CNPJ appears unchanged in the file name |
| Common.StripEmptyIffBlank | backend/services/excel_sync_service.py:298 | a cell strips to '' iff it is all whitespace |
| Common.ReplaceAbsent | backend/services/contract_generation_service.py:77-78 | replacing an absent placeholder changes nothing |
| Common.ReplaceLeavesNoPlaceholder | backend/services/contract_generation_service.py:78 | after `replace` with a safe value, the placeholder no longer occurs, and no other placeholder is created |
| Common.SplitJoin | backend/services/contract_generation_service.py:169 | splitting a '\n'-joined list of line-free texts gives the list back |

## Left out

- Network I/O is not modelled: the SharePoint/Graph download, the token request, and the
  sync that generation runs first (backend/routes/contracts_routes.py:38-45), whose failure the
  route ignores anyway.
- pandas, temporary files and `os.unlink` are not modelled. A sheet is the list of rows that
  `read_excel(header=None)` yields, each cell `None` for NaN or its `str()` text.
- SQLite is not modelled: connections, PRAGMA, SQL text and commit. Tables are maps, and
  `companies_data` keeps its scan order as a sequence.
- Database and file errors are not modelled. The generic `except Exception` handlers that
  answer 500, re-raise or return None after such an error are not part of the model.
- python-docx internals are not modelled: XML, styles, `doc.save` and loading. A file that
  loads is `Ok(content)`, one that raises is `Err(message)`.
- Setting `paragraph.text` collapses the paragraph to one run, and the model does that. Setting
  `cell.text` is modelled as replacing the cell's text.
- ContractGeneration.GenerateContract: Python's `hash()` of the company name is randomised per
  process, so it is the parameter `nameHash`. Only `nameHash % 10000` is used, the same for
  Python's floor modulo with a positive divisor.
- The regular expressions at backend/services/contract_generation_service.py:240 and
  backend/routes/contracts_routes.py:266 are replaced by a marker-based scan (`ContractorClause`).
  It tries the same alternatives in the same order, but the regex engine is not modelled.
  Its proved guarantees are the group shapes and the read-back of a written clause.
- Common.Lower folds ASCII and Latin-1 capitals only, so case-insensitive matching and
  `lower()` ignore other Unicode letters. Full Unicode case folding is not modelled.
- Common.Digits keeps ASCII digits only, whereas `str.isdigit` also accepts other Unicode
  digits.
- ExcelSync.WordChars: `\w` is approximated. It is exact for ASCII and Latin-1, and every
  character above U+00FF counts as a word character.
- ContractGeneration.UpdateDocumentContent: a failure while saving, which the source also turns
  into False, is not modelled; only a template that does not load gives False.
- Companies: a stored 'cnpj' that is a JSON list or object is filtered element by element (by key
  for an object), so a list of digit strings such as ["12345678000190"] can match; a number, or a
  list holding a non-text element, makes the filter raise and the row is skipped
  (backend/models/companies.py:89-98). The model treats every non-text stored CNPJ as not matching,
  so it misses the list and object cases that the source lets match.
- JSON values other than text and null are reduced to their truthiness. Writing JSON text
  (`json.dumps`) is not modelled: extra_data is stored as the object it encodes.
- ContractRoutes.Payload: a non-text value under 'Razão Social', 'CNPJ' or 'Endereço' is left
  out of the payload. In the source the generator receives it: a truthy non-text 'CNPJ' makes
  `.replace` raise (backend/services/contract_generation_service.py:106), and so does an
  unhashable 'Razão Social' through `hash()`; the error is re-raised and the route answers 500
  (backend/routes/contracts_routes.py:112-117). The model instead reports the dropped field as
  missing (MissingRequired, the 400 answer). The route's mapping of generator errors to 400 and
  500 is not modelled.
- A request body is either not an object, or an object with text fields. Non-text values in a
  request body are not modelled.
- ContractRoutes.GenerateDecision, ContractRoutes.PreviewDecision, ContractRoutes.ContentRejection:
  every non-object body takes the 400 path. That holds for a falsy one (null, 0, false, "", []),
  but a truthy non-object ends in the generic handler's 500 in the source. For a number or `true`,
  `'cnpj' not in data` raises. A text or list that contains 'cnpj' ("xcnpj", ["cnpj"]) passes the
  guard, and `data['cnpj']` then raises (backend/routes/contracts_routes.py:29-35 and 383-389,
  answered at 113-118 and 424-429). The update route does the same with 'content', at line 260 after
  the file-name and existence checks (answered at 304-309). A truthy text or list without the key
  gets the 400, as the model says.
- Routes that only wrap I/O are not modelled: download's `send_file`, template info, the content
  GET around `extract_text_content`, and the file moves of the update and PUT routes. Their
  guards are modelled by ContractRoutes.FileRejection and ContractRoutes.ContentRejection.
- `search_companies`, `get_company_by_cnpj`, `count_companies` and
  `get_companies_without_details` in backend/models/companies.py are SQL queries and are not
  modelled.
- backend/models/user.py is not part of this model. `User.find_by_email` is a map lookup, and
  `User.create` is the `CreateCalled` reply carrying its arguments.
- UserService.Login: bcrypt's `checkpw` and JWT's `create_access_token` are function
  parameters.
- Logging and printing are not modelled.
- ExcelSync.ColumnMapping has no contract of its own: it is the literal three-entry map, and
  ExcelSync.ColumnMappingEntries and ExcelSync.ColumnMappingAgrees state what it holds.
- ExcelSyncOld.ProcessExcelContentOld follows the code: it raises when the sheet has 4 rows or
  fewer (`len(df) <= 4`), so a sheet of exactly 5 rows is accepted with no data rows.
- ContractGeneration.FillTextClears and ContractGeneration.FilledHasNoPlaceholder hold only for
  safe values: non-empty, free of '[' and ']', and not part of any placeholder. A value such as
  "CNPJ" in the text "[[CNPJ]]" forms a new `[CNPJ]`, so no stronger statement is true.

# ComfamArus dashboard core, modelled in Dafny

This project models the logic behind the ComfamArus React dashboard and
proves properties of that model.

**Inventory reconciliation (the "Inventario Bodega" page).** This part:

- reads an equipment spreadsheet;
- keeps the rows whose status, serial and name obey the page's rules;
- compares their serials with a manually typed table, using a flexible
  serial match;
- reports every serial as found, not found or missing;
- computes the figures per status and overall;
- attaches the manual notes on submission;
- lists the serials that were typed twice.

**The smaller pieces of the shell.** These are:

- the navigation hook: the section title and the active menu entries;
- the pending-tasks to-do list;
- the data table's global search;
- the Excel upload modal: its file validation and state;
- the filter panel of the equipment indicator page.

**Conventions.**

- Strings are sequences of Unicode characters, one `char` per scalar
  value; JavaScript's strings are UTF-16 code units (see "Left out").
- The column lookup's `-1` ("no such header") is `None`.
- Numbers from the sheet are cells with their `String(...)` text.
- Percentages are integers in hundredths of a percent.
- Identifiers that the code builds from the clock and a random source
  are parameters.
- The upload callback's outcome and the firing of the modal's closing
  timer are parameters too.

**Modules.**

| module | models |
|---|---|
| `Wrappers` | `Option` and `Result`, used for absence and thrown errors |
| `Seqs` | `filter`, `map` and `findIndex` on sequences, with their laws |
| `Text` | JavaScript's `trim`, `toLowerCase`, `startsWith`, `endsWith`, `includes` and the whitespace rewrites |
| `Inventory` | the spreadsheet side: column lookup, the row rules, `extraerFilasExcel` |
| `Serials` | `normalizarSerial` and `serialCoincide` |
| `Comparison` | `compararSeriales`: its loops as methods, and a functional reference definition |
| `Statistics` | the per-status and overall figures |
| `ManualTable` | the manual table's handlers and `serialesDuplicados` |
| `Submission` | `handleEnviar` |
| `Navigation` | `useNavigation`, with the route metadata |
| `TodoList` | the to-do list |
| `GlobalFilter` | `globalFilterFn` |
| `UploadModal` | the upload button's modal |
| `FilterPanel` | the indicator page's filter panel |

**The name check is a suffix test.** A row whose name is "01-ABXJ200"
and whose serial is "XJ200" is accepted, because the name check only asks
that the trimmed name end with the serial.

**Consequences the proofs bring out.**

- **The serial match is an equivalence.** `serialCoincide` holds exactly
  when the two serials are equal once lower-cased and stripped of
  whitespace and control characters. Its first test, equality after
  normalisation, is therefore implied by its second.
- **`getSectionName` never reaches four of its switch cases.** The cases
  for the known slugs always go through the route table first, and the
  table gives the same titles.
- **The global search does not collapse underscores beside spaces.** It
  collapses whitespace before it turns underscores into spaces. So a
  value "a _b" normalises to "a  b", with two spaces, and the search
  "a b" does not find it. In the same way, "a__b" normalises to two
  spaces, where "a  b" normalises to one. Underscores behave like spaces
  only when none of them touches another underscore or a whitespace
  character.
- **`removeFilter` hides the panel on the length of the draft before the
  call.** It hides the panel when the old draft had exactly one filter,
  whatever was removed.

## Model

| member | source | states |
|---|---|---|
| Inventory.ParseStatus | Frontend/src/features/inventario/components/Inventario.tsx:125-127 | a status parsed from a string has exactly that string as its sheet text |
| Inventory.ParseStatusName | Frontend/src/features/inventario/components/Inventario.tsx:69-74 | each of the four permitted states parses back from its text, and a string is permitted exactly when it is the text of one of them |
| Inventory.FindColumnFirst | Frontend/src/features/inventario/components/Inventario.tsx:109-119 | the column found is the first header that is a non-empty string equal to the column name after trimming and lower-casing; there is no column exactly when no header qualifies |
| Inventory.FindStatusColumnExample | Frontend/src/features/inventario/components/Inventario.tsx:109-119 | a non-string header is skipped, and " ESTADO " names the "Estado" column |
| Inventory.FindSerialColumnExample | Frontend/src/features/inventario/components/Inventario.tsx:76-79 | an all-capitals, accented "NÚMERO DE SERIE" header names the serial column |
| Inventory.FindNameColumnExample | Frontend/src/features/inventario/components/Inventario.tsx:76-79 | a sheet whose headers do not include "nombre" has no name column |
| Inventory.ResolveColumns | Frontend/src/features/inventario/components/Inventario.tsx:168-186 | a missing status column is reported before a missing serial column; on success, the positions are those of the headers, and the name column is optional |
| Inventory.ClassifyRow | Frontend/src/features/inventario/components/Inventario.tsx:203-230 | a row without a permitted status is excluded for its status, before its serial is looked at; a row with a permitted status but a blank or non-string serial is excluded for its serial |
| Inventory.AcceptedRowsSelection | Frontend/src/features/inventario/components/Inventario.tsx:196-278 | the records emitted are, in order, exactly those of the accepted rows, each once |
| Inventory.AcceptedRowsShape | Frontend/src/features/inventario/components/Inventario.tsx:232-277 | there are no more records than rows, and each record's serial is trimmed and non-empty |
| Inventory.ExtractRows | Frontend/src/features/inventario/components/Inventario.tsx:165-281 | an empty grid gives no rows; otherwise the extraction fails exactly when the header does not resolve, with that error; on success every serial is trimmed and non-empty, and there are no more records than data rows |
| Inventory.ExtractedRowsAreAccepted | Frontend/src/features/inventario/components/Inventario.tsx:195-278 | each record comes from a data row after the header that was accepted as that very record |
| Inventory.ExtractionKeepsOrder | Frontend/src/features/inventario/components/Inventario.tsx:196-277 | the source rows of the records strictly increase, so records keep the sheet order and no data row yields two records |
| Inventory.ExtractionIsComplete | Frontend/src/features/inventario/components/Inventario.tsx:196-277 | every accepted data row is emitted |
| Inventory.ExtractedRowsObeyRules | Frontend/src/features/inventario/components/Inventario.tsx:203-277 | each record obeys the rules on its row: status text, trimmed serial and, when a name column exists and the name is non-blank, a "01-" or "02-" prefix and a name ending with the serial |
| Inventory.AcceptMeansRules | Frontend/src/features/inventario/components/Inventario.tsx:133-153 | an accepted row satisfies the status, serial, prefix and name-suffix rules |
| Inventory.RulesMeanAccept | Frontend/src/features/inventario/components/Inventario.tsx:203-277 | a row satisfying the rules for a record is accepted as exactly that record |
| Inventory.NoNameColumnNoNameRules | Frontend/src/features/inventario/components/Inventario.tsx:236-264 | without a name column, only the status and serial decide |
| Inventory.BlankNameNoNameRules | Frontend/src/features/inventario/components/Inventario.tsx:238-257 | a falsy or blank name imposes no condition |
| Serials.NormalizeHasNoControl | Frontend/src/features/inventario/components/Inventario.tsx:287-296 | a normalised serial holds no C0 or C1 control character, and the empty serial normalises to "" |
| Serials.NormalizeIsLowerCase | Frontend/src/features/inventario/components/Inventario.tsx:287-296 | a normalised serial is already lower-case |
| Serials.CollapseIsLowerCase | Frontend/src/features/inventario/components/Inventario.tsx:293-294 | collapsing whitespace keeps a lower-case string lower-case |
| Serials.NormalizeThenRemoveSpaces | Frontend/src/features/inventario/components/Inventario.tsx:311-313 | removing whitespace from a normalised serial leaves its lower-cased significant characters |
| Serials.MatchIffSameKey | Frontend/src/features/inventario/components/Inventario.tsx:302-316 | two serials match exactly when they agree once lower-cased and stripped of whitespace and control characters |
| Serials.MatchReflexive | Frontend/src/features/inventario/components/Inventario.tsx:307-309 | every serial matches itself |
| Serials.MatchSymmetric | Frontend/src/features/inventario/components/Inventario.tsx:302-316 | the match does not depend on argument order |
| Serials.EqualNormalFormsMatch | Frontend/src/features/inventario/components/Inventario.tsx:307-309 | serials with equal normal forms match |
| Serials.MatchTransitive | Frontend/src/features/inventario/components/Inventario.tsx:302-316 | the match is transitive |
| Serials.MatchIgnoresCase | Frontend/src/features/inventario/components/Inventario.tsx:291-292 | a serial matches its lower-case form |
| Serials.KeyAppend | Frontend/src/features/inventario/components/Inventario.tsx:311-315 | the compared key of a concatenation is the concatenation of the keys |
| Serials.KeyOfInsignificant | Frontend/src/features/inventario/components/Inventario.tsx:294-295 | a whitespace or control character contributes nothing to the key |
| Serials.MatchIgnoresInsertedSpace | Frontend/src/features/inventario/components/Inventario.tsx:311-315 | inserting whitespace or a control character anywhere keeps a serial matching itself |
| Comparison.SearchTable | Frontend/src/features/inventario/components/Inventario.tsx:338-347 | the loop with `break` finds a match exactly when some manual serial matches the record |
| Comparison.SearchExcel | Frontend/src/features/inventario/components/Inventario.tsx:362-372 | the loop with `break` finds a match exactly when the manual serial matches some record |
| Comparison.FirstPass | Frontend/src/features/inventario/components/Inventario.tsx:335-355 | the first pass pushes one result per record, equal to the reference definition |
| Comparison.SecondPass | Frontend/src/features/inventario/components/Inventario.tsx:358-381 | the second pass pushes exactly the missing results of the reference definition |
| Comparison.Compare | Frontend/src/features/inventario/components/Inventario.tsx:327-384 | the whole comparison equals the reference definition |
| Comparison.CompareLength | Frontend/src/features/inventario/components/Inventario.tsx:327-384 | there are at least as many results as records and at most records plus manual serials |
| Comparison.CompareMirrorsExcel | Frontend/src/features/inventario/components/Inventario.tsx:350-354 | the i-th result keeps the i-th record's serial and status, and is found exactly when a manual serial matches it |
| Comparison.CompareMissingTail | Frontend/src/features/inventario/components/Inventario.tsx:358-381 | the results after the records are exactly the unmatched non-blank manual serials, verbatim, in table order, with the "Faltante" status |
| Comparison.MissingOnlyInTail | Frontend/src/features/inventario/components/Inventario.tsx:375-379 | a result is missing, and has the "Faltante" status, exactly when it follows the record results |
| Comparison.MissingIffUnmatched | Frontend/src/features/inventario/components/Inventario.tsx:359-380 | a manual serial is reported missing exactly when it is non-blank and matches no record |
| Comparison.FoundByKey | Frontend/src/features/inventario/components/Inventario.tsx:338-347 | a record is found exactly when some manual serial has the same key |
| Comparison.MatchedPairCancels | Frontend/src/features/inventario/components/Inventario.tsx:335-381 | a matching record and manual serial make the record found and keep the serial out of the missing list |
| Comparison.MissingRespectsMatch | Frontend/src/features/inventario/components/Inventario.tsx:362-372 | matching manual serials are missing together or not at all |
| Statistics.StatsFor | Frontend/src/features/inventario/components/Inventario.tsx:399-414 | found and not found add up to the total of the status, and an empty status shows 0 % |
| Statistics.StatsByStatus | Frontend/src/features/inventario/components/Inventario.tsx:390-418 | there is one entry per permitted state, in the fixed order, each consistent |
| Statistics.Overall | Frontend/src/features/inventario/components/Inventario.tsx:424-445 | every result counts in the overall total, found and not found add up to it, the per-state figures are passed through, and no results show 0 % |
| Statistics.StatsForSpec | Frontend/src/features/inventario/components/Inventario.tsx:399-414 | a state's total counts the results in that state and its found figure the found results in it; found is at most the total, the percentage is at most 100 %, and it is exactly 100 % when nothing in the state was missed |
| Statistics.OverallSpec | Frontend/src/features/inventario/components/Inventario.tsx:424-445 | the overall found figure counts the found results; it is at most the total, the percentage is at most 100 %, and it is exactly 100 % when nothing was missed |
| Statistics.PercentRounds | Frontend/src/features/inventario/components/Inventario.tsx:405-406 | the percentage is the nearest hundredth of a percent, with halves rounded up |
| Statistics.PercentAtMostWhole | Frontend/src/features/inventario/components/Inventario.tsx:405-406 | a part is at most 100 % |
| Statistics.PercentOfWhole | Frontend/src/features/inventario/components/Inventario.tsx:405-406 | the whole is exactly 100 % |
| Statistics.PercentOfNothing | Frontend/src/features/inventario/components/Inventario.tsx:433-436 | nothing is 0 % |
| Statistics.MissingInNoStatus | Frontend/src/features/inventario/components/Inventario.tsx:399-400 | missing results belong to no state, so adding them changes no per-state figure |
| Statistics.StatsIgnoreMissingSerials | Frontend/src/features/inventario/components/Inventario.tsx:390-418 | the per-state figures of a comparison are those of its record results alone |
| Statistics.OneResultInOneStatus | Frontend/src/features/inventario/components/Inventario.tsx:399-400 | a result lies in exactly one state unless it is missing |
| Statistics.StatusTotalsSum | Frontend/src/features/inventario/components/Inventario.tsx:398-401 | the per-state totals add up to the results that are not missing |
| Statistics.ComparisonStatusTotals | Frontend/src/features/inventario/components/Inventario.tsx:390-418 | in a comparison, the per-state totals add up to the number of records |
| Statistics.ComparisonOverallNotFound | Frontend/src/features/inventario/components/Inventario.tsx:428-432 | the overall not-found figure counts each missing serial on top of the unmatched records |
| ManualTable.UpdateCellLocal | Frontend/src/features/inventario/components/Inventario.tsx:461-469 | editing a cell changes only the named field of the rows with that id |
| ManualTable.InsertPosition | Frontend/src/features/inventario/components/Inventario.tsx:480-492 | the insertion point lies within the table |
| ManualTable.InsertPositionSpec | Frontend/src/features/inventario/components/Inventario.tsx:480-492 | the new row goes right after the first row with the given id, and at the end when no id is given, the id is empty or no row has it |
| ManualTable.AddRowShape | Frontend/src/features/inventario/components/Inventario.tsx:471-492 | adding inserts exactly one blank row with the new id and keeps every other row in order |
| ManualTable.AddRowUndone | Frontend/src/features/inventario/components/Inventario.tsx:486-490 | removing the inserted row gives the old table back |
| ManualTable.ManualSerialsSpec | Frontend/src/features/inventario/components/Inventario.tsx:585-587 | the manual serials are the trimmed serials of the non-blank rows, in row order |
| ManualTable.ManualSerialsTrimmed | Frontend/src/features/inventario/components/Inventario.tsx:585-587 | every manual serial is trimmed and non-empty |
| ManualTable.NoManualSerialsIffAllBlank | Frontend/src/features/inventario/components/Inventario.tsx:589-592 | there are no manual serials exactly when every serial cell is blank |
| ManualTable.TallyAllCounts | Frontend/src/features/inventario/components/Inventario.tsx:676-683 | the count map holds each key seen exactly once, with the number of its occurrences, and lists the keys in the order they are first seen |
| ManualTable.BumpOrder | Frontend/src/features/inventario/components/Inventario.tsx:679-682 | counting one more key keeps the keys in first-seen order |
| ManualTable.FirstAtSpec | Frontend/src/features/inventario/components/Inventario.tsx:676-683 | the position used for first-seen order is the first occurrence of the key, inside the list exactly when the key occurs |
| ManualTable.BumpTallies | Frontend/src/features/inventario/components/Inventario.tsx:678-682 | counting one more key keeps the count map exact |
| ManualTable.BumpKeys | Frontend/src/features/inventario/components/Inventario.tsx:679-682 | a new key is appended to the insertion order and a known one leaves the order as it was, which stays free of repeats |
| ManualTable.DuplicatesSound | Frontend/src/features/inventario/components/Inventario.tsx:685-694 | each duplicate reported is the first manual serial with its lower-case form, and occurs, ignoring case, as often as reported, which is more than once |
| ManualTable.RepeatedKeyInTally | Frontend/src/features/inventario/components/Inventario.tsx:676-686 | a lower-case form occurring more than once is a repeated key of the count map |
| ManualTable.DuplicatesComplete | Frontend/src/features/inventario/components/Inventario.tsx:671-699 | every lower-case form occurring more than once is reported |
| ManualTable.DuplicatesDistinct | Frontend/src/features/inventario/components/Inventario.tsx:685-694 | no lower-case form is reported twice |
| ManualTable.DuplicatesInFirstSeenOrder | Frontend/src/features/inventario/components/Inventario.tsx:685-694 | duplicates are reported in the order their lower-case forms first occur among the manual serials |
| ManualTable.KeyOfDuplicate | Frontend/src/features/inventario/components/Inventario.tsx:686-693 | the d-th reported serial lower-cases to the d-th repeated key of the count map, whose keys are in first-seen order |
| Submission.SendGuards | Frontend/src/features/inventario/components/Inventario.tsx:578-592 | submission fails without loaded records, then without a non-blank manual serial, and succeeds otherwise |
| Submission.SendAnnotates | Frontend/src/features/inventario/components/Inventario.tsx:595-612 | the submitted results are the comparison's, and the found and missing ones carry the note of the first matching manual row |
| Submission.NoteForSpec | Frontend/src/features/inventario/components/Inventario.tsx:603-609 | the note is that of the first row whose serial matches, and empty when none does |
| Submission.SendStatistics | Frontend/src/features/inventario/components/Inventario.tsx:615-626 | attaching notes changes no figure |
| Navigation.RootActiveOnlyAtRoot | Frontend/src/shared/hooks/useNavigation.ts:54-63 | the root entry is active exactly on the root page |
| Navigation.ActiveIsPrefix | Frontend/src/shared/hooks/useNavigation.ts:54-63 | any other entry is active exactly when the current path is non-empty and starts with it |
| Navigation.ActiveClosedUnderPrefix | Frontend/src/shared/hooks/useNavigation.ts:60 | an active entry stays active when shortened to a prefix that is not the root |
| Navigation.SubmenuActiveIffSome | Frontend/src/shared/hooks/useNavigation.ts:66-71 | a submenu is active exactly when one of its entries is |
| Navigation.LeadingSlashes | Frontend/src/shared/hooks/useNavigation.ts:14 | the run of leading slashes lies within the path |
| Navigation.DropSlashesShape | Frontend/src/shared/hooks/useNavigation.ts:14 | the slug search skips exactly the leading slashes |
| Navigation.TakeSegmentShape | Frontend/src/shared/hooks/useNavigation.ts:14 | the slug is the longest slash-free prefix of what follows them |
| Navigation.FirstSegmentOf | Frontend/src/shared/hooks/useNavigation.ts:14 | the slug of "/word/rest" is "word" |
| Navigation.SectionNameDefaults | Frontend/src/shared/hooks/useNavigation.ts:10-51 | the title is never empty, it is "Dashboard" for an empty path, "Home" for the root, and "Dashboard" for any other path whose first segment is not a table slug and that is neither a "/proceso-" nor a "/todolist-" path |
| Navigation.SectionNameFallback | Frontend/src/shared/hooks/useNavigation.ts:35-49 | a path no earlier rule recognises, other than the root, falls to the switch's default "Dashboard", so the switch cases for the table's own slugs are never reached |
| Navigation.SectionFromTable | Frontend/src/routes/routes.tsx:29-89 | a known slug gives its metadata title, whatever segments follow it |
| Navigation.TodoListPaths | Frontend/src/shared/hooks/useNavigation.ts:31-33 | every "/todolist-" path is titled "TodoList" |
| Navigation.DynamicProcessPaths | Frontend/src/shared/hooks/useNavigation.ts:23-28 | a "/proceso-" path without a table entry is titled from the path itself |
| Navigation.TitleCaseShape | Frontend/src/shared/hooks/useNavigation.ts:27 | capitalising keeps the length and changes exactly the lower-case letters that start a word |
| Navigation.ProcesoDigit | Frontend/src/shared/hooks/useNavigation.ts:17-28 | "/proceso-" with one digit other than 3 to 6 is titled "Proceso " and that digit |
| Navigation.ProcesoDigitTitle | Frontend/src/shared/hooks/useNavigation.ts:24-27 | "proceso-7" and its like become "Proceso 7" |
| TodoList.AddBlankIsNoOp | Frontend/src/features/pendientes/components/TodoList.tsx:57-61 | a blank input changes nothing, and the input is not cleared |
| TodoList.AddPrepends | Frontend/src/features/pendientes/components/TodoList.tsx:57-69 | a non-blank input puts one pending item in front whose text is exactly the trimmed input, clears the input, and adds one to the remaining count |
| TodoList.KeyDownSpec | Frontend/src/features/pendientes/components/TodoList.tsx:71-75 | Enter with a non-blank input adds one pending item with the trimmed text in front and clears the input; Enter with a blank input, and every other key, change nothing |
| TodoList.ToggleShape | Frontend/src/features/pendientes/components/TodoList.tsx:77-81 | toggling keeps length, order, ids and texts, and flips exactly the items with the id |
| TodoList.ToggleTwice | Frontend/src/features/pendientes/components/TodoList.tsx:77-81 | toggling the same id twice restores the list |
| TodoList.RemoveDropsExactlyId | Frontend/src/features/pendientes/components/TodoList.tsx:83-85 | removal drops every item with the id and keeps exactly the others, each once and in their old order |
| TodoList.RemoveUndoesAdd | Frontend/src/features/pendientes/components/TodoList.tsx:57-85 | removing a just-added item with a fresh id restores the list |
| TodoList.ClearCompletedShape | Frontend/src/features/pendientes/components/TodoList.tsx:87-89 | clearing keeps exactly the pending items, each once and in their old order, all of which then remain, and clearing twice changes nothing more |
| TodoList.RemainingPlusCompleted | Frontend/src/features/pendientes/components/TodoList.tsx:52-55 | the remaining and the completed items add up to the list |
| TodoList.ClearCompletedCount | Frontend/src/features/pendientes/components/TodoList.tsx:87-89 | clearing removes as many items as were completed |
| GlobalFilter.RowMatchesIffSomeField | Frontend/src/shared/components/ui/datatable.tsx:62-83 | a non-empty search keeps a row exactly when one of its fields matches |
| GlobalFilter.EmptySearchKeepsAll | Frontend/src/shared/components/ui/datatable.tsx:63 | the empty search keeps every row |
| GlobalFilter.AbsentFieldsNeverMatch | Frontend/src/shared/components/ui/datatable.tsx:67 | null and undefined fields never match |
| GlobalFilter.BlankSearchNeedsAField | Frontend/src/shared/components/ui/datatable.tsx:63-81 | a search of whitespace only keeps exactly the rows with a present field |
| GlobalFilter.SearchIgnoresCase | Frontend/src/shared/components/ui/datatable.tsx:64 | the search ignores letter case |
| GlobalFilter.ValueIgnoresCase | Frontend/src/shared/components/ui/datatable.tsx:69 | field text ignores letter case |
| GlobalFilter.NormalizeShape | Frontend/src/shared/components/ui/datatable.tsx:71-79 | normalised text is trimmed, has no underscore, and has no whitespace other than the plain space |
| GlobalFilter.UnderscoreSearchesSpace | Frontend/src/shared/components/ui/datatable.tsx:71-74 | in a search without whitespace, underscores stand for spaces |
| GlobalFilter.UnderscoreLikeSpace | Frontend/src/shared/components/ui/datatable.tsx:71-74 | a search without whitespace and without doubled underscores normalises the same with its underscores written as spaces, so "a_b" and "a b" search alike |
| GlobalFilter.UnderscoreBesideSpaceKeepsTwoSpaces | Frontend/src/shared/components/ui/datatable.tsx:76-79 | "a _b" normalises to "a  b" and the search "a b" to "a b" |
| UploadModal.LastDot | Frontend/src/shared/components/ui/excel-upload-button.tsx:46-48 | a dot found lies in the name |
| UploadModal.LastDotIsLast | Frontend/src/shared/components/ui/excel-upload-button.tsx:48 | the dot found is the last, and none is found exactly when the name has none |
| UploadModal.ExtensionSpec | Frontend/src/shared/components/ui/excel-upload-button.tsx:46-48 | the extension is the lower-cased text from the last dot, or the whole lower-cased name when there is no dot |
| UploadModal.ExcelExtensionSuffices | Frontend/src/shared/components/ui/excel-upload-button.tsx:51-57 | an ".xlsx" or ".xls" name, in any case, passes the type check whatever its MIME type |
| UploadModal.SelectFileSpec | Frontend/src/shared/components/ui/excel-upload-button.tsx:39-71 | handling a file clears the error exactly when it passes both checks; an accepted file is selected and any earlier success is cleared; a refused one changes only the error, which names the first check that failed |
| UploadModal.InputChangeSpec | Frontend/src/shared/components/ui/excel-upload-button.tsx:73-80 | the first chosen file is handled like any selected file, and an empty choice changes nothing |
| UploadModal.DropSpec | Frontend/src/shared/components/ui/excel-upload-button.tsx:82-100 | a drop always turns the drag highlight off and handles the first dropped file like a chosen one, an empty drop changing nothing else; dragging over turns the highlight on and leaving turns it off, touching nothing else |
| UploadModal.DefaultLimit | Frontend/src/shared/components/ui/excel-upload-button.tsx:29 | with the default limit of 50, a file is too big exactly when it exceeds 52428800 bytes |
| UploadModal.SelectFileKeepsModal | Frontend/src/shared/components/ui/excel-upload-button.tsx:39-71 | handling a file never opens, closes or uploads |
| UploadModal.UploadWithoutFileIsNoOp | Frontend/src/shared/components/ui/excel-upload-button.tsx:103 | uploading without a selection does nothing |
| UploadModal.SuccessThenTimerCloses | Frontend/src/shared/components/ui/excel-upload-button.tsx:102-120 | after a successful upload and the timer, the state is the initial one except for the drag highlight |
| UploadModal.FailureKeepsSelection | Frontend/src/shared/components/ui/excel-upload-button.tsx:121-128 | a failed upload keeps the modal and selection, stops uploading and shows the thrown message, the generic one when nothing was thrown with a message, and no error when the message is empty |
| UploadModal.CloseResets | Frontend/src/shared/components/ui/excel-upload-button.tsx:131-142 | closing resets all six fields whatever the state, and opening then closing leaves the initial state |
| FilterPanel.SetKeyGet | Frontend/src/features/indicador-equipos/components/IndicadorDeEquipos.tsx:87-93 | setting a filter key makes it read the new value and leaves the other keys |
| FilterPanel.AddFilterShape | Frontend/src/features/indicador-equipos/components/IndicadorDeEquipos.tsx:42-53 | adding appends one "nombre"/"contains" filter with an empty value and shows the panel |
| FilterPanel.RemoveFilterSpec | Frontend/src/features/indicador-equipos/components/IndicadorDeEquipos.tsx:55-64 | removal drops exactly the filters with the id, keeps the others once each and in their old order, and hides the panel exactly when the old draft had one filter |
| FilterPanel.RemoveUndoesAdd | Frontend/src/features/indicador-equipos/components/IndicadorDeEquipos.tsx:42-64 | removing a just-added filter with a fresh id restores the draft |
| FilterPanel.UpdateFilterSpec | Frontend/src/features/indicador-equipos/components/IndicadorDeEquipos.tsx:87-93 | updating changes only the given key of the filters with the id |
| FilterPanel.UpdateKeepsIds | Frontend/src/features/indicador-equipos/components/IndicadorDeEquipos.tsx:87-93 | updating any key but the id keeps every id |
| FilterPanel.ApplySpec | Frontend/src/features/indicador-equipos/components/IndicadorDeEquipos.tsx:74-81 | applying copies the draft and hides the panel; removing an applied filter leaves the draft alone |
| FilterPanel.RemoveAppliedSpec | Frontend/src/features/indicador-equipos/components/IndicadorDeEquipos.tsx:79-81 | removing an applied filter drops exactly the applied filters with the id, keeps the others once each and in their old order, and leaves the draft and the panel's visibility alone |
| FilterPanel.ClearAllSpec | Frontend/src/features/indicador-equipos/components/IndicadorDeEquipos.tsx:66-72 | clearing empties both lists and hides the panel |

## Left out

- **Reading the workbook.** `parseExcelData` is left out, along with the
  XLSX library and the slice that drops the first two sheet rows. The
  extraction starts from the sliced grid, so row 0 is the header.
- **The list of excluded rows.** `extraerFilasExcel` builds this list
  only for diagnostics. Its messages are not part of the result.
- **The exact text of errors.** The text of thrown errors and alerts, and
  the size message with its number, are modelled as error values.
- **Full Unicode lower-casing.** `toLowerCase` is modelled for basic
  Latin and Latin-1 capitals only. The headers and states the code
  compares are in that range.
- **Statistics.Percent:** the percentages use exact arithmetic, not the
  binary floating point of `Math.round(x / n * 100 * 100) / 100`. Halves
  are rounded up, and hundredths of a percent are integers.
- **Exporting.** Exporting the results to Excel, the column labels and
  the UI rendering are left out: they are presentation only.
- **Animation and focus.** The animation flag of the filter panel, the
  focus timer of `handleAddRow` and the debounce of the global search are
  left out: they only affect presentation.
- **The panel-hiding timer.** `removeFilter` hides the panel from a
  timer. The model applies that change at once.
- **Storage and identifiers.** TodoList storage in `localStorage` is left
  out. Identifier generation from `Date.now` and `Math.random` becomes a
  parameter.
- **Prototype names in the route table.** `slug in processRoutes` also
  holds for the names of `Object.prototype`. For those slugs the
  metadata title is missing and the code answers "Dashboard". That is
  also the answer a plain table lookup leads to, so the model looks up
  only the table's own keys.
- **The upload request.** The upload callback is a parameter; the model
  takes only its outcome.
- **Browser file objects.** Only name, type and size are read.
- **Drag-and-drop events.** The event objects and `preventDefault` are
  left out; a drop is modelled by the list of files it carries.
- **Characters outside the Basic Multilingual Plane.** Such a character is
  one `char` here but two UTF-16 code units in JavaScript, so lengths and
  `lastIndexOf` positions differ for names and texts that contain one.
  A lone surrogate, which a JavaScript string may hold, has no `char`.
- **`String(value)` in the global search.** It is a parameter: each
  present field carries its text.

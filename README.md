# Meishukai-DB core in Dafny

A model of the record-keeping and ingestion engine of Meishukai-DB, a sake
catalog kept by a tasting society. The catalog is a spreadsheet of sake
records with twelve canonical columns. The modules are:

- `Config`: the twelve canonical columns and the sake-style column names.
- `Values` and `Tables`: cells and pandas frames as the core uses them.
  A cell is `None`, `NaN`, text, an integer, a boolean or a timestamp.
  A frame is a list of column labels plus rows of cells.
- `Strings`: Python string behaviour the core relies on, namely
  `strip`, `\s+` collapsing, `\d+` search, `str(int)`, `int(float(s))`,
  `lower`, `in` and `<`.
- `Storage`: the catalog workbook, as the class `CatalogStore` whose field
  is the stored sheet.
  - Loading forces the sheet into the canonical schema.
  - Saving coerces `updated_at` and writes the sheet; `None` reads back
    as `NaN`.
  - Load-after-save is proved to be a stable round trip.
- `MemberIndex`: the member-name frequency counter, as the class
  `MemberHistory`. It has the increment, the cold-start seeding from the
  catalog, and the ranking by (count descending, name ascending). The
  ranking is proved to be a permutation of the non-blank names, ordered,
  and unique.
- `Audit`: the audit log, as the class `AuditLog`. It has the bootstrap of
  an empty log, the fail-soft read, and the append of one entry with the
  id/name choice and the changed-field diff.
- `Importer`: the upload pipeline.
  - Guessing the source header for each target column: header order
    first, synonyms second.
  - Projecting the mapped columns, including pandas' behaviour of a frame
    that gets its rows late.
  - Coercing `quantity` and `updated_at`.
  - Deriving `category` from the style indicator columns when it is unmapped.
- `MainView` and `MainViewRecords`: the data-management page.
  - The pure helpers: member-name normalisation, meeting labels and their
    sort key, meeting-number input, and entry-form checks.
  - The record operations: registering a record, bulk meeting assignment
    and bulk delete. Each operation is stated as what it does to the
    workbook, the member counter and the audit log.

## Model

| member | source | states |
|---|---|---|
| Storage.CatalogStore.EnsureFile | src/storage.py:7-12 | an absent workbook becomes an empty sheet with the target columns; an existing one is untouched |
| Storage.CatalogStore.LoadItems | src/storage.py:14-22 | creates the file if absent, and returns exactly the target columns in order; a missing column is `None` in every row, a present column keeps its cells, other columns are dropped, every row is kept |
| Storage.Reconcile | src/storage.py:19-22 | the loaded table has exactly the given columns, the stored row count, stored cells where the column existed and `None` elsewhere |
| Storage.AddMissing | src/storage.py:19-21 | the column-filling loop computes `FillMissing` |
| Storage.FillMissing | src/storage.py:19-21 | filling keeps the row count and every existing column, adds every listed column, and adds nothing else |
| Storage.FillMissingCells | src/storage.py:19-21 | filling keeps every existing cell and gives each added column `None` |
| Storage.FillThenSelect | src/storage.py:19-22 | filling then selecting the target columns equals the reconciled table |
| Storage.LoadedIsReconciled | src/storage.py:19-22 | the target columns are distinct, and the loaded table is canonical and equals the reconciled one |
| Storage.CoerceUpdatedAt | src/storage.py:26-27 | only `updated_at` changes; a missing or unparsable cell there becomes `now`, a parsable one becomes its parsed timestamp; without the column nothing changes |
| Storage.CatalogStore.SaveItems | src/storage.py:24-29 | the caller's table is coerced, and the workbook then holds exactly the coerced table as written |
| Storage.Stored | src/storage.py:17-29 | a written cell reads back never as `None`; it is `NaN` exactly when the value was null or one of the texts `read_excel` takes for missing, the empty text among them, and unchanged otherwise |
| Storage.Written | src/storage.py:28-29 | writing keeps the columns and the row count |
| Storage.WrittenCells | src/storage.py:28-29 | every cell of the written table reads back as stored |
| Storage.WrittenFixed | src/storage.py:28-29 | writing a table read back from the workbook changes nothing |
| Storage.CoerceWrittenFixed | src/storage.py:26-29 | re-coercing a written, already coerced table at a later time changes nothing |
| Storage.SaveThenLoad | src/storage.py:14-29 | loading a saved canonical table gives back exactly what was written |
| Storage.ReconcileKeeps | src/storage.py:19-22 | loading a table already in the target columns gives it back unchanged |
| Storage.SaveLoadStable | src/storage.py:14-29 | after one save and load, a second save and load at any later time gives the same table |
| MemberIndex.MemberHistory.Bump | src/storage.py:54-59 | the count of the name rises by exactly one and every other count is unchanged |
| MemberIndex.Cleaned | src/storage.py:64 | empty and whitespace-only names are removed; every other name keeps its multiplicity |
| MemberIndex.RankBeforeTotal | src/storage.py:65 | any two names are ordered one way or the other under the key (-count, name) |
| MemberIndex.RankBeforeTransitive | src/storage.py:65 | the key order is transitive |
| MemberIndex.RankBeforeAntisymmetric | src/storage.py:65 | two names each ranked before the other are equal |
| MemberIndex.Insert | src/storage.py:65 | insertion adds exactly the one element |
| MemberIndex.InsertRanked | src/storage.py:65 | inserting into a ranked list keeps it ranked |
| MemberIndex.SortRanked | src/storage.py:65 | the sort result is ranked and a permutation of its input |
| MemberIndex.SortMembersByFrequency | src/storage.py:61-65 | the result is ordered by count descending, then name ascending; it is a permutation of the input without its blank names |
| MemberIndex.RankedUnique | src/storage.py:65 | two ranked permutations of the same names are equal, so the sorted order is fully determined |
| MemberIndex.SeedNames | src/storage.py:75-76 | null cells are dropped, names are trimmed and blanks dropped; each name occurs as often as cells yield it |
| MemberIndex.Tally | src/storage.py:79 | the counter holds exactly the names listed, each with its multiplicity |
| MemberIndex.AddCounts | src/storage.py:81-82 | every count of the base is added to the counter, key by key |
| MemberIndex.MemberHistory.Seed | src/storage.py:68-83 | the counter becomes `Seeded` of its old value and the catalog |
| MemberIndex.SeededKeepsNonEmpty | src/storage.py:70-72 | seeding a counter that already holds a name is a no-op |
| MemberIndex.SeededCounts | src/storage.py:73-83 | seeding an empty counter sets each name's count to its number of trimmed, non-blank occurrences |
| MemberIndex.SeedTwice | src/storage.py:68-83 | seeding twice from the same catalog is the same as seeding once |
| Audit.AuditLog.EnsureAudit | src/audit.py:6-14 | an absent log becomes an empty sheet; an existing one is untouched |
| Audit.AuditLog.ReadAudit | src/audit.py:16-25 | an absent log is created empty; an unreadable log reads as no entries rather than failing |
| Audit.Subject | src/audit.py:32-33 | the id and name come from `after` when it is truthy, else from `before`, else from an empty dict |
| Audit.OrEmpty | src/audit.py:46-47 | a snapshot is empty exactly when the argument is falsy |
| Audit.ChangedFields | src/audit.py:34-37 | no changed field unless both snapshots are non-empty; every changed field is a key of one of them |
| Audit.ChangedFieldsExactly | src/audit.py:36-37 | a key is changed exactly when it is on either side and its renderings differ |
| Audit.NoChangesWithoutBothSides | src/audit.py:35 | adds and deletes record no changed field |
| Audit.MissingKeyMatchesNone | src/audit.py:37 | a key on one side only is unchanged when its value renders as "None" |
| Audit.ChangedFieldsSymmetric | src/audit.py:36-37 | swapping the sides does not change the changed fields |
| Audit.ChangedFieldsOfSame | src/audit.py:34-37 | a record compared with itself has no changed field |
| Audit.SingleFieldUpdate | src/audit.py:34-37 | updating one field to a differently rendered value records exactly that field |
| Audit.UserLabel | src/audit.py:41 | a falsy user is recorded as "-" and any other user as given |
| Audit.ChangedOfEntry | src/audit.py:45-47 | the stored snapshots give back exactly the changed fields computed when the entry was made |
| Audit.Extended | src/audit.py:50 | appending entries keeps the earlier ones in order and adds the new ones last |
| Audit.ExtendedStep | src/audit.py:50 | appending one more entry extends the log by that entry |
| Audit.AuditLog.Append | src/audit.py:27-52 | the log becomes its readable earlier entries, in order, followed by exactly one new entry |
| Importer.FirstMatchIsFirst | src/importer.py:68-74 | the search yields a header containing a synonym, with no earlier header containing any; or `None` when no header contains one |
| Importer.Find | src/importer.py:68-74 | the nested header-then-synonym loop returns the first matching header |
| Importer.GuessedColumnsDistinct | src/importer.py:76-92 | the twelve guesses target twelve different canonical columns |
| Importer.EveryTargetGuessed | src/importer.py:76-92 | every canonical column is guessed |
| Importer.GuessMapping | src/importer.py:65-93 | the mapping's keys are exactly the twelve target columns, each mapped to the first header matching its synonyms, or `None` |
| Importer.HeaderOrderWins | src/importer.py:69-73 | for the headers "担当者氏名", "会員氏名", the member column is guessed to be the first, through the weaker synonym |
| Importer.Targets | src/importer.py:99 | the targets are the mapping's keys, in order |
| Importer.SourceOf | src/importer.py:107 | `mapping.get` is `None` for a target the mapping lacks |
| Importer.SourceOfAt | src/importer.py:99-100 | with distinct targets, each target's lookup gives its own source |
| Importer.Reindexed | src/importer.py:100 | a frame without rows that takes the sheet's index keeps its columns, with `NaN` in every cell of the new rows |
| Importer.Project | src/importer.py:98-100 | one column per target, in mapping order; the sheet's rows once some source exists, none otherwise; each cell is the source cell, or null when the source column is absent |
| Importer.FirstStyleIsFirst | src/importer.py:108-114 | the style is a listed, marked style column with no listed column before it marked; or `None` when none is marked |
| Importer.PickStyle | src/importer.py:108-114 | the loop returns the first listed style column the row has and has set |
| Importer.StyleCategories | src/importer.py:115 | one category per uploaded row, each that row's first marked style column |
| Importer.Quantities | src/importer.py:103 | every quantity becomes an integer: the number read, or 0 for missing or unreadable |
| Importer.Stamps | src/importer.py:104 | every `updated_at` becomes a timestamp: the date read, or `now` for missing or unreadable |
| Importer.Coercions | src/importer.py:103-104 | the coercions keep the columns and the row count |
| Importer.CoercionsFollowSource | src/importer.py:100-104 | a null projected cell is coerced as the missing source cell it stands for |
| Importer.CoercionsKeep | src/importer.py:103-104 | the coercions leave every other column as projected |
| Importer.CoercionsSet | src/importer.py:103-104 | each row's `quantity` and `updated_at` are coerced from that row's source cells |
| Importer.NormalizedWithoutFallback | src/importer.py:98-104 | with `category` mapped, the coerced projection is the normalised sheet |
| Importer.Filled | src/importer.py:115 | assigning the category column gives a frame without rows the sheet's rows, keeping its columns |
| Importer.WithStylesShape | src/importer.py:115 | after the fallback, the frame has the output columns, one row per uploaded row, and the picked styles as `category` |
| Importer.WithStylesKeeps | src/importer.py:100-115 | after the fallback, a copied column still agrees with its source |
| Importer.WithStylesSets | src/importer.py:103-115 | after the fallback, `quantity` and `updated_at` are coerced from the source, or `NaN` when no mapped column existed |
| Importer.NormalizedWithFallback | src/importer.py:106-115 | with `category` unmapped, the sheet with the picked styles is the normalised sheet |
| Importer.NormalizeUpload | src/importer.py:96-117 | fails with the missing key exactly when `quantity` or `updated_at` is not mapped; otherwise the result satisfies `Normalized` |
| Strings.Strip | src/view_main.py:18 | no whitespace at either end; empty exactly when the input is all whitespace; text without outer whitespace is unchanged; every non-whitespace character is kept, in order |
| Strings.StripIdempotent | src/view_main.py:18 | stripping twice is stripping once |
| Strings.TrimLeftShape | src/view_main.py:18 | `lstrip` removes exactly a whitespace prefix |
| Strings.TrimRightShape | src/view_main.py:18 | `rstrip` removes exactly a whitespace suffix |
| Strings.CollapseSpaces | src/view_main.py:19 | the result has only plain spaces and no two adjacent, and is empty exactly when the input is; an end is whitespace exactly when it was before |
| Strings.CollapseSpacesKeepsText | src/view_main.py:19 | collapsing keeps every non-whitespace character, in order |
| Strings.CollapseSpacesSplits | src/view_main.py:19 | a whitespace run between two words becomes exactly one space, with each side collapsed on its own |
| Strings.CollapseSpacesFixed | src/view_main.py:19 | text already collapsed is unchanged |
| Strings.LeadingDigits | src/view_main.py:71 | the longest prefix of `\d` digits, ASCII or full-width |
| Strings.FirstDigitRun | src/view_main.py:71 | `re.search(r"\d+")` finds a non-empty run of digits, ASCII or full-width, exactly when the text has one |
| Strings.FirstDigitRunSkipsPrefix | src/view_main.py:195 | a digit-free prefix does not change the first digit run |
| Strings.FirstDigitRunIgnoresSuffix | src/view_main.py:195 | a digit-free suffix does not change the first digit run |
| Strings.StripKeepsFirstDigitRun | src/view_main.py:192-195 | stripping never changes the first digit run |
| Strings.NatToString | src/view_main.py:196 | `str(n)` is digits, with a leading zero only for 0 |
| Strings.DecimalValueOfNatToString | src/view_main.py:196 | reading `str(n)` back gives n |
| Strings.TruncatedDecimal | src/view_main.py:50 | `int(float(s))` reads plain digit strings as their value, and succeeds only on text with a digit |
| Strings.LowerKeeps | src/importer.py:70-72 | lowering text without ASCII capitals changes nothing |
| Strings.StrLeTotal | src/storage.py:65 | Python's string `<=` is total |
| Strings.StrLeAntisymmetric | src/storage.py:65 | Python's string `<=` is antisymmetric |
| Strings.StrLeTransitive | src/storage.py:65 | Python's string `<=` is transitive |
| Values.NumberOrZero | src/importer.py:103 | null, timestamps, unreadable text and text with a full-width digit give 0; integers stay; ASCII digit text gives its value |
| Values.StampOrNow | src/importer.py:104 | always a timestamp: the parsed date, or `now` for null or unparsable values |
| Values.StampOrNowStable | src/storage.py:27 | coercing an already coerced value changes nothing, whatever `now` is then |
| Tables.WithColumn | src/importer.py:100 | `out[c] = vs` sets column c to vs, appending c if new, and leaves every other cell |
| Tables.Select | src/storage.py:22 | `df[cols]` has exactly those columns, the same rows and the same cells |
| MainView.WidthFoldIsFolding | src/view_main.py:17 | the full-width folding meets what the model demands of NFKC |
| MainView.NormalizeMemberName | src/view_main.py:14-20 | empty text stays empty; otherwise no outer whitespace, only plain single spaces, and the folded name's non-whitespace characters in order |
| MainView.NormalizeMemberNameEmpty | src/view_main.py:14-20 | a name normalises to nothing exactly when it is all whitespace |
| MainView.NormalizeMemberNameIdempotent | src/view_main.py:14-20 | normalising twice is normalising once |
| MainView.LabelOfTextPending | src/view_main.py:44-53 | text is labelled pending exactly when it is blank, "nan", "None" or the pending label |
| MainView.MeetingLabelPending | src/view_main.py:43-53 | a meeting cell shows as pending exactly when its trimmed text is blank, "nan", "None" or the pending label |
| MainView.LabelOfDigits | src/view_main.py:49-51 | a number written in digits is labelled "第n回" |
| MainView.MeetingLabelOfNumber | src/view_main.py:43-51 | a stored meeting number shows as its ordinal label |
| MainView.LabelOfOrdinal | src/view_main.py:47-48 | an ordinal label is its own label |
| MainView.LabelOfPending | src/view_main.py:44-46 | the pending label is its own label |
| MainView.MeetingLabelIdempotent | src/view_main.py:43-53 | labelling a label gives it back |
| MainView.PendingSortsFirst | src/view_main.py:68-70 | the pending label sorts before every other label |
| MainView.OrdinalSortKey | src/view_main.py:71-73 | the key of "第n回" is (1, n) |
| MainView.OrdinalsSortByNumber | src/view_main.py:68-73 | ordinal labels sort by their numbers, not as text |
| MainView.UnnumberedSortLast | src/view_main.py:71-73 | a label without digits sorts after every numbered label below the sentinel |
| MainView.NormalizeMeeting | src/view_main.py:189-196 | `None` exactly when clearing, or when the input is blank or has no digit, ASCII or full-width; otherwise a canonical ASCII decimal with the first digit run's value |
| MainView.NormalizeMeetingIdempotent | src/view_main.py:189-196 | normalising a normalised meeting number gives it back |
| MainView.FullWidthMeetingNumber | src/view_main.py:189-196 | a full-width meeting number is stored in ASCII digits, and a label with full-width digits sorts by their value |
| MainView.AssignedMeetingDisplay | src/view_main.py:189-196 | a stored meeting number shows as its ordinal and sorts by its value |
| MainView.RatioTextIsDecimalLiteral | src/view_main.py:434 | the greedy matcher accepts exactly ASCII digits with an optional dot and ASCII digits |
| MainView.Tidied | src/view_main.py:420-426 | the brand and ratio are trimmed, and the member name is already stripped |
| MainView.TidiedIsStripped | src/view_main.py:420-426 | every tidied field is stripped, so the second strip before storing changes nothing |
| MainView.EntryErrors | src/view_main.py:429-437 | a ratio is refused exactly when it is non-blank and not ASCII digits with an optional decimal part |
| MainView.MissingRequiredIffBlank | src/view_main.py:429-431 | a submission lacks a required field exactly when the member name or brand is all whitespace |
| MainViewRecords.MaxId | src/view_main.py:444 | the maximum id read as a number, unreadable ones as 0, is attained and bounds every id |
| MainViewRecords.NextIdAsWritten | src/view_main.py:444 | the code gives an id exactly when the catalog has rows |
| MainViewRecords.NextIdFailsOnEmptyCatalog | src/view_main.py:444 | on the empty canonical catalog the code gives no id |
| MainViewRecords.NextId | src/view_main.py:444 | 1 for an empty catalog; otherwise one more than the largest id, so above every id |
| MainViewRecords.NextIdAgrees | src/view_main.py:444 | where the code gives an id, it is the corrected one |
| MainViewRecords.NextIdIsFresh | src/view_main.py:444 | the new id is taken by no record |
| MainViewRecords.Appended | src/view_main.py:462 | the concatenated table keeps the columns and has one more row |
| MainViewRecords.AppendedRows | src/view_main.py:462 | earlier rows are unchanged and the last row holds the record, `NaN` where it lacks a column |
| MainViewRecords.NewRecordColumns | src/view_main.py:446-460 | the new record has only catalog columns |
| MainViewRecords.NewRecordCells | src/view_main.py:446-460 | the record carries the new id, the brand, the member name, the pending meeting and `now` |
| MainViewRecords.NewRecordIsPending | src/view_main.py:457-458 | a new record shows in the pending group |
| MainViewRecords.StoreRecord | src/view_main.py:443-463 | the workbook holds the loaded catalog with the record appended under the next id, saved |
| MainViewRecords.Register | src/view_main.py:443-467 | the record is stored, the member's count rises by one and exactly one "add" entry with the record is appended |
| MainViewRecords.Submit | src/view_main.py:416-467 | a submission with an error is refused with the errors and nothing written; otherwise the tidied form is registered |
| MainViewRecords.ClearedMeetingIsPending | src/view_main.py:190-191 | a cleared meeting shows as pending |
| MainViewRecords.AssignMeeting | src/view_main.py:202 | the chosen rows take the value as their meeting; every other cell stays |
| MainViewRecords.AssignedRecordsDisplay | src/view_main.py:189-202 | after assignment every chosen record shows the ordinal of the typed number, or pending |
| MainViewRecords.MeetingUpdateChangedFields | src/view_main.py:206-214 | an audited meeting update names no field but the meeting and the update time |
| MainViewRecords.AssignThenSaveChangesOnlyMeeting | src/view_main.py:202-205 | assigning and saving changes no cell of a row except its meeting and update time |
| MainViewRecords.FirstWithId | src/view_main.py:208 | the found row is the first with the id, or `None` when no row has it |
| MainViewRecords.FirstWithIdFindsRow | src/view_main.py:206-208 | with unique ids, the row found by id is the row at the same position |
| MainViewRecords.FoundCount | src/view_main.py:206-208 | the loop stops at the first snapshot whose id finds no saved row |
| MainViewRecords.UpdateRows | src/view_main.py:206-214 | one entry per snapshot, pairing it with its saved row |
| MainViewRecords.UpdateRowsStep | src/view_main.py:206-214 | each loop step adds one entry at the end |
| MainViewRecords.UpdateEntriesComplete | src/view_main.py:206-214 | with unique ids, every chosen row is logged with the saved row at its position |
| MainViewRecords.UpdateAuditsEveryChosenRow | src/view_main.py:199-214 | on a catalog with unique ids, the meeting update audits every chosen row |
| MainViewRecords.Picked | src/view_main.py:199 | `df.loc[chosen]` gives the chosen rows in the order chosen |
| MainViewRecords.AuditUpdates | src/view_main.py:206-214 | the log is extended by the update entries, and the loop reports whether every snapshot was found |
| MainViewRecords.UpdateMeetings | src/view_main.py:184-216 | nothing is written when no row is chosen or a chosen row does not exist; otherwise the assigned catalog is saved and the update entries are appended |
| MainViewRecords.Unchosen | src/view_main.py:317 | the kept rows are all unchosen |
| MainViewRecords.UnchosenCounts | src/view_main.py:317 | the kept rows are exactly the unchosen rows, with their multiplicities |
| MainViewRecords.Chosen | src/view_main.py:314 | the deleted rows are all chosen |
| MainViewRecords.ChosenCounts | src/view_main.py:314 | the deleted rows are exactly the chosen rows, with their multiplicities |
| MainViewRecords.UnchosenAppend | src/view_main.py:317 | filtering distributes over concatenation, so the kept rows keep their order |
| MainViewRecords.DeletePartition | src/view_main.py:314-317 | every row is either kept or deleted; deleting nothing keeps every row |
| MainViewRecords.UnchosenWellFormed | src/view_main.py:317 | the kept rows form a well-formed table with the same columns |
| MainViewRecords.DeleteEntries | src/view_main.py:321-327 | one "delete" entry per deleted row, with no changed field |
| MainViewRecords.AuditDeletes | src/view_main.py:321-327 | the log is extended by the delete entries, in table order |
| MainViewRecords.Loaded | src/view_main.py:233 | the page's catalog is canonical |
| MainViewRecords.KeptCatalog | src/view_main.py:317 | the catalog left after deletion is well formed, with the target columns |
| MainViewRecords.DeleteRecords | src/view_main.py:310-327 | without a choice or the DELETE confirmation nothing is written; otherwise the remaining rows are saved in order and each deleted row is audited |

## Left out

- The Streamlit page itself, with its widgets, tabs, filters, caching and reruns. The model takes the values the widgets would yield as parameters.
- The Excel and JSON files. Each file is a field of its class: `CatalogStore.file`, `AuditLog.file` and `MemberHistory.counts`. The read-back effects modelled are `None` and the texts `read_excel` treats as missing by default (the empty text, "NA", "N/A", "None", "nan", "null" and the rest of pandas' list) becoming `NaN`. Type changes by openpyxl, such as integers read back as floats, are not modelled.
- A catalog file that cannot be read makes `load_items` raise. The stored sheet is always readable in this model.
- `datetime.now()` is the parameter `now`, and `pd.to_datetime` is the parameter `parse`.
- The NFKC folding is a per-character parameter `fold`. `IsFolding` states what the proofs need of it, and `WidthFold` is one instance. Multi-character decompositions are not modelled.
- `str.lower()` folds only ASCII letters.
- Numeric parsing covers only a decimal subset: an optional sign, digits, and an optional fraction. This applies to `float()` in `meeting_label` and to `pd.to_numeric` for quantities and ids. Exponents, "inf" and "nan" strings and underscores are not modelled. Full-width digits are read by `\d`, `int()` and `float()`, and refused by `pd.to_numeric`, which reads ASCII digits only.
- Strings.IsDigit: a digit is an ASCII or a full-width digit. The decimal digits of other Unicode scripts, which `\d`, `int()` and `float()` also accept, are not modelled.
- Strings.TruncatedDecimal: reads the decimal exactly. `int(float(s))` rounds through a 64-bit float, so for numbers above 2^53 the source can give a neighbouring integer.
- Importer.PickStyle: an uploaded 0/1 flag column with blank cells reads back as floats, so an unset flag is the text "0.0", which is not in the unset list and counts as set in the source. The model takes cells as typed and does not model that float read-back.
- MainViewRecords.StoreRecord: takes its id from the corrected `NextId`, so on an empty catalog it stores the record under id 1 where the source raises `ValueError` (see Findings).
- MainViewRecords.Register: stores through `StoreRecord`, so on an empty catalog it registers under id 1 where the source raises before writing anything.
- MainViewRecords.Submit: registers through `Register`, so on an empty catalog an error-free submission is stored under id 1 where the source raises before writing anything.
- `.astype(int)` has no 64-bit overflow in this model, because integers are unbounded.
- Importer.GuessMapping: the twelve straight-line `find` calls are written as one loop over the table `Guesses`. It makes the same searches in the same order and gives the same result.
- The `changed_fields`, `before_json` and `after_json` texts are not modelled as strings. An entry keeps both snapshots as records, and its changed fields are the function `Changed` of them. The order in which `", ".join` lists a Python set is not modelled.
- The member names given to `sort_members_by_frequency` are strings. Non-string list elements are not modelled.
- The manual-save audit call at src/view_main.py:225 is not modelled. It passes a string where a record is expected, and is presentation glue.
- `fmt_seimai` is not part of this model, because it relies on floating-point formatting.
- `src/auth.py` is not part of this model.
- `src/config.py` is not modelled as a file. Its constants appear in `Config`.
- Concurrent writers are not modelled.
- MainViewRecords.UpdateMeetings: chosen rows are row positions of the loaded catalog, which has a fresh 0-based index. A position outside the catalog is an error before anything is written, where pandas would raise `KeyError`. When a saved row cannot be found again by its id, `.iloc[0]` would raise `IndexError`. The model instead stops auditing at that row, having kept the entries written so far, and reports `RowNotFound`.

## Findings

| source | as written | input that shows it | evidently intended | confidence | as-written member | corrected member |
|---|---|---|---|---|---|---|
| src/view_main.py:444 | `int(...fillna(0).max()) + 1` takes the maximum of an empty series, which is `NaN`, and `int(NaN)` raises `ValueError` | registering the first record into a fresh catalog, whose sheet has the target columns and no rows | the first record gets id 1, as the fill with 0 suggests | not executed | MainViewRecords.NextIdAsWritten, MainViewRecords.NextIdFailsOnEmptyCatalog | MainViewRecords.NextId, MainViewRecords.NextIdIsFresh |

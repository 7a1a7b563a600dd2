# Reconciliation core of the commission back end, in Dafny

The back end (`backend/server.py`) takes carrier statements as spreadsheets. It turns each
row into a record keyed by the carrier's standard field names. It checks every new record
against the records already staged for the same carrier. When they disagree it opens
conflict documents, and it carries records through review (validate, reject, resolve a
conflict), payout generation, export and upload deletion. This project models that core
and proves what it does.

Modules, in dependency order:

- `Values` (values.dfy): the cell values a row carries (Python `None`, `str`, `int`,
  `bool`) and the parts of Python's `str` the code relies on: `str(v)`, truthiness,
  `strip()`, ASCII `lower()`, `startswith("_")`.
- `Dicts` (dicts.dfy): insertion-ordered Python dicts as association lists.
- `FieldMapping` (mapping.dfy): `apply_field_mappings`.
- `Records` (records.dfy): the stored documents (uploads, extracted records, conflicts,
  payouts) and the carrier configuration.
- `Detection` (detection.dfy): `detect_conflicts`. It covers the Mongo `find_one` query
  and the field-by-field comparison.
- `Lifecycle` (lifecycle.dfy): the whole store as one value. Its functions specify the
  `create_upload` row loop, `validate_record`, `reject_record`, `resolve_conflict`, the
  status part of `generate_payouts`, and the `delete_upload` cascade.
- `LifecycleProps` (lifecycle_props.dfy): what those handlers promise, proved of the
  `Lifecycle` functions.
- `Server` (server.dfy): the class `Store`, whose sequence fields are the collections. Its
  methods carry out each handler step by step, as the handlers do. Each method is proved
  to have the effect of the matching `Lifecycle` function and to keep the store
  consistent.
- `Sheets` (sheets.dfy): the header-row and data-row selection of `extract_excel_data`,
  and the preview's `suggested_header_row`.
- `Export` (export.dfy): `export_approved_data`. It covers the column set and the JSON
  and CSV rows.
- `Reasons` (reasons.dfy): `_get_conflict_reason`.
- `CustomFields` (custom_fields.dfy): `create_custom_field`, with its name normalisation
  and its duplicate check.

Conventions:

- Generated UUIDs are natural numbers drawn from a counter (`nextId`).
- A collection is a sequence in insertion order. `find_one` and `update_one` act on the
  first document that matches.
- Mongo equality is typed: the int 5 does not equal the string "5". A query for None also
  matches a document that lacks the field.
- Key field names are taken to contain no `.`. The query on `mapped_data.<key>` reads a
  dot as a path into nested documents, and the model reads the key as one flat name. A
  carrier may be configured with a dotted key name; for such a key the model's matching
  differs from Mongo's. A flat stored key `"policy.no"` then never matches, and a None value
  for it matches every staged record of the carrier.

Where the code and the design documentation disagree, the model follows the code:

- A key field matches on an OR over the key fields present in the new data (`$or`), not
  on the whole key tuple.
- An empty key list, or a row with none of the key fields, matches the first staged
  record of the carrier. Such rows are reported as conflicts; they are not treated as new.
- Only records with status validated or pending are match targets. A record in conflict
  is not one.
- When several records match, the first stored one is used, not the latest.
- Values are compared only for fields of the new data that are non-null on both sides.
- A duplicate conflict names the field `"record"`; it is not null.
- Rejection checks neither the record's existence nor its state.
- Validation checks no state either: any record with the id becomes validated, and every
  conflict of it is resolved whatever its state (`LifecycleProps.ValidateEffect`).
- Resolution has no state check, so a conflict can be resolved twice.
- Rejection is not final. Resolving one of a rejected record's conflicts leaves none of
  them pending, and the record is set back to pending, so later uploads match it again
  (`LifecycleProps.ResolveRevivesRejected`).
- Payout generation is not all-or-nothing. A validated record whose amount `float()`
  rejects ends the request with an error. That is a string that is not a float literal
  (such as "$1,200"), or an int of magnitude 2^1024 - 2^970 or more, which overflows a
  double. Payouts already created for earlier ids, and their processed status, stay
  (`LifecycleProps.PayoutPartialCommit`).
- Header detection in the extraction counts cells that are not None and whose text is
  not blank. The preview counts truthy cells. The two rules differ
  (`Sheets.PreviewAndExtractionDisagree`).

## Model

| member | source | states |
|---|---|---|
| `Values.IntToStringInjective` | backend/server.py:583 | `str` is one-to-one on ints: two ints print alike only when they are equal, so two ints are reported as a mismatch exactly when they differ |
| `Values.Strip` | backend/server.py:444 | `strip()` is `s` with its leading and trailing whitespace removed: the result stands in `s` with only whitespace before and after it, and unless it is empty it neither starts nor ends with whitespace; it is empty exactly when every character is whitespace |
| `Values.Lower` | backend/server.py:551 | `lower()` keeps the length, turns each ASCII capital into its lower-case letter, and leaves every other character as it is |
| `Dicts.Get` | backend/server.py:581 | `d.get(k)` finds a value exactly when the key is present, and that value is the one of the first entry with the key |
| `Dicts.ValueOr` | backend/server.py:581 | a present key reads as the value of its first entry; a missing key reads as None |
| `Dicts.Put` | backend/server.py:547 | after `d[k] = v`, `k` reads `v` and every other key reads as before; the key set gains `k`; an existing key has its first entry replaced where it stands, with nothing else moved, and a new key is appended; distinct keys stay distinct |
| `Dicts.Remove` | backend/server.py:556 | dropping a key leaves every other key's value and keeps keys distinct |
| `FieldMapping.FirstCaseInsensitive` | backend/server.py:549-553 | None exactly when no key of the row equals the column ignoring case; otherwise the value of the first such key |
| `FieldMapping.Lookup` | backend/server.py:545-553 | a mapping entry finds a value exactly when some key equals its column ignoring case; it takes the exact-name key's value when there is one, and otherwise the value of the first key equal to the column ignoring case |
| `FieldMapping.MapInto` | backend/server.py:544-553 | the mapping loop keeps the keys of the mapped dict distinct |
| `FieldMapping.MapIntoGet` | backend/server.py:544-553 | after the loop, each standard field holds the value of the last entry that targets it and finds its column, and otherwise what it held before |
| `FieldMapping.ApplyFieldMappings` | backend/server.py:541-557 | the mapped data is well formed; `"_raw"` holds the raw row whatever the mappings say; every other field holds exactly the last matching entry's value, and is absent when no entry matches |
| `FieldMapping.LastMatchSource` | backend/server.py:544-553 | a mapped value always comes from an entry that targets the field and whose column the row has |
| `FieldMapping.MappedEntry` | backend/server.py:544-556 | for an entry with no later entry for the same field, the field holds the row's value of that column (the exact name first, else the first case-insensitive match) |
| `FieldMapping.MappedKeysHaveSource` | backend/server.py:544-553 | a mapped key exists only if some entry targets it and finds its column ignoring case; the key is never `"_raw"` |
| `Records.ConflictFor` | backend/server.py:688-700 | the conflict document of a finding has the given id, is pending with no resolution, belongs to the new record and upload, names the existing record and the finding's field, is a mismatch exactly when the finding is one, and carries the finding's stored and new values (None for both in a duplicate) |
| `Detection.FindMatch` | backend/server.py:563-574 | `find_one` returns the first stored record that meets the query (same carrier, validated or pending, and an agreeing present key field), and None exactly when none does |
| `Detection.Mismatches` | backend/server.py:577-590 | every reported mismatch is a non-internal field of the new data whose stored and new values are both non-null and print differently; every such field is reported; with distinct keys, no field is reported twice |
| `Detection.Detect` | backend/server.py:559-600 | no findings exactly when no stored record matches; findings are either all mismatches or a single duplicate; none names `"_raw"` or an internal field |
| `Detection.MismatchesExact` | backend/server.py:577-590 | over new data with distinct keys, a field is reported exactly when it differs |
| `Detection.DetectAgainstMatch` | backend/server.py:576-598 | when there are findings, all of them refer to the first matching record; a field is reported exactly when it differs; no field twice; and the result is a single duplicate exactly when no field differs |
| `Detection.OnlyStagedRecordsMatch` | backend/server.py:564 | records in conflict, rejected or processed are never match targets |
| `Detection.EmptyKeyListMatchesAnyStaged` | backend/server.py:565-574 | with an empty key list, any staged record of the carrier makes the new row a conflict |
| `Detection.OneAgreeingKeySuffices` | backend/server.py:567-572 | for a pending or validated record of the carrier, one agreeing key field is enough to match, however much the others differ |
| `Lifecycle.RecordIndex` | backend/server.py:850 | finds the first record with the id, and None exactly when there is none |
| `Lifecycle.ConflictIndex` | backend/server.py:1043 | finds a conflict with the id, and None exactly when there is none |
| `Lifecycle.UploadIndex` | backend/server.py:746 | finds an upload with the id, and None exactly when there is none |
| `Lifecycle.CarrierIndex` | backend/server.py:613 | finds a carrier with the id, and None exactly when there is none |
| `Lifecycle.OpenCountZero` | backend/server.py:1074-1077 | the count of a record's pending conflicts is zero exactly when none of its conflicts is pending |
| `Lifecycle.NewConflicts` | backend/server.py:688-701 | one pending conflict per finding, in order, each of the new record and the upload, naming its finding's field and existing record; their ids are distinct, increasing, and drawn from `firstId` up to `firstId` plus the number of findings, so they are fresh when `firstId` is |
| `Lifecycle.IngestAllFrame` | backend/server.py:664-703 | the row loop appends one record per row and keeps what was stored before; it leaves carriers, uploads and payouts alone and only draws new ids |
| `Lifecycle.IngestAllRows` | backend/server.py:664-703 | row k becomes record k, with its mapped data, its findings against every record stored before it (earlier rows of the same file included), and status conflict exactly when it has findings |
| `Lifecycle.IngestAllRow` | backend/server.py:666-703 | the same for one row k of the loop |
| `Lifecycle.IngestRowOutcome` | backend/server.py:667-703 | one row's record is detected against exactly the records stored before it |
| `Lifecycle.IngestAllConflicts` | backend/server.py:682-701 | the conflict documents the loop appends number exactly the findings of the new records |
| `Lifecycle.IngestAllOpen` | backend/server.py:688-701 | every appended conflict document is pending and belongs to the upload |
| `Lifecycle.IngestRowConflicts` | backend/server.py:680-703 | one row appends one record, and one pending conflict of the upload per finding after the stored ones |
| `Lifecycle.IngestAllConsistent` | backend/server.py:664-703 | the loop keeps the store consistent: fresh distinct record ids, well-formed mapped data, and no conflict on `"_raw"` |
| `Lifecycle.IngestRowConsistent` | backend/server.py:667-703 | one row keeps the store consistent and draws at least one id |
| `Lifecycle.ValidatedIndex` | backend/server.py:1100 | finds a record with the id that is validated, and None exactly when there is none |
| `Lifecycle.KeepRecords` | backend/server.py:754 | exactly the records of other uploads remain |
| `Lifecycle.KeepConflicts` | backend/server.py:751 | exactly the conflicts of other uploads remain |
| `LifecycleProps.SetStatusEffect` | backend/server.py:869-872 | `update_one` by id sets the status of the first record with the id and changes nothing else |
| `LifecycleProps.MarkConflictsEffect` | backend/server.py:860-863 | `update_many` by record id sets the status of every conflict of the record and of no other |
| `LifecycleProps.CreateUploadEffect` | backend/server.py:629-719 | an upload stores one completed upload under a fresh id, with the row count as total and processed records and the number of findings as conflict count; one record per row; and only pending conflicts of this upload |
| `LifecycleProps.CreateUploadConsistent` | backend/server.py:622-703 | an upload keeps the store consistent, and its id is new |
| `LifecycleProps.CreateUploadRows` | backend/server.py:664-703 | each row becomes the record detected against everything stored before it, under the new upload's id |
| `LifecycleProps.ValidateEffect` | backend/server.py:848-865 | validation fails exactly when no record has the id; otherwise the record becomes validated, every conflict of it is resolved whatever its state, none stays pending, and nothing else changes |
| `LifecycleProps.ValidateConsistent` | backend/server.py:848-865 | validation keeps the store consistent |
| `LifecycleProps.RejectEffect` | backend/server.py:867-879 | rejection sets the first record with the id to rejected and every conflict of that record to rejected (`Dismissed`), so none stays pending; nothing else changes; rejecting twice is the same as rejecting once |
| `LifecycleProps.RejectConsistent` | backend/server.py:867-879 | rejection keeps the store consistent |
| `LifecycleProps.RejectedNeverMatched` | backend/server.py:564-574 | right after rejection, the record is not the match target of an upload |
| `LifecycleProps.ResolveRevivesRejected` | backend/server.py:1037-1083 | rejection is not final: resolving one of a rejected record's dismissed conflicts leaves none of its conflicts pending, so the record is pending again and is again matched by an upload |
| `LifecycleProps.ResolveEffect` | backend/server.py:1043-1051 | resolution fails exactly when no conflict has the id; otherwise that conflict is resolved with the given resolution whatever its state, and no other conflict, upload or payout changes |
| `LifecycleProps.ResolveRecords` | backend/server.py:1053-1083 | only the conflict's record changes; values change only through "accept_new" or "manual" with a value; the record is pending again exactly when none of its conflicts is still pending, and otherwise keeps its status |
| `LifecycleProps.ResolutionWriteEffect` | backend/server.py:1053-1071 | the write of a resolution touches only the conflict's record, keeps ids and statuses, and writes nothing for any other resolution |
| `LifecycleProps.ResolutionWriteWellFormed` | backend/server.py:1056-1067 | writing a field that is not `"_raw"` keeps the mapped data well formed |
| `LifecycleProps.WriteFieldEffect` | backend/server.py:1055-1062 | writing a field changes only the mapped data of the first record with the id, and only when the field name is non-empty; that field then holds the value |
| `LifecycleProps.ResolveAcceptNew` | backend/server.py:1054-1062 | "accept_new" puts the conflict's new value in the field and leaves the record's other fields and raw row as they were; a duplicate thus writes None under "record" |
| `LifecycleProps.ResolveManual` | backend/server.py:1063-1071 | "manual" with a value writes that value; "manual" without one changes no value |
| `LifecycleProps.ResolveAgain` | backend/server.py:1043-1051 | a resolved conflict can be resolved again, and the second resolution replaces the first |
| `LifecycleProps.ResolveConsistent` | backend/server.py:1037-1085 | resolution keeps the store consistent |
| `LifecycleProps.PayoutStepEffect` | backend/server.py:1099-1147 | one id whose amount converts: at most one payout, for the id and the carrier of a record with it; records only move from validated to processed; afterwards no record with the id is validated; conflicts and uploads do not change |
| `LifecycleProps.PayoutAllEffect` | backend/server.py:1099-1147 | whether the run completes or stops with an error, payout generation only moves records from validated to processed and keeps every other part of them; it only appends payouts, each for one of the ids and the carrier of a record with that id; conflicts and uploads do not change |
| `LifecycleProps.PayoutAllClears` | backend/server.py:1099-1147 | a run that completes leaves no record with one of the ids validated |
| `LifecycleProps.PayoutAbortStops` | backend/server.py:1099-1113 | a run that ends in an error stopped at an id whose validated record's amount does not convert; the ids before it completed, and the store is as they left it |
| `LifecycleProps.PayoutAbortEffect` | backend/server.py:1099-1147 | after an error, the ids before the stop keep their payouts and have no validated record, the record at the stop stays validated with its amount that does not convert, and no later id was looked at |
| `LifecycleProps.PayoutPrefix` | backend/server.py:1099-1113 | once the run has stopped with an error, later ids change nothing |
| `LifecycleProps.DollarAmountDoesNotConvert` | backend/server.py:1113 | `float("$1,200")` raises: a currency string is not a float literal |
| `LifecycleProps.PayoutPartialCommit` | backend/server.py:1099-1147 | for ids 1 and 2, where record 1 has amount 100 and record 2 amount "$1,200", the request fails after paying record 1: its payout and processed status stay, and record 2 stays validated without a payout |
| `LifecycleProps.PayoutSkipsUnvalidated` | backend/server.py:1100-1102 | an id with no validated record creates nothing, changes nothing, and cannot make the request fail |
| `LifecycleProps.PayoutAllNoop` | backend/server.py:1099-1102 | ids none of which has a validated record complete without error and change nothing |
| `LifecycleProps.PayoutIdempotent` | backend/server.py:1099-1147 | generating payouts twice for the same ids creates nothing the second time; a run that failed at an amount fails again at the same id with nothing new written |
| `LifecycleProps.PayoutConsistent` | backend/server.py:1099-1147 | payout generation keeps the store consistent, whether it completes or stops with an error |
| `LifecycleProps.KeepRecordsCount` | backend/server.py:754 | the records kept and the records of the upload together are all the records |
| `LifecycleProps.DeleteUploadConsistent` | backend/server.py:750-757 | deletion keeps the store consistent |
| `LifecycleProps.DeleteUploadEffect` | backend/server.py:743-770 | deletion fails exactly when no upload has the id; otherwise no record or conflict of the upload remains, every other one does, the upload is gone, and the count is the number of records the upload had |
| `Server.Store.CreateUpload` | backend/server.py:606-719 | None with no change for an unknown carrier; otherwise the store becomes the specified upload result and stays consistent |
| `Server.Store.StoreRows` | backend/server.py:664-704 | the row loop, run in place, gives the specified result and counts the findings |
| `Server.Store.StoreRow` | backend/server.py:666-703 | one row, run in place, gives the specified result and returns its number of findings |
| `Server.Store.BuildRecord` | backend/server.py:667-684 | the record document of a row is the one the row loop specifies: the mapped data, the findings of detection against the records stored so far, and status conflict exactly when there are findings |
| `Server.Store.InsertConflicts` | backend/server.py:688-701 | the inner loop appends one conflict per finding with consecutive ids and touches no other collection |
| `Server.Store.ValidateRecord` | backend/server.py:848-865 | not found with no change, or the specified validation; the store stays consistent |
| `Server.Store.RejectRecord` | backend/server.py:867-879 | the specified rejection; the store stays consistent |
| `Server.Store.ResolveConflict` | backend/server.py:1037-1085 | not found with no change, or the specified resolution; the store stays consistent |
| `Server.Store.GeneratePayouts` | backend/server.py:1091-1149 | the specified payout run: it stops with an error at the first validated record whose amount does not convert, keeping what the earlier ids wrote; returns the number of payouts created and whether it failed; the store stays consistent |
| `Server.Store.DeleteUpload` | backend/server.py:743-770 | not found with no change, or the specified cascade with the number of records deleted; the store stays consistent |
| `Sheets.FilledCountIsColumns` | backend/server.py:443-446 | the count of filled cells of a row is exactly the number of its columns, within the window, whose cell passes the chosen test |
| `Sheets.FirstDenseSpec` | backend/server.py:440-450 | the header row is the first row of the window with at least five filled cells, or 1 when there is none |
| `Sheets.ScanForHeader` | backend/server.py:441-450 | the scan loop returns exactly that row |
| `Sheets.CountFilled` | backend/server.py:443-446 | the counting loop returns exactly the number of filled cells |
| `Sheets.ZerosDenseForExtraction` | backend/server.py:444-446 | a row of five zeros is a header row for the extraction, since "0" is not blank |
| `Sheets.ZerosEmptyForPreview` | backend/server.py:803 | the same row counts as empty for the preview, since 0 is falsy |
| `Sheets.PreviewAndExtractionDisagree` | backend/server.py:809-815 | on a sheet of zeros above text, the extraction takes row 1 as the header row and the preview suggests row 2 |
| `Sheets.RowValues` | backend/server.py:462 | entry `c - 1` is the cell in column `c` of the row, for every column up to `max_column` |
| `Sheets.RowDict` | backend/server.py:468-476 | the row dict has exactly the header names as keys, each once |
| `Sheets.RowDictValues` | backend/server.py:468-476 | each header name holds the value of the last column with that name |
| `Sheets.ExtractExcelData` | backend/server.py:432-482 | fails exactly when the header row, or a data row the loop reaches, is below 1; otherwise returns the kept rows from the start row to `max_row`, under the headers of the given or detected header row |
| `Sheets.CollectRows` | backend/server.py:461-481 | the data-row loop returns the kept rows in order |
| `Sheets.KeptRowsShape` | backend/server.py:461-481 | every extracted row has at least three non-null values and exactly the header names as keys, and comes from a data row of the sheet |
| `Sheets.FullRowKept` | backend/server.py:464-481 | a row with no empty cell and distinct headers is never dropped |
| `Sheets.RowDictAllNonNull` | backend/server.py:468-479 | with distinct headers and no None value, every value is counted |
| `Export.LessIrreflexive` | backend/server.py:965 | no string sorts before itself |
| `Export.LessTransitive` | backend/server.py:965 | the string order is transitive |
| `Export.LessTotal` | backend/server.py:965 | two different strings are always ordered |
| `Export.Insert` | backend/server.py:960-965 | adding a field keeps the columns strictly sorted and adds exactly that field |
| `Export.SortedUnique` | backend/server.py:965 | a set has exactly one strictly sorted listing |
| `Export.Approved` | backend/server.py:950-954 | exactly the validated records, of the carrier when one is given |
| `Export.ExportFields` | backend/server.py:959-965 | the columns are strictly sorted and are exactly the non-internal mapped keys of the records |
| `Export.CsvCellMeaning` | backend/server.py:1027-1028 | a CSV cell is empty exactly when the value is missing, None or the empty string, and is otherwise the value's `str` |
| `Export.ExportApproved` | backend/server.py:943-1035 | fails exactly when no record is approved; otherwise one JSON or CSV row per approved record, in order, over the sorted columns |
| `Export.JsonRows` | backend/server.py:967-975 | one JSON row per record, in order |
| `Export.CsvRows` | backend/server.py:1024-1029 | one CSV row per record with one cell per column |
| `Export.JsonRowReadsBack` | backend/server.py:971-973 | reading a JSON row back gives each exported field's stored value and the record id |
| `Reasons.ReasonIdentifiesField` | backend/server.py:931-941 | a mismatch message quotes its field between fixed text, so it identifies the field; a duplicate gets the fixed duplicate message; a stored conflict never gets the generic one |
| `CustomFields.Underscored` | backend/server.py:362 | no space remains, each space becomes an underscore and every other character stays, so a name is unchanged exactly when it has no space |
| `CustomFields.NormalizeFixedPoints` | backend/server.py:362 | a name is its own normalisation exactly when it has no space and no upper-case letter; normalising twice changes nothing |
| `CustomFields.IndexOfName` | backend/server.py:356 | finds a field with the name, and None exactly when there is none |
| `CustomFields.AsWrittenStoresDuplicate` | backend/server.py:355-362 | as written, a request for "My Field" passes the check when "my_field" is stored, and stores it a second time |
| `CustomFields.Create` | backend/server.py:355-368 | with the check on the stored name: fails exactly when the normalised name exists; otherwise appends the field under that name |
| `CustomFields.CreateKeepsNamesDistinct` | backend/server.py:355-368 | the corrected check keeps stored names distinct and normalised |
| `CustomFields.FieldStore.CreateCustomField` | backend/server.py:347-369 | the handler in place, with the corrected check: keeps names distinct, and either fails with no change or stores the specified field under a fresh id |

Some specification functions have no row of their own: `Lifecycle.IngestAll`, `Lifecycle.StoreUpload`, `Lifecycle.Validate`, `Lifecycle.Reject`, `Lifecycle.Resolve`, `Lifecycle.PayoutAll`, `Lifecycle.DeleteUpload`, `Sheets.Headers`, `Sheets.HeaderName`, `Sheets.KeptRows`, `Reasons.Reason` and `CustomFields.CreateAsWritten`. Their meaning is stated by the rows above:
- The `Lifecycle` functions are described by the `Lifecycle.IngestAll*` lemmas, the `LifecycleProps.*Effect`, `*Consistent` and `Payout*` lemmas, and the matching `Server.Store` methods, which are proved equal to them.
- The `Sheets` functions are described by `Sheets.ExtractExcelData`, `Sheets.CollectRows` and `Sheets.KeptRowsShape`.
- `Reasons.Reason` is described by `Reasons.ReasonIdentifiesField`.
- `CustomFields.CreateAsWritten` is described by `CustomFields.AsWrittenStoresDuplicate`.

## Left out

- Parsing PDF files (through an external AI service) and CSV files (`csv.DictReader`) is out of scope. The upload takes the extracted rows as input.
- Saving the uploaded file, and deleting it when its upload is deleted, is file I/O and is not modelled.
- The file-type check (400 for an unsupported suffix) is not modelled.
- When processing raises, the upload gets status "error" and the message. The Excel extraction's own failure is modelled in `Sheets.ExtractExcelData`.
- `Server.Store.CreateUpload`: rows are dicts with string keys, so the model's row loop never raises. In the source the `try` also covers the row loop, which can raise. One case is `key.lower()` on the None key that `csv.DictReader` gives the extra values of a ragged row. Such a raise, and the partial commit it leaves, are not modelled: the earlier rows' records and conflicts stay stored, and the upload is set to "error".
- Timestamps, user ids, file names and the carrier name copied into uploads and payouts are left out. UUIDs are counter ids, and `_record_id` is the id as an int.
- Float and datetime cell values are left out: a cell is None, str, int or bool.
- Payout amounts and commissions are floats, and are left out; only whether `float()` accepts the amount is modelled. So are the agent lookup and the agent's `total_payouts` increment. A payout keeps its record, carrier and policy number.
- `Lifecycle.PayoutAll` and `Server.Store.GeneratePayouts` stop only where `float()` rejects the amount. Without agents, one more way the request can fail is not modelled. An agent may be stored with `commission_rate` None: the field is optional and `create_agent` stores it as given. If a record's agent code finds such an agent, `None / 100` raises TypeError after the amount converted and before the payout is inserted. The request then fails at that id, like a rejected amount: earlier ids keep their payouts and processed status, and this record stays validated.
- `LifecycleProps.PayoutStepEffect`: marking the same record that was found validated relies on record ids being distinct (UUIDs). Without that, `update_one` by id can mark an earlier record with the same id.
- The "zoho" export format is left out.
- `Export.Approved` returns every approved record, and `Export.ExportApproved` exports them all. The export reads at most 100000 of them (`to_list(100000)`), so above that count the model exports more rows than the source.
- The CSV text itself (the quoting of `csv.DictWriter`) is left out. The export gives the header and the cell strings.
- `lower()` is modelled for ASCII letters only.
- `float()` on a string is modelled with ASCII digits only; Python also accepts other
  Unicode decimal digits.
- `Sheets.RowDict`: its own contract states the keys only. The value each header holds is
  stated by `Sheets.RowDictValues`. The order of the keys (the first column of each name)
  is not stated.
- openpyxl creates cells when it reads past `max_row`. A header row given below the last row therefore grows `max_row`; the model reads such cells as None and keeps `max_row` fixed.
- The preview's displayed rows (`str(val)[:50]`), total rows and columns are left out. Only `suggested_header_row` is modelled.
- `Reasons.Reason`: the "unknown" and "unknown field" defaults apply only to documents lacking those fields. Stored conflicts always carry both, so no lemma is stated for them.
- Requests are modelled one at a time. Two uploads running at once for the same carrier can each miss the other's records, and that is not modelled.
- Authentication, carrier and agent management, listing endpoints, the dashboard, conflict details and mapping suggestions are outside the reconciliation core.

## Findings

| source | as written | input that shows it | evidently intended | confidence | as-written member | corrected member |
|---|---|---|---|---|---|---|
| backend/server.py:355-362 | the duplicate check looks up the field name as given, but the stored name is lower-cased with spaces turned into underscores | "my_field" stored, then a request for "My Field" | the check looks up the name that will be stored, so stored names stay unique | not executed | `CustomFields.AsWrittenStoresDuplicate` | `CustomFields.CreateKeepsNamesDistinct` |

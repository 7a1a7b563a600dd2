/** The store of uploads, records, conflicts and payouts as one value, and what each
    request handler of backend/server.py does to it: the row loop of `create_upload`,
    `resolve_conflict`, `validate_record`, `reject_record`, the status part of
    `generate_payouts` and the cascade of `delete_upload`. `Server` (server.dfy) carries
    out the same steps in place; these functions are their specification. */
module Lifecycle {
  import opened Values
  import opened Dicts
  import opened FieldMapping
  import opened Records
  import opened Detection

  datatype Db = Db(carriers: seq<Carrier>, uploads: seq<Upload>, records: seq<Record>,
                   conflicts: seq<Conflict>, payouts: seq<Payout>, nextId: nat)

  /** Ids are drawn from `nextId`, so every stored id is below it and record ids are
      distinct; stored mapped data keeps `"_raw"` apart; no conflict names `"_raw"`. */
  ghost predicate Consistent(db: Db)
  {
    && (forall i :: 0 <= i < |db.records| ==> db.records[i].id < db.nextId && WellFormed(db.records[i].mapped))
    && DistinctIds(db.records)
    && (forall i :: 0 <= i < |db.conflicts| ==> db.conflicts[i].id < db.nextId && db.conflicts[i].fieldName != RawKey)
    && (forall i :: 0 <= i < |db.uploads| ==> db.uploads[i].id < db.nextId)
  }

  /** Record ids are generated UUIDs: no two records share one. */
  ghost predicate DistinctIds(records: seq<Record>)
  {
    forall i, j :: 0 <= i < j < |records| ==> records[i].id != records[j].id
  }

  // ---------------------------------------------------------------------------------------
  // Lookups by id: `find_one({"id": ...})` and `update_one({"id": ...})` act on the first
  // document with that id.

  function RecordIndex(records: seq<Record>, id: Id): (r: Option<nat>)
    ensures r.Some? ==> r.value < |records| && records[r.value].id == id
    ensures r.Some? ==> forall i :: 0 <= i < r.value ==> records[i].id != id
    ensures r.None? <==> forall i :: 0 <= i < |records| ==> records[i].id != id
  {
    if records == [] then None
    else if records[0].id == id then Some(0)
    else match RecordIndex(records[1..], id)
      case None => None
      case Some(i) => Some(i + 1)
  }

  function ConflictIndex(conflicts: seq<Conflict>, id: Id): (r: Option<nat>)
    ensures r.Some? ==> r.value < |conflicts| && conflicts[r.value].id == id
    ensures r.None? <==> forall i :: 0 <= i < |conflicts| ==> conflicts[i].id != id
  {
    if conflicts == [] then None
    else if conflicts[0].id == id then Some(0)
    else match ConflictIndex(conflicts[1..], id)
      case None => None
      case Some(i) => Some(i + 1)
  }

  function UploadIndex(uploads: seq<Upload>, id: Id): (r: Option<nat>)
    ensures r.Some? ==> r.value < |uploads| && uploads[r.value].id == id
    ensures r.None? <==> forall i :: 0 <= i < |uploads| ==> uploads[i].id != id
  {
    if uploads == [] then None
    else if uploads[0].id == id then Some(0)
    else match UploadIndex(uploads[1..], id)
      case None => None
      case Some(i) => Some(i + 1)
  }

  function CarrierIndex(carriers: seq<Carrier>, id: Id): (r: Option<nat>)
    ensures r.Some? ==> r.value < |carriers| && carriers[r.value].id == id
    ensures r.None? <==> forall i :: 0 <= i < |carriers| ==> carriers[i].id != id
  {
    if carriers == [] then None
    else if carriers[0].id == id then Some(0)
    else match CarrierIndex(carriers[1..], id)
      case None => None
      case Some(i) => Some(i + 1)
  }

  /** `update_one({"id": id}, {"$set": {"status": s}})`: no change when the id is absent. */
  function SetStatus(records: seq<Record>, id: Id, s: RecordStatus): (r: seq<Record>)
    ensures |r| == |records|
  {
    match RecordIndex(records, id)
    case None => records
    case Some(i) => records[i := records[i].(status := s)]
  }

  /** `update_many({"record_id": id}, {"$set": {"status": s}})`. */
  function MarkConflicts(conflicts: seq<Conflict>, recordId: Id, s: ConflictStatus): (r: seq<Conflict>)
    ensures |r| == |conflicts|
  {
    seq(|conflicts|, k requires 0 <= k < |conflicts| =>
      if conflicts[k].recordId == recordId then conflicts[k].(status := s) else conflicts[k])
  }

  /** `count_documents({"record_id": id, "status": "pending"})`. */
  function OpenCount(conflicts: seq<Conflict>, recordId: Id): nat
  {
    if conflicts == [] then 0
    else OpenCount(conflicts[..|conflicts| - 1], recordId)
         + (if conflicts[|conflicts| - 1].recordId == recordId && conflicts[|conflicts| - 1].status == Open then 1 else 0)
  }

  lemma {:induction false} OpenCountZero(conflicts: seq<Conflict>, recordId: Id)
    ensures OpenCount(conflicts, recordId) == 0
        <==> forall k :: 0 <= k < |conflicts| ==> !(conflicts[k].recordId == recordId && conflicts[k].status == Open)
  {
    if conflicts != [] {
      var init := conflicts[..|conflicts| - 1];
      OpenCountZero(init, recordId);
      assert forall k :: 0 <= k < |init| ==> init[k] == conflicts[k];
    }
  }

  // ---------------------------------------------------------------------------------------
  // The row loop of `create_upload`.

  /** The conflict documents for the findings of record `recordId`: one per finding, in
      order, each a pending document of the record and the upload about its finding, with
      distinct ids drawn upwards from `firstId`. */
  function NewConflicts(found: seq<Finding>, recordId: Id, uploadId: Id, firstId: Id): (r: seq<Conflict>)
    ensures |r| == |found|
    ensures forall k :: 0 <= k < |r| ==> firstId <= r[k].id < firstId + |found|
    ensures forall i, j :: 0 <= i < j < |r| ==> r[i].id < r[j].id
    ensures forall k :: 0 <= k < |r| ==>
      && r[k].recordId == recordId && r[k].uploadId == uploadId && r[k].status == Open
      && r[k].existingRecordId == found[k].existingId && r[k].fieldName == found[k].Field()
  {
    seq(|found|, k requires 0 <= k < |found| => ConflictFor(found[k], firstId + k, recordId, uploadId))
  }

  /** The record stored for `row` given the records stored before it: the raw row, its
      mapped data, the findings of detection against those records, and status conflict
      iff there are findings. */
  function RowRecord(prior: seq<Record>, id: Id, uploadId: Id, carrier: Carrier, row: Dict): Record
  {
    var mapped := ApplyFieldMappings(row, carrier.fieldMappings);
    var found := Detect(prior, mapped, carrier.id, carrier.primaryKeyFields);
    Record(id, uploadId, carrier.id, row, mapped, if found == [] then Pending else InConflict, found)
  }

  /** One row: store its record, with a fresh id, after one conflict document per finding. */
  function IngestRow(db: Db, uploadId: Id, carrier: Carrier, row: Dict): Db
  {
    var id := db.nextId;
    var rec := RowRecord(db.records, id, uploadId, carrier, row);
    db.(records := db.records + [rec],
        conflicts := db.conflicts + NewConflicts(rec.findings, id, uploadId, id + 1),
        nextId := id + 1 + |rec.findings|)
  }

  /** The rows in file order, each committed before the next is examined. */
  function IngestAll(db: Db, uploadId: Id, carrier: Carrier, rows: seq<Dict>): Db
    decreases |rows|
  {
    if rows == [] then db
    else IngestRow(IngestAll(db, uploadId, carrier, rows[..|rows| - 1]), uploadId, carrier, rows[|rows| - 1])
  }

  /** The record at position `n` of `records` is the one `row` yields against exactly the
      records stored before it (earlier rows of the same upload included). */
  ghost predicate RowOutcome(records: seq<Record>, n: nat, row: Dict, uploadId: Id, carrier: Carrier)
  {
    n < |records| && records[n] == RowRecord(records[..n], records[n].id, uploadId, carrier, row)
  }

  /** Row `k` of an upload lands at position `base + k`, where `base` is the number of
      records stored before the upload, and is the record `RowOutcome` describes. */
  ghost predicate RowOutcomeAt(records: seq<Record>, base: nat, k: nat, row: Dict, uploadId: Id, carrier: Carrier)
  {
    RowOutcome(records, base + k, row, uploadId, carrier)
  }

  /** Number of findings over a run of records. */
  function TotalFindings(records: seq<Record>): nat
  {
    if records == [] then 0 else TotalFindings(records[..|records| - 1]) + |records[|records| - 1].findings|
  }

  /** The upload loop appends exactly one record per row and keeps what was stored
      before; it touches neither carriers, uploads nor payouts, and only draws new ids. */
  lemma {:induction false} IngestAllFrame(db: Db, uploadId: Id, carrier: Carrier, rows: seq<Dict>)
    ensures var after := IngestAll(db, uploadId, carrier, rows);
      && after.carriers == db.carriers && after.uploads == db.uploads && after.payouts == db.payouts
      && |after.records| == |db.records| + |rows|
      && after.records[..|db.records|] == db.records
      && |after.conflicts| >= |db.conflicts|
      && after.conflicts[..|db.conflicts|] == db.conflicts
      && after.nextId >= db.nextId
    decreases |rows|
  {
    if rows != [] {
      var init := rows[..|rows| - 1];
      var mid := IngestAll(db, uploadId, carrier, init);
      IngestAllFrame(db, uploadId, carrier, init);
      var after := IngestRow(mid, uploadId, carrier, rows[|rows| - 1]);
      IngestRowFrame(mid, uploadId, carrier, rows[|rows| - 1]);
      PrefixOfPrefix(db.records, mid.records, after.records);
      PrefixOfPrefix(db.conflicts, mid.conflicts, after.conflicts);
    }
  }

  lemma IngestRowFrame(db: Db, uploadId: Id, carrier: Carrier, row: Dict)
    ensures var after := IngestRow(db, uploadId, carrier, row);
      && after.carriers == db.carriers && after.uploads == db.uploads && after.payouts == db.payouts
      && |after.records| == |db.records| + 1
      && after.records[..|db.records|] == db.records
      && |after.conflicts| >= |db.conflicts|
      && after.conflicts[..|db.conflicts|] == db.conflicts
      && after.nextId >= db.nextId
  {
    var after := IngestRow(db, uploadId, carrier, row);
    assert after.records[..|db.records|] == db.records;
    assert after.conflicts[..|db.conflicts|] == db.conflicts;
  }

  lemma PrefixOfPrefix<T>(a: seq<T>, b: seq<T>, c: seq<T>)
    requires |a| <= |b| <= |c| && b[..|a|] == a && c[..|b|] == b
    ensures c[..|a|] == a
  {
    assert c[..|a|] == c[..|b|][..|a|];
  }

  /** Every row becomes, in row order, the record `RowOutcome` describes: each row is
      checked against everything stored before it, earlier rows of the same file included. */
  lemma IngestAllRows(db: Db, uploadId: Id, carrier: Carrier, rows: seq<Dict>)
    ensures var after := IngestAll(db, uploadId, carrier, rows);
      forall k :: 0 <= k < |rows| ==> RowOutcomeAt(after.records, |db.records|, k, rows[k], uploadId, carrier)
  {
    forall k | 0 <= k < |rows|
      ensures RowOutcomeAt(IngestAll(db, uploadId, carrier, rows).records, |db.records|, k, rows[k], uploadId, carrier)
    {
      IngestAllRow(db, uploadId, carrier, rows, k);
      OutcomeAtOf(IngestAll(db, uploadId, carrier, rows).records, |db.records|, k, rows[k], uploadId, carrier);
    }
  }

  lemma {:induction false} IngestAllRow(db: Db, uploadId: Id, carrier: Carrier, rows: seq<Dict>, k: nat)
    requires k < |rows|
    ensures RowOutcome(IngestAll(db, uploadId, carrier, rows).records, |db.records| + k, rows[k], uploadId, carrier)
    decreases |rows|
  {
    var init := rows[..|rows| - 1];
    var mid := IngestAll(db, uploadId, carrier, init);
    IngestAllFrame(db, uploadId, carrier, init);
    var after := IngestRow(mid, uploadId, carrier, rows[|rows| - 1]);
    var added := [after.records[|after.records| - 1]];
    assert after.records == mid.records + added;
    assert IngestAll(db, uploadId, carrier, rows).records == after.records;
    if k == |rows| - 1 {
      IngestRowOutcome(mid, uploadId, carrier, rows[k]);
    } else {
      IngestAllRow(db, uploadId, carrier, init, k);
      assert init[k] == rows[k];
      OutcomeKept(mid.records, added, |db.records| + k, rows[k], uploadId, carrier);
    }
  }

  lemma OutcomeAtOf(records: seq<Record>, base: nat, k: nat, row: Dict, uploadId: Id, carrier: Carrier)
    requires RowOutcome(records, base + k, row, uploadId, carrier)
    ensures RowOutcomeAt(records, base, k, row, uploadId, carrier)
  {
  }

  lemma IngestRowOutcome(db: Db, uploadId: Id, carrier: Carrier, row: Dict)
    ensures RowOutcome(IngestRow(db, uploadId, carrier, row).records, |db.records|, row, uploadId, carrier)
  {
    var after := IngestRow(db, uploadId, carrier, row);
    assert after.records[..|db.records|] == db.records;
  }

  lemma OutcomeKept(records: seq<Record>, added: seq<Record>, n: nat, row: Dict, uploadId: Id, carrier: Carrier)
    requires RowOutcome(records, n, row, uploadId, carrier)
    ensures RowOutcome(records + added, n, row, uploadId, carrier)
  {
    assert (records + added)[..n] == records[..n];
    assert (records + added)[n] == records[n];
  }

  /** The conflict documents the upload appends number exactly the findings of the new
      records. */
  lemma {:induction false} IngestAllConflicts(db: Db, uploadId: Id, carrier: Carrier, rows: seq<Dict>)
    ensures var after := IngestAll(db, uploadId, carrier, rows);
      && |after.records| == |db.records| + |rows|
      && |after.conflicts| == |db.conflicts| + TotalFindings(after.records[|db.records|..])
    decreases |rows|
  {
    if rows != [] {
      var init := rows[..|rows| - 1];
      var mid := IngestAll(db, uploadId, carrier, init);
      IngestAllConflicts(db, uploadId, carrier, init);
      IngestRowConflicts(mid, uploadId, carrier, rows[|rows| - 1]);
      var after := IngestRow(mid, uploadId, carrier, rows[|rows| - 1]);
      assert IngestAll(db, uploadId, carrier, rows) == after;
      var tail := after.records[|db.records|..];
      assert tail[..|tail| - 1] == mid.records[|db.records|..];
      assert tail[|tail| - 1] == after.records[|mid.records|];
    }
  }

  /** All the conflict documents the upload appends are pending documents of this upload. */
  lemma {:induction false} IngestAllOpen(db: Db, uploadId: Id, carrier: Carrier, rows: seq<Dict>)
    ensures var after := IngestAll(db, uploadId, carrier, rows);
      && |after.conflicts| >= |db.conflicts|
      && (forall k :: |db.conflicts| <= k < |after.conflicts| ==>
            after.conflicts[k].status == Open && after.conflicts[k].uploadId == uploadId)
    decreases |rows|
  {
    if rows != [] {
      var init := rows[..|rows| - 1];
      var mid := IngestAll(db, uploadId, carrier, init);
      IngestAllOpen(db, uploadId, carrier, init);
      IngestRowConflicts(mid, uploadId, carrier, rows[|rows| - 1]);
      var after := IngestRow(mid, uploadId, carrier, rows[|rows| - 1]);
      assert IngestAll(db, uploadId, carrier, rows) == after;
      forall k | |db.conflicts| <= k < |after.conflicts|
        ensures after.conflicts[k].status == Open && after.conflicts[k].uploadId == uploadId
      {
        if k < |mid.conflicts| {
          assert after.conflicts[k] == mid.conflicts[k];
        }
      }
    }
  }

  /** One row appends one record and, after the conflicts stored so far, one open
      conflict of the upload per finding of that record. */
  lemma IngestRowConflicts(db: Db, uploadId: Id, carrier: Carrier, row: Dict)
    ensures var after := IngestRow(db, uploadId, carrier, row);
      && |after.records| == |db.records| + 1
      && after.records[..|db.records|] == db.records
      && |after.conflicts| == |db.conflicts| + |after.records[|db.records|].findings|
      && after.conflicts[..|db.conflicts|] == db.conflicts
      && (forall k :: |db.conflicts| <= k < |after.conflicts| ==>
            after.conflicts[k].status == Open && after.conflicts[k].uploadId == uploadId)
  {
  }

  /** The upload keeps the store consistent: fresh record ids, well-formed mapped data,
      and no conflict on `"_raw"`. */
  lemma {:induction false} IngestAllConsistent(db: Db, uploadId: Id, carrier: Carrier, rows: seq<Dict>)
    requires Consistent(db)
    ensures Consistent(IngestAll(db, uploadId, carrier, rows))
    ensures IngestAll(db, uploadId, carrier, rows).nextId >= db.nextId
    decreases |rows|
  {
    if rows != [] {
      IngestAllConsistent(db, uploadId, carrier, rows[..|rows| - 1]);
      IngestRowConsistent(IngestAll(db, uploadId, carrier, rows[..|rows| - 1]), uploadId, carrier, rows[|rows| - 1]);
    }
  }

  /** One row keeps the store consistent: the new record and its conflict documents get
      ids above every id in use, and no finding names the raw-row key. */
  lemma IngestRowConsistent(db: Db, uploadId: Id, carrier: Carrier, row: Dict)
    requires Consistent(db)
    ensures Consistent(IngestRow(db, uploadId, carrier, row))
    ensures IngestRow(db, uploadId, carrier, row).nextId > db.nextId
  {
    var rec := RowRecord(db.records, db.nextId, uploadId, carrier, row);
    forall k | 0 <= k < |rec.findings| ensures rec.findings[k].Field() != RawKey {
      assert rec.findings[k] in rec.findings;
    }
  }

  /** `create_upload` once the carrier is found and the rows extracted: a processing
      upload is stored under a fresh id, the rows are ingested against the
      carrier's mappings and key fields, and the upload is completed with the row count and
      the number of findings. */
  function StoreUpload(db: Db, carrier: Carrier, rows: seq<Dict>): (Db, Upload)
  {
    var ingested := IngestAll(StartUpload(db, carrier.id), db.nextId, carrier, rows);
    IngestAllFrame(StartUpload(db, carrier.id), db.nextId, carrier, rows);
    var done := Upload(db.nextId, carrier.id, Completed, |rows|, |rows|, |ingested.conflicts| - |db.conflicts|);
    (ingested.(uploads := db.uploads + [done]), done)
  }

  /** The stored upload's records are the ingested ones, under the upload's id. */
  lemma StoreUploadParts(db: Db, carrier: Carrier, rows: seq<Dict>)
    ensures StoreUpload(db, carrier, rows).0.records == IngestAll(StartUpload(db, carrier.id), db.nextId, carrier, rows).records
    ensures StoreUpload(db, carrier, rows).1.id == db.nextId
  {
  }

  /** The upload document as first inserted, before any row is read. */
  function StartUpload(db: Db, carrierId: Id): Db
  {
    db.(uploads := db.uploads + [Upload(db.nextId, carrierId, Processing, 0, 0, 0)], nextId := db.nextId + 1)
  }

  // ---------------------------------------------------------------------------------------
  // Review actions.

  /** `validate_record`: None (not found) when no record has the id; otherwise that record
      becomes validated and every conflict of it resolved, whatever their state. */
  function Validate(db: Db, id: Id): Option<Db>
  {
    match RecordIndex(db.records, id)
    case None => None
    case Some(i) =>
      Some(db.(records := db.records[i := db.records[i].(status := Validated)],
               conflicts := MarkConflicts(db.conflicts, id, Resolved)))
  }

  /** `reject_record`: no existence or state check. */
  function Reject(db: Db, id: Id): Db
  {
    db.(records := SetStatus(db.records, id, Rejected), conflicts := MarkConflicts(db.conflicts, id, Dismissed))
  }

  /** `mapped_data[field] = v; update_one(...)` when the record exists and the field name is
      non-empty. */
  function WriteField(records: seq<Record>, id: Id, field: string, v: Cell): (r: seq<Record>)
    ensures |r| == |records|
  {
    match RecordIndex(records, id)
    case None => records
    case Some(i) =>
      if field == "" then records
      else records[i := records[i].(mapped := records[i].mapped.(fields := Put(records[i].mapped.fields, field, v)))]
  }

  const AcceptNew: string := "accept_new"
  const Manual: string := "manual"

  /** The value a resolution writes into the record of conflict `c`: the conflict's new
      value for "accept_new", the given value for "manual" when there is one, and nothing
      otherwise. */
  function ResolutionWrite(records: seq<Record>, c: Conflict, resolution: string, manual: Cell): (r: seq<Record>)
    ensures |r| == |records|
  {
    if resolution == AcceptNew then WriteField(records, c.recordId, c.fieldName, c.newValue)
    else if resolution == Manual && manual != Null then WriteField(records, c.recordId, c.fieldName, manual)
    else records
  }

  /** `resolve_conflict`: None (not found) when no conflict has the id. Otherwise the
      conflict is resolved with the given resolution whatever its state; "accept_new"
      writes the conflict's new value into the record's field, "manual" with a non-null
      value writes that value, anything else writes nothing; then, if no conflict of the
      record is still pending, the record returns to pending. */
  function Resolve(db: Db, conflictId: Id, resolution: string, manual: Cell): Option<Db>
  {
    match ConflictIndex(db.conflicts, conflictId)
    case None => None
    case Some(ci) =>
      var c := db.conflicts[ci];
      var cs := db.conflicts[ci := c.(status := Resolved, resolution := Some(resolution))];
      var written := ResolutionWrite(db.records, c, resolution, manual);
      var records := if OpenCount(cs, c.recordId) == 0 then SetStatus(written, c.recordId, Pending) else written;
      Some(db.(conflicts := cs, records := records))
  }

  // ---------------------------------------------------------------------------------------
  // Payouts.

  /** `find_one({"id": id, "status": "validated"})`. */
  function ValidatedIndex(records: seq<Record>, id: Id): (r: Option<nat>)
    ensures r.Some? ==> r.value < |records| && records[r.value].id == id && records[r.value].status == Validated
    ensures r.None? <==> forall i :: 0 <= i < |records| ==> !(records[i].id == id && records[i].status == Validated)
  {
    if records == [] then None
    else if records[0].id == id && records[0].status == Validated then Some(0)
    else match ValidatedIndex(records[1..], id)
      case None => None
      case Some(i) => Some(i + 1)
  }

  /** `mapped.get(k, default)` */
  function GetOr(m: Mapped, k: string, default: Cell): Cell
  {
    match Get(m.fields, k)
    case None => default
    case Some(v) => v
  }

  /** `str(mapped.get("policy_number", "") or mapped.get("policy_id", "") or "")`. */
  function PolicyNumber(m: Mapped): string
  {
    var a := GetOr(m, "policy_number", Str(""));
    var b := GetOr(m, "policy_id", Str(""));
    if Truthy(a) then Show(a) else if Truthy(b) then Show(b) else ""
  }

  /** `mapped.get("amount", 0) or mapped.get("premium", 0) or mapped.get("payout_amount", 0)
      or 0`: the first truthy of the three fields, else 0. */
  function PayoutAmount(m: Mapped): Cell
  {
    var a := GetOr(m, "amount", Int(0));
    var p := GetOr(m, "premium", Int(0));
    var q := GetOr(m, "payout_amount", Int(0));
    if Truthy(a) then a else if Truthy(p) then p else if Truthy(q) then q else Int(0)
  }

  /** `float(...)` of the payout amount returns: a bool always converts, an int when it is
      within the range of a double, a string only when it is a float literal. */
  predicate AmountConverts(m: Mapped)
  {
    match PayoutAmount(m)
    case Str(s) => FloatText(s)
    case Int(i) => IntFitsFloat(i)
    case _ => true
  }

  /** The handler raises (ValueError or OverflowError) at id `id`: a validated record has
      the id and its amount does not convert. */
  predicate PayoutFails(db: Db, id: Id)
  {
    match ValidatedIndex(db.records, id)
    case None => false
    case Some(j) => !AmountConverts(db.records[j].mapped)
  }

  /** One id of `generate_payouts` whose amount converts: skipped unless a validated record
      has it; otherwise a payout is stored and the record becomes processed. */
  function PayoutStep(db: Db, id: Id): Db
  {
    match ValidatedIndex(db.records, id)
    case None => db
    case Some(j) =>
      db.(payouts := db.payouts + [Payout(id, db.records[j].carrierId, PolicyNumber(db.records[j].mapped))],
          records := SetStatus(db.records, id, Processed))
  }

  /** The store a payout run leaves, and whether the request ended in an error. */
  datatype PayoutRun = PayoutRun(db: Db, aborted: bool)

  /** `generate_payouts`: the ids in order. The first id whose amount does not convert ends
      the request with an error; what the earlier ids wrote stays written. */
  function PayoutAll(db: Db, ids: seq<Id>): PayoutRun
    decreases |ids|
  {
    if ids == [] then PayoutRun(db, false)
    else
      var mid := PayoutAll(db, ids[..|ids| - 1]);
      if mid.aborted then mid
      else if PayoutFails(mid.db, ids[|ids| - 1]) then PayoutRun(mid.db, true)
      else PayoutRun(PayoutStep(mid.db, ids[|ids| - 1]), false)
  }

  // ---------------------------------------------------------------------------------------
  // Upload deletion.

  function KeepRecords(records: seq<Record>, uploadId: Id): (r: seq<Record>)
    ensures |r| <= |records|
    ensures forall x :: x in r <==> x in records && x.uploadId != uploadId
  {
    if records == [] then []
    else KeepRecords(records[..|records| - 1], uploadId)
         + (if records[|records| - 1].uploadId != uploadId then [records[|records| - 1]] else [])
  }

  function KeepConflicts(conflicts: seq<Conflict>, uploadId: Id): (r: seq<Conflict>)
    ensures |r| <= |conflicts|
    ensures forall x :: x in r <==> x in conflicts && x.uploadId != uploadId
  {
    if conflicts == [] then []
    else KeepConflicts(conflicts[..|conflicts| - 1], uploadId)
         + (if conflicts[|conflicts| - 1].uploadId != uploadId then [conflicts[|conflicts| - 1]] else [])
  }

  /** `delete_upload`: None (not found) when no upload has the id; otherwise its conflicts
      and records go, then the upload itself, and the number of deleted records is
      returned. */
  function DeleteUpload(db: Db, uploadId: Id): Option<(Db, nat)>
  {
    match UploadIndex(db.uploads, uploadId)
    case None => None
    case Some(u) =>
      var kept := KeepRecords(db.records, uploadId);
      Some((db.(uploads := db.uploads[..u] + db.uploads[u + 1..],
                records := kept,
                conflicts := KeepConflicts(db.conflicts, uploadId)),
            |db.records| - |kept|))
  }
}

/** What the review actions, payout generation and upload deletion of backend/server.py
    promise about the store, proved of the functions in `Lifecycle`. */
module LifecycleProps {
  import opened Values
  import opened Dicts
  import opened FieldMapping
  import opened Records
  import opened Detection
  import opened Lifecycle

  /** `update_one` by id changes the status of the first record with that id and nothing
      else. */
  lemma SetStatusEffect(records: seq<Record>, id: Id, s: RecordStatus)
    ensures var r := SetStatus(records, id, s);
      forall i :: 0 <= i < |records| ==>
        r[i] == (if RecordIndex(records, id) == Some(i) then records[i].(status := s) else records[i])
  {
  }

  /** `update_many` by record id reaches every conflict of the record and no other. */
  lemma MarkConflictsEffect(conflicts: seq<Conflict>, recordId: Id, s: ConflictStatus)
    ensures var r := MarkConflicts(conflicts, recordId, s);
      forall k :: 0 <= k < |conflicts| ==>
        && (conflicts[k].recordId == recordId ==> r[k] == conflicts[k].(status := s))
        && (conflicts[k].recordId != recordId ==> r[k] == conflicts[k])
  {
  }

  // ---------------------------------------------------------------------------------------
  // create_upload

  /** An upload stores one completed upload under a fresh id, with the row count as total
      and processed records and the number of findings as conflict count; one record per
      row, in row order; and only pending conflict documents of this upload. */
  lemma CreateUploadEffect(db: Db, carrier: Carrier, rows: seq<Dict>)
    ensures var (after, u) := StoreUpload(db, carrier, rows);
      && u == Upload(db.nextId, carrier.id, Completed, |rows|, |rows|, u.conflictCount)
      && after.uploads == db.uploads + [u]
      && after.carriers == db.carriers && after.payouts == db.payouts
      && |after.records| == |db.records| + |rows| && after.records[..|db.records|] == db.records
      && u.conflictCount == TotalFindings(after.records[|db.records|..])
      && |after.conflicts| == |db.conflicts| + u.conflictCount
      && after.conflicts[..|db.conflicts|] == db.conflicts
      && (forall k :: |db.conflicts| <= k < |after.conflicts| ==> after.conflicts[k].status == Open && after.conflicts[k].uploadId == u.id)
  {
    IngestAllFrame(StartUpload(db, carrier.id), db.nextId, carrier, rows);
    IngestAllConflicts(StartUpload(db, carrier.id), db.nextId, carrier, rows);
    IngestAllOpen(StartUpload(db, carrier.id), db.nextId, carrier, rows);
  }

  /** The upload keeps the store consistent, and its id is fresh. */
  lemma CreateUploadConsistent(db: Db, carrier: Carrier, rows: seq<Dict>)
    requires Consistent(db)
    ensures Consistent(StoreUpload(db, carrier, rows).0)
    ensures forall x :: x in db.uploads ==> x.id != StoreUpload(db, carrier, rows).1.id
  {
    var started := StartUpload(db, carrier.id);
    assert Consistent(started);
    IngestAllConsistent(started, db.nextId, carrier, rows);
    IngestAllFrame(started, db.nextId, carrier, rows);
    var ingested := IngestAll(started, db.nextId, carrier, rows);
    var (after, u) := StoreUpload(db, carrier, rows);
    assert after == ingested.(uploads := db.uploads + [u]);
    assert u.id == db.nextId < ingested.nextId;
  }

  /** Each row of the upload becomes the record `RowOutcome` describes, under the new
      upload's id and the carrier's configuration. */
  lemma CreateUploadRows(db: Db, carrier: Carrier, rows: seq<Dict>)
    ensures var (after, u) := StoreUpload(db, carrier, rows);
      forall k :: 0 <= k < |rows| ==> RowOutcomeAt(after.records, |db.records|, k, rows[k], u.id, carrier)
  {
    var started := StartUpload(db, carrier.id);
    assert started.records == db.records;
    StoreUploadParts(db, carrier, rows);
    IngestAllRows(started, db.nextId, carrier, rows);
  }

  // ---------------------------------------------------------------------------------------
  // validate_record

  /** Validation fails exactly when no record has the id; otherwise the record is validated,
      no conflict of it stays pending (each is resolved, whatever its earlier state), and
      nothing else changes. */
  lemma ValidateEffect(db: Db, id: Id)
    ensures Validate(db, id).None? <==> forall i :: 0 <= i < |db.records| ==> db.records[i].id != id
    ensures Validate(db, id).Some? ==>
      var after := Validate(db, id).value;
      && after.uploads == db.uploads && after.payouts == db.payouts && after.nextId == db.nextId
      && |after.records| == |db.records| && |after.conflicts| == |db.conflicts|
      && (forall i :: 0 <= i < |db.records| ==>
            after.records[i] == (if RecordIndex(db.records, id) == Some(i) then db.records[i].(status := Validated) else db.records[i]))
      && (forall k :: 0 <= k < |db.conflicts| ==>
            after.conflicts[k] == (if db.conflicts[k].recordId == id then db.conflicts[k].(status := Resolved) else db.conflicts[k]))
      && OpenCount(after.conflicts, id) == 0
  {
    if Validate(db, id).Some? {
      OpenCountZero(Validate(db, id).value.conflicts, id);
    }
  }

  lemma ValidateConsistent(db: Db, id: Id)
    requires Consistent(db) && Validate(db, id).Some?
    ensures Consistent(Validate(db, id).value)
  {
  }

  // ---------------------------------------------------------------------------------------
  // reject_record

  /** Rejection reaches the first record with the id, if any, and dismisses every conflict
      of that id; rejecting twice is the same as rejecting once. */
  lemma RejectEffect(db: Db, id: Id)
    ensures var after := Reject(db, id);
      && after.uploads == db.uploads && after.payouts == db.payouts && after.nextId == db.nextId
      && |after.records| == |db.records| && |after.conflicts| == |db.conflicts|
      && (forall i :: 0 <= i < |db.records| ==>
            after.records[i] == (if RecordIndex(db.records, id) == Some(i) then db.records[i].(status := Rejected) else db.records[i]))
      && (forall k :: 0 <= k < |db.conflicts| ==>
            after.conflicts[k] == (if db.conflicts[k].recordId == id then db.conflicts[k].(status := Dismissed) else db.conflicts[k]))
      && OpenCount(after.conflicts, id) == 0
    ensures Reject(Reject(db, id), id) == Reject(db, id)
  {
    var after := Reject(db, id);
    OpenCountZero(after.conflicts, id);
    match RecordIndex(db.records, id)
    case None =>
    case Some(i) =>
      assert RecordIndex(after.records, id) == Some(i) by {
        RecordIndexKept(db.records, i, db.records[i].(status := Rejected), id);
      }
  }

  /** Replacing a record by one with the same id keeps the first position of every id. */
  lemma {:induction false} RecordIndexKept(records: seq<Record>, i: nat, r: Record, id: Id)
    requires i < |records| && r.id == records[i].id
    ensures RecordIndex(records[i := r], id) == RecordIndex(records, id)
  {
    if records != [] && i > 0 {
      assert records[i := r][1..] == records[1..][i - 1 := r];
      RecordIndexKept(records[1..], i - 1, r, id);
    }
  }

  lemma RejectConsistent(db: Db, id: Id)
    requires Consistent(db)
    ensures Consistent(Reject(db, id))
  {
  }

  /** Right after rejection, the record is not the match target of an upload. */
  lemma RejectedNeverMatched(db: Db, id: Id, incoming: Mapped, carrierId: Id, pks: seq<string>)
    requires RecordIndex(db.records, id).Some?
    ensures FindMatch(Reject(db, id).records, carrierId, pks, incoming) != RecordIndex(db.records, id)
  {
  }

  /** Rejection is not final: resolving any one of the rejected record's dismissed
      conflicts leaves none of its conflicts pending, so the record returns to pending and
      is again the match target of an upload (here, one against an empty key list). */
  lemma ResolveRevivesRejected(db: Db, id: Id, cid: Id, resolution: string, manual: Cell, incoming: Mapped)
    requires RecordIndex(db.records, id).Some?
    requires var rejected := Reject(db, id);
      && ConflictIndex(rejected.conflicts, cid).Some?
      && rejected.conflicts[ConflictIndex(rejected.conflicts, cid).value].recordId == id
    ensures var i := RecordIndex(db.records, id).value;
      var after := Resolve(Reject(db, id), cid, resolution, manual).value;
      && after.records[i].status == Pending
      && Detect(after.records, incoming, after.records[i].carrierId, []) != []
  {
    var rejected := Reject(db, id);
    var i := RecordIndex(db.records, id).value;
    RejectEffect(db, id);
    RecordIndexKept(db.records, i, db.records[i].(status := Rejected), id);
    assert RecordIndex(rejected.records, id) == Some(i);
    ResolveEffect(rejected, cid, resolution, manual);
    ResolveRecords(rejected, cid, resolution, manual);
    var after := Resolve(rejected, cid, resolution, manual).value;
    var ci := ConflictIndex(rejected.conflicts, cid).value;
    forall k | 0 <= k < |after.conflicts|
      ensures !(after.conflicts[k].recordId == id && after.conflicts[k].status == Open)
    {
      if k != ci {
        assert after.conflicts[k] == rejected.conflicts[k];
      }
    }
    OpenCountZero(after.conflicts, id);
    Detection.EmptyKeyListMatchesAnyStaged(after.records, incoming, after.records[i].carrierId, i);
  }

  // ---------------------------------------------------------------------------------------
  // resolve_conflict

  /** Resolution fails exactly when no conflict has the id. Otherwise the first conflict
      with the id is resolved with the given resolution, whatever its earlier state, and no
      other conflict, upload or payout changes. */
  lemma ResolveEffect(db: Db, cid: Id, resolution: string, manual: Cell)
    ensures Resolve(db, cid, resolution, manual).None? <==> forall k :: 0 <= k < |db.conflicts| ==> db.conflicts[k].id != cid
    ensures Resolve(db, cid, resolution, manual).Some? ==>
      var ci := ConflictIndex(db.conflicts, cid).value;
      var c := db.conflicts[ci];
      var after := Resolve(db, cid, resolution, manual).value;
      && after.uploads == db.uploads && after.payouts == db.payouts && after.nextId == db.nextId
      && |after.conflicts| == |db.conflicts| && |after.records| == |db.records|
      && after.conflicts[ci] == c.(status := Resolved, resolution := Some(resolution))
      && (forall k :: 0 <= k < |db.conflicts| && k != ci ==> after.conflicts[k] == db.conflicts[k])
  {
  }

  /** On resolution, the record's values change only through "accept_new" or "manual"
      and only in the record of the conflict; that record is back to pending exactly when
      none of its conflicts is still pending (otherwise its status is untouched); no other
      record changes. */
  lemma ResolveRecords(db: Db, cid: Id, resolution: string, manual: Cell)
    ensures Resolve(db, cid, resolution, manual).Some? ==>
      var c := db.conflicts[ConflictIndex(db.conflicts, cid).value];
      var after := Resolve(db, cid, resolution, manual).value;
      && |after.records| == |db.records|
      && (forall i :: 0 <= i < |db.records| ==> after.records[i].id == db.records[i].id)
      && (forall i :: 0 <= i < |db.records| && RecordIndex(db.records, c.recordId) != Some(i) ==>
            after.records[i] == db.records[i])
      && (resolution != AcceptNew && !(resolution == Manual && manual != Null) ==>
            forall i :: 0 <= i < |db.records| ==> after.records[i].mapped == db.records[i].mapped)
      && (RecordIndex(db.records, c.recordId).Some? ==>
            var i := RecordIndex(db.records, c.recordId).value;
            after.records[i].status ==
              if OpenCount(after.conflicts, c.recordId) == 0 then Pending else db.records[i].status)
  {
    if Resolve(db, cid, resolution, manual).Some? {
      var c := db.conflicts[ConflictIndex(db.conflicts, cid).value];
      ResolutionWriteEffect(db.records, c, resolution, manual);
    }
  }

  /** The write of a resolution touches only the mapped data of the conflict's record, and
      none at all unless the resolution writes a value. */
  lemma ResolutionWriteEffect(records: seq<Record>, c: Conflict, resolution: string, manual: Cell)
    ensures var r := ResolutionWrite(records, c, resolution, manual);
      && RecordIndex(r, c.recordId) == RecordIndex(records, c.recordId)
      && (forall i :: 0 <= i < |records| ==> r[i].id == records[i].id && r[i].status == records[i].status)
      && (forall i :: 0 <= i < |records| && RecordIndex(records, c.recordId) != Some(i) ==> r[i] == records[i])
      && (resolution != AcceptNew && !(resolution == Manual && manual != Null) ==> r == records)
  {
    WriteFieldEffect(records, c.recordId, c.fieldName, c.newValue);
    WriteFieldEffect(records, c.recordId, c.fieldName, manual);
  }

  /** A resolution writes into a field other than `"_raw"`, so the mapped data stays
      well formed. */
  lemma ResolutionWriteWellFormed(records: seq<Record>, c: Conflict, resolution: string, manual: Cell)
    requires forall i :: 0 <= i < |records| ==> WellFormed(records[i].mapped)
    requires c.fieldName != RawKey
    ensures var r := ResolutionWrite(records, c, resolution, manual);
      forall i :: 0 <= i < |r| ==> WellFormed(r[i].mapped)
  {
    if resolution == AcceptNew {
      WriteFieldWellFormed(records, c.recordId, c.fieldName, c.newValue);
    } else if resolution == Manual && manual != Null {
      WriteFieldWellFormed(records, c.recordId, c.fieldName, manual);
    }
  }

  lemma WriteFieldWellFormed(records: seq<Record>, id: Id, field: string, v: Cell)
    requires forall i :: 0 <= i < |records| ==> WellFormed(records[i].mapped)
    requires field != RawKey
    ensures var r := WriteField(records, id, field, v);
      forall i :: 0 <= i < |r| ==> WellFormed(r[i].mapped)
  {
    match RecordIndex(records, id)
    case None =>
    case Some(i) =>
      if field != "" {
        var m := records[i].mapped;
        assert WellFormed(m);
        assert WellFormed(m.(fields := Put(m.fields, field, v)));
      }
  }

  /** Writing a field changes only the mapped data of the first record with the id, and
      only when the field name is non-empty; the positions of ids stay as they were. */
  lemma WriteFieldEffect(records: seq<Record>, id: Id, field: string, v: Cell)
    ensures var r := WriteField(records, id, field, v);
      && RecordIndex(r, id) == RecordIndex(records, id)
      && (forall i :: 0 <= i < |records| ==> r[i].id == records[i].id && r[i].status == records[i].status)
      && (forall i :: 0 <= i < |records| && (RecordIndex(records, id) != Some(i) || field == "") ==> r[i] == records[i])
      && (RecordIndex(records, id).Some? && field != "" ==>
            var i := RecordIndex(records, id).value;
            r[i] == records[i].(mapped := records[i].mapped.(fields := Put(records[i].mapped.fields, field, v))))
  {
    match RecordIndex(records, id)
    case None =>
    case Some(i) =>
      if field != "" {
        RecordIndexKept(records, i, records[i].(mapped := records[i].mapped.(fields := Put(records[i].mapped.fields, field, v))), id);
      }
  }

  /** "accept_new" puts the conflict's new value into the record's field, leaving the
      record's other fields as they were; a duplicate conflict, whose field is "record"
      and whose new value is None, thus writes None under "record". */
  lemma ResolveAcceptNew(db: Db, cid: Id, manual: Cell)
    requires ConflictIndex(db.conflicts, cid).Some?
    requires var c := db.conflicts[ConflictIndex(db.conflicts, cid).value];
      RecordIndex(db.records, c.recordId).Some? && c.fieldName != ""
    ensures var c := db.conflicts[ConflictIndex(db.conflicts, cid).value];
      var i := RecordIndex(db.records, c.recordId).value;
      var after := Resolve(db, cid, AcceptNew, manual).value;
      && Get(after.records[i].mapped.fields, c.fieldName) == Some(c.newValue)
      && (forall f :: f != c.fieldName ==> Get(after.records[i].mapped.fields, f) == Get(db.records[i].mapped.fields, f))
      && after.records[i].mapped.raw == db.records[i].mapped.raw
      && (c.kind == DuplicateKind && c == ConflictFor(Duplicate(c.existingRecordId), c.id, c.recordId, c.uploadId) ==>
            Get(after.records[i].mapped.fields, "record") == Some(Null))
  {
    var c := db.conflicts[ConflictIndex(db.conflicts, cid).value];
    WriteFieldEffect(db.records, c.recordId, c.fieldName, c.newValue);
    ResolveRecords(db, cid, AcceptNew, manual);
  }

  /** "manual" with a value puts that value into the record's field; "manual" without one
      changes no value. */
  lemma ResolveManual(db: Db, cid: Id, manual: Cell)
    requires ConflictIndex(db.conflicts, cid).Some?
    requires var c := db.conflicts[ConflictIndex(db.conflicts, cid).value];
      RecordIndex(db.records, c.recordId).Some? && c.fieldName != ""
    ensures var c := db.conflicts[ConflictIndex(db.conflicts, cid).value];
      var i := RecordIndex(db.records, c.recordId).value;
      var after := Resolve(db, cid, Manual, manual).value;
      && (manual != Null ==> Get(after.records[i].mapped.fields, c.fieldName) == Some(manual))
      && (manual == Null ==> after.records[i].mapped == db.records[i].mapped)
  {
    var c := db.conflicts[ConflictIndex(db.conflicts, cid).value];
    WriteFieldEffect(db.records, c.recordId, c.fieldName, manual);
    ResolveRecords(db, cid, Manual, manual);
  }

  /** A conflict already resolved (or dismissed) can be resolved again: there is no state
      check, and the second resolution replaces the first. */
  lemma ResolveAgain(db: Db, cid: Id, first: string, second: string, manual: Cell)
    requires Resolve(db, cid, first, manual).Some?
    ensures Resolve(Resolve(db, cid, first, manual).value, cid, second, manual).Some?
    ensures var after := Resolve(Resolve(db, cid, first, manual).value, cid, second, manual).value;
      after.conflicts[ConflictIndex(db.conflicts, cid).value].resolution == Some(second)
  {
    var mid := Resolve(db, cid, first, manual).value;
    ResolveEffect(db, cid, first, manual);
    var ci := ConflictIndex(db.conflicts, cid).value;
    assert mid.conflicts[ci].id == cid;
    ResolveFirstKept(db.conflicts, ci, mid.conflicts[ci], cid);
  }

  /** Replacing a conflict by one with the same id keeps the first position of every id. */
  lemma {:induction false} ResolveFirstKept(conflicts: seq<Conflict>, i: nat, c: Conflict, id: Id)
    requires i < |conflicts| && c.id == conflicts[i].id
    ensures ConflictIndex(conflicts[i := c], id) == ConflictIndex(conflicts, id)
  {
    if conflicts != [] && i > 0 {
      assert conflicts[i := c][1..] == conflicts[1..][i - 1 := c];
      ResolveFirstKept(conflicts[1..], i - 1, c, id);
    }
  }

  lemma ResolveConsistent(db: Db, cid: Id, resolution: string, manual: Cell)
    requires Consistent(db) && Resolve(db, cid, resolution, manual).Some?
    ensures Consistent(Resolve(db, cid, resolution, manual).value)
  {
    var c := db.conflicts[ConflictIndex(db.conflicts, cid).value];
    ResolutionWriteWellFormed(db.records, c, resolution, manual);
    ResolveEffect(db, cid, resolution, manual);
    ResolveRecords(db, cid, resolution, manual);
    var after := Resolve(db, cid, resolution, manual).value;
    var written := ResolutionWrite(db.records, c, resolution, manual);
    forall i | 0 <= i < |after.records| ensures WellFormed(after.records[i].mapped) {
      assert after.records[i].mapped == written[i].mapped;
    }
  }

  // ---------------------------------------------------------------------------------------
  // generate_payouts

  /** Record statuses under payout generation: a record either keeps its status or goes
      from validated to processed; nothing else about it changes. */
  ghost predicate PaidStatusOnly(before: seq<Record>, after: seq<Record>)
  {
    && |after| == |before|
    && forall i :: 0 <= i < |before| ==>
         && after[i] == before[i].(status := after[i].status)
         && (after[i].status == before[i].status || (before[i].status == Validated && after[i].status == Processed))
  }

  /** Payouts appended after `n`, each for one of `ids` and the carrier of a record of
      `records` with that id. */
  ghost predicate PaidFor(payouts: seq<Payout>, n: nat, ids: seq<Id>, records: seq<Record>)
  {
    forall k :: n <= k < |payouts| ==>
      && payouts[k].recordId in ids
      && exists i :: 0 <= i < |records| && records[i].id == payouts[k].recordId && records[i].carrierId == payouts[k].carrierId
  }

  /** With distinct ids, the first record with an id is the only one. */
  lemma RecordIndexOfDistinct(records: seq<Record>, j: nat)
    requires DistinctIds(records) && j < |records|
    ensures RecordIndex(records, records[j].id) == Some(j)
  {
  }

  /** One id: at most the record found validated becomes processed, and at most one payout
      is appended, for that record's id and carrier. With distinct ids the record marked
      processed is the one found validated. */
  lemma PayoutStepEffect(db: Db, id: Id)
    requires DistinctIds(db.records)
    ensures var after := PayoutStep(db, id);
      && after.uploads == db.uploads && after.conflicts == db.conflicts && after.nextId == db.nextId
      && PaidStatusOnly(db.records, after.records)
      && |db.payouts| <= |after.payouts| <= |db.payouts| + 1 && after.payouts[..|db.payouts|] == db.payouts
      && PaidFor(after.payouts, |db.payouts|, [id], db.records)
      && forall i :: 0 <= i < |after.records| && after.records[i].id == id ==> after.records[i].status != Validated
  {
    SetStatusEffect(db.records, id, Processed);
    match ValidatedIndex(db.records, id)
    case None =>
    case Some(j) => RecordIndexOfDistinct(db.records, j);
  }

  /** No record with one of `ids` is validated in `d`. */
  ghost predicate Cleared(d: Db, ids: seq<Id>)
  {
    forall x, i :: x in ids && 0 <= i < |d.records| && d.records[i].id == x ==> d.records[i].status != Validated
  }

  /** Payout generation, whether it completes or stops with an error, only moves records
      from validated to processed, keeps every other part of a record, and only appends
      payouts, each for one of the given ids and the carrier of a record with that id. */
  lemma {:induction false} PayoutAllEffect(db: Db, ids: seq<Id>)
    requires DistinctIds(db.records)
    ensures var after := PayoutAll(db, ids).db;
      && after.uploads == db.uploads && after.conflicts == db.conflicts && after.nextId == db.nextId
      && PaidStatusOnly(db.records, after.records)
      && |after.payouts| >= |db.payouts| && after.payouts[..|db.payouts|] == db.payouts
      && PaidFor(after.payouts, |db.payouts|, ids, db.records)
    decreases |ids|
  {
    if ids != [] {
      var init := ids[..|ids| - 1];
      var run := PayoutAll(db, init);
      var mid := run.db;
      PayoutAllEffect(db, init);
      assert forall x :: x in init ==> x in ids;
      var id := ids[|ids| - 1];
      if !run.aborted && !PayoutFails(mid, id) {
        assert DistinctIds(mid.records);
        var after := PayoutStep(mid, id);
        PayoutStepEffect(mid, id);
        assert after.payouts[..|db.payouts|] == mid.payouts[..|db.payouts|];
        forall k | |db.payouts| <= k < |after.payouts|
          ensures after.payouts[k].recordId in ids
          ensures exists i :: 0 <= i < |db.records| && db.records[i].id == after.payouts[k].recordId
                              && db.records[i].carrierId == after.payouts[k].carrierId
        {
          if k < |mid.payouts| {
            assert after.payouts[k] == mid.payouts[..|mid.payouts|][k];
          } else {
            var i :| 0 <= i < |mid.records| && mid.records[i].id == after.payouts[k].recordId
                     && mid.records[i].carrierId == after.payouts[k].carrierId;
            assert mid.records[i] == db.records[i].(status := mid.records[i].status);
          }
        }
      }
    }
  }

  /** A run that completes leaves no record with one of the ids validated. */
  lemma {:induction false} PayoutAllClears(db: Db, ids: seq<Id>)
    requires DistinctIds(db.records)
    ensures !PayoutAll(db, ids).aborted ==> Cleared(PayoutAll(db, ids).db, ids)
    decreases |ids|
  {
    if ids != [] && !PayoutAll(db, ids).aborted {
      var init := ids[..|ids| - 1];
      var mid := PayoutAll(db, init).db;
      PayoutAllEffect(db, init);
      PayoutAllClears(db, init);
      assert DistinctIds(mid.records);
      var id := ids[|ids| - 1];
      var after := PayoutStep(mid, id);
      PayoutStepEffect(mid, id);
      forall x, i | x in ids && 0 <= i < |after.records| && after.records[i].id == x
        ensures after.records[i].status != Validated
      {
        if x != id {
          assert x in init by {
            var p :| 0 <= p < |ids| && ids[p] == x;
            assert init[p] == x;
          }
        }
      }
    }
  }

  /** The run stops at position `k` of `ids`: the ids before it completed, the record of
      `ids[k]` is validated with an amount that does not convert, and the store is left as
      the earlier ids made it. */
  ghost predicate StopsAt(db: Db, ids: seq<Id>, k: int)
  {
    && 0 <= k < |ids|
    && !PayoutAll(db, ids[..k]).aborted
    && PayoutFails(PayoutAll(db, ids[..k]).db, ids[k])
    && PayoutAll(db, ids) == PayoutRun(PayoutAll(db, ids[..k]).db, true)
  }

  /** A run that ends in an error stopped at some id, and the store is as the ids before it
      left it. */
  lemma {:induction false} PayoutAbortStops(db: Db, ids: seq<Id>)
    ensures PayoutAll(db, ids).aborted ==> exists k :: StopsAt(db, ids, k)
    decreases |ids|
  {
    if ids != [] && PayoutAll(db, ids).aborted {
      var init := ids[..|ids| - 1];
      if PayoutAll(db, init).aborted {
        PayoutAbortStops(db, init);
        var k :| StopsAt(db, init, k);
        assert ids[..k] == init[..k] && ids[k] == init[k];
        assert StopsAt(db, ids, k);
      } else {
        assert StopsAt(db, ids, |ids| - 1);
      }
    }
  }

  /** What an aborted run leaves committed: the ids before the stop have their payouts and
      no validated record, the record at the stop stays validated with its amount that does
      not convert, and no later id has been looked at. */
  lemma PayoutAbortEffect(db: Db, ids: seq<Id>)
    requires DistinctIds(db.records)
    ensures var run := PayoutAll(db, ids);
      run.aborted ==>
        exists k ::
          && 0 <= k < |ids|
          && run.db == PayoutAll(db, ids[..k]).db
          && Cleared(run.db, ids[..k])
          && exists i :: 0 <= i < |run.db.records| && run.db.records[i].id == ids[k]
                         && run.db.records[i].status == Validated && !AmountConverts(run.db.records[i].mapped)
  {
    var run := PayoutAll(db, ids);
    if run.aborted {
      PayoutAbortStops(db, ids);
      var k :| StopsAt(db, ids, k);
      PayoutAllClears(db, ids[..k]);
      var j := ValidatedIndex(run.db.records, ids[k]).value;
      assert 0 <= j < |run.db.records| && run.db.records[j].id == ids[k]
             && run.db.records[j].status == Validated && !AmountConverts(run.db.records[j].mapped);
    }
  }

  /** Once a run has stopped, later ids change nothing. */
  lemma {:induction false} PayoutPrefix(db: Db, ids: seq<Id>, m: nat)
    requires m <= |ids| && PayoutAll(db, ids[..m]).aborted
    ensures PayoutAll(db, ids) == PayoutAll(db, ids[..m])
    decreases |ids|
  {
    if m < |ids| {
      var init := ids[..|ids| - 1];
      assert init[..m] == ids[..m];
      PayoutPrefix(db, init, m);
    } else {
      assert ids[..m] == ids;
    }
  }

  /** A payout exists for a record only if the record was validated: an id with no
      validated record creates nothing and changes nothing. */
  lemma PayoutSkipsUnvalidated(db: Db, id: Id)
    requires forall i :: 0 <= i < |db.records| ==> !(db.records[i].id == id && db.records[i].status == Validated)
    ensures PayoutStep(db, id) == db
    ensures !PayoutFails(db, id)
  {
  }

  /** A run over ids none of which has a validated record completes and changes nothing. */
  lemma {:induction false} PayoutAllNoop(db: Db, ids: seq<Id>)
    requires Cleared(db, ids)
    ensures PayoutAll(db, ids) == PayoutRun(db, false)
    decreases |ids|
  {
    if ids != [] {
      var init := ids[..|ids| - 1];
      assert forall x :: x in init ==> x in ids;
      PayoutAllNoop(db, init);
      assert ids[|ids| - 1] in ids;
      PayoutSkipsUnvalidated(db, ids[|ids| - 1]);
    }
  }

  /** With distinct record ids, generating payouts twice for the same ids creates nothing
      the second time: every record paid is processed and never validated again, and a run
      that stopped at an amount that does not convert stops there again. */
  lemma PayoutIdempotent(db: Db, ids: seq<Id>)
    requires DistinctIds(db.records)
    ensures PayoutAll(PayoutAll(db, ids).db, ids) == PayoutAll(db, ids)
  {
    var first := PayoutAll(db, ids);
    if !first.aborted {
      PayoutAllClears(db, ids);
      PayoutAllNoop(first.db, ids);
    } else {
      PayoutAbortStops(db, ids);
      var k :| StopsAt(db, ids, k);
      var d := first.db;
      PayoutAllClears(db, ids[..k]);
      PayoutAllNoop(d, ids[..k]);
      assert ids[..k + 1][..k] == ids[..k];
      assert PayoutAll(d, ids[..k + 1]) == PayoutRun(d, true);
      PayoutPrefix(d, ids, k + 1);
    }
  }

  lemma PayoutConsistent(db: Db, ids: seq<Id>)
    requires Consistent(db)
    ensures Consistent(PayoutAll(db, ids).db)
  {
    PayoutAllEffect(db, ids);
  }

  /** One validated record whose amount is a non-float string such as "$1,200". */
  function UnpaidRecord(id: Id): Record
  {
    Record(id, 0, 0, [], Mapped([("amount", Str("$1,200"))], []), Validated, [])
  }

  lemma DollarAmountDoesNotConvert()
    ensures !FloatText("$1,200")
  {
    var s := "$1,200";
    DollarAmountIsStripped();
    DollarAmountIsNotDecimal();
    assert !UnsignedFloat(s) by {
      assert |Lower(s)| == 6;
    }
    assert s[0] != '+' && s[0] != '-';
  }

  lemma DollarAmountIsStripped()
    ensures Strip("$1,200") == "$1,200"
  {
    var s := "$1,200";
    assert s[0] == '$' && s[5] == '0';
    StripKeeps(s);
  }

  lemma DollarAmountIsNotDecimal()
    ensures !DecimalText("$1,200")
  {
    var s := "$1,200";
    assert s == ['$', '1', ',', '2', '0', '0'];
    NoPointNoExponent(s);
    assert !IsDigit(s[0]);
  }

  /** A request for two ids, the first with amount 100 and the second with amount
      "$1,200", ends in an error after the first id is paid: its payout and its processed
      status stay, and the second record stays validated without a payout. */
  lemma PayoutPartialCommit()
    ensures var paid := Record(1, 0, 0, [], Mapped([("amount", Int(100))], []), Validated, []);
      var db := Db([], [], [paid, UnpaidRecord(2)], [], [], 3);
      var run := PayoutAll(db, [1, 2]);
      && run.aborted
      && run.db.payouts == [Payout(1, 0, "")]
      && run.db.records == [paid.(status := Processed), UnpaidRecord(2)]
  {
    var paid := Record(1, 0, 0, [], Mapped([("amount", Int(100))], []), Validated, []);
    var db := Db([], [], [paid, UnpaidRecord(2)], [], [], 3);
    var unpaid := UnpaidRecord(2);
    assert ValidatedIndex(db.records, 1) == Some(0);
    assert PayoutAmount(paid.mapped) == Int(100);
    assert !PayoutFails(db, 1);
    assert RecordIndex(db.records, 1) == Some(0);
    var records := [paid.(status := Processed), unpaid];
    assert SetStatus(db.records, 1, Processed) == records;
    var step := db.(payouts := [Payout(1, 0, "")], records := records);
    assert PayoutStep(db, 1) == step;
    assert [1, 2][..1] == [1] && [1][..0] == [];
    assert PayoutAll(db, [1]) == PayoutRun(step, false);
    assert ValidatedIndex(records, 2) == Some(1) by {
      assert records[1..] == [unpaid];
    }
    assert PayoutAmount(unpaid.mapped) == Str("$1,200");
    DollarAmountDoesNotConvert();
    assert PayoutFails(step, 2);
  }

  // ---------------------------------------------------------------------------------------
  // delete_upload

  /** Number of records of an upload. */
  function CountOfUpload(records: seq<Record>, uploadId: Id): nat
  {
    if records == [] then 0
    else CountOfUpload(records[..|records| - 1], uploadId) + (if records[|records| - 1].uploadId == uploadId then 1 else 0)
  }

  lemma {:induction false} KeepRecordsCount(records: seq<Record>, uploadId: Id)
    ensures |KeepRecords(records, uploadId)| + CountOfUpload(records, uploadId) == |records|
  {
    if records != [] {
      KeepRecordsCount(records[..|records| - 1], uploadId);
    }
  }

  /** Deletion keeps the store consistent. */
  lemma DeleteUploadConsistent(db: Db, uploadId: Id)
    requires Consistent(db) && DeleteUpload(db, uploadId).Some?
    ensures Consistent(DeleteUpload(db, uploadId).value.0)
  {
    KeepRecordsDistinct(db.records, uploadId);
    var u := UploadIndex(db.uploads, uploadId).value;
    var rest := db.uploads[..u] + db.uploads[u + 1..];
    assert forall x :: x in rest ==> x in db.uploads;
  }

  /** Deleting records of an upload keeps the others in order, so ids stay distinct. */
  lemma {:induction false} KeepRecordsDistinct(records: seq<Record>, uploadId: Id)
    requires DistinctIds(records)
    ensures DistinctIds(KeepRecords(records, uploadId))
  {
    if records != [] {
      var init := records[..|records| - 1];
      assert DistinctIds(init);
      KeepRecordsDistinct(init, uploadId);
      var kept := KeepRecords(init, uploadId);
      forall x | x in kept ensures x.id != records[|records| - 1].id {
        var i :| 0 <= i < |init| && init[i] == x;
      }
    }
  }

  /** Deletion fails exactly when no upload has the id. Otherwise no record or conflict of
      the upload remains, every other record and conflict does, the first upload with the
      id is gone while the others stay, and the count returned is the number of records the
      upload had. */
  lemma DeleteUploadEffect(db: Db, uploadId: Id)
    ensures DeleteUpload(db, uploadId).None? <==> forall u :: 0 <= u < |db.uploads| ==> db.uploads[u].id != uploadId
    ensures DeleteUpload(db, uploadId).Some? ==>
      var (after, count) := DeleteUpload(db, uploadId).value;
      var u := UploadIndex(db.uploads, uploadId).value;
      && (forall r :: r in after.records <==> r in db.records && r.uploadId != uploadId)
      && (forall c :: c in after.conflicts <==> c in db.conflicts && c.uploadId != uploadId)
      && after.uploads == db.uploads[..u] + db.uploads[u + 1..]
      && |after.uploads| + 1 == |db.uploads|
      && count == CountOfUpload(db.records, uploadId)
      && after.payouts == db.payouts && after.nextId == db.nextId
  {
    KeepRecordsCount(db.records, uploadId);
  }
}

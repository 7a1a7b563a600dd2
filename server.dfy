/** The request handlers of backend/server.py that change the store, carried out step by
    step on the collections as the handlers do it. Each collection is a sequence field of
    `Store`; each handler is a method whose effect is the matching function of
    `Lifecycle`, and which keeps the store `Consistent`. */
module Server {
  import opened Values
  import opened Dicts
  import opened FieldMapping
  import opened Records
  import opened Detection
  import opened Lifecycle
  import opened LifecycleProps

  class Store {
    var carriers: seq<Carrier>
    var uploads: seq<Upload>
    var records: seq<Record>
    var conflicts: seq<Conflict>
    var payouts: seq<Payout>
    /** Source of fresh ids, standing for `uuid.uuid4()`. */
    var nextId: nat

    function State(): Db
      reads this
    {
      Db(carriers, uploads, records, conflicts, payouts, nextId)
    }

    ghost predicate Valid()
      reads this
    {
      Consistent(State())
    }

    /** An empty store with the given carrier configurations; ids are drawn from 0. */
    constructor(carriers: seq<Carrier>)
      ensures Valid()
      ensures State() == Db(carriers, [], [], [], [], 0)
    {
      this.carriers := carriers;
      uploads := [];
      records := [];
      conflicts := [];
      payouts := [];
      nextId := 0;
    }

    /** `create_upload` after extraction: looks the carrier up, stores the upload as
        processing, then for every row maps it, detects against the stored records,
        inserts one conflict document per finding and then the record, and finally marks
        the upload completed with its counts. None when the carrier is unknown. */
    method CreateUpload(carrierId: Id, rows: seq<Dict>) returns (r: Option<Upload>)
      requires Valid()
      modifies this
      ensures Valid()
      ensures CarrierIndex(old(carriers), carrierId).None? ==> r.None? && State() == old(State())
      ensures CarrierIndex(old(carriers), carrierId).Some? ==>
        var (after, u) := StoreUpload(old(State()), old(carriers)[CarrierIndex(old(carriers), carrierId).value], rows);
        r == Some(u) && State() == after
    {
      var ci := CarrierIndex(carriers, carrierId);
      if ci.None? {
        return None;
      }
      var carrier := carriers[ci.value];
      ghost var db0 := State();
      var uploadId := nextId;
      var before := uploads;
      uploads := uploads + [Upload(uploadId, carrierId, Processing, 0, 0, 0)];
      nextId := nextId + 1;
      assert State() == StartUpload(db0, carrier.id);
      var conflictCount := StoreRows(uploadId, carrier, rows);
      ghost var ingested := State();
      CreateUploadConsistent(db0, carrier, rows);
      var done := Upload(uploadId, carrierId, Completed, |rows|, |rows|, conflictCount);
      uploads := before + [done];
      r := Some(done);
      ghost var expected := StoreUpload(db0, carrier, rows);
      assert ingested == IngestAll(StartUpload(db0, carrier.id), db0.nextId, carrier, rows);
      assert expected.1 == done;
      assert expected.0 == ingested.(uploads := before + [done]);
    }

    /** The row loop of the upload, in file order; returns the number of findings. */
    method StoreRows(uploadId: Id, carrier: Carrier, rows: seq<Dict>) returns (conflictCount: nat)
      modifies this
      ensures State() == IngestAll(old(State()), uploadId, carrier, rows)
      ensures |conflicts| == |old(conflicts)| + conflictCount
    {
      ghost var started := State();
      conflictCount := 0;
      for i := 0 to |rows|
        invariant State() == IngestAll(started, uploadId, carrier, rows[..i])
        invariant |conflicts| == |started.conflicts| + conflictCount
      {
        assert rows[..i + 1][..i] == rows[..i];
        var found := StoreRow(uploadId, carrier, rows[i]);
        conflictCount := conflictCount + found;
      }
      assert rows[..|rows|] == rows;
    }

    /** One turn of the row loop: the record of `row` is inserted after the conflict
        documents of its findings; returns the number of findings. */
    method StoreRow(uploadId: Id, carrier: Carrier, row: Dict) returns (found: nat)
      modifies this
      ensures State() == IngestRow(old(State()), uploadId, carrier, row)
      ensures |conflicts| == |old(conflicts)| + found
    {
      var recordId := nextId;
      var record := BuildRecord(recordId, uploadId, carrier, row);
      nextId := nextId + 1;
      if record.findings != [] {
        InsertConflicts(record.findings, recordId, uploadId);
      }
      records := records + [record];
      found := |record.findings|;
    }

    /** The record document of `row`: its mapped data, the findings of detection against
        the stored records, and status conflict iff there are findings. */
    method BuildRecord(recordId: Id, uploadId: Id, carrier: Carrier, row: Dict) returns (record: Record)
      ensures record == RowRecord(records, recordId, uploadId, carrier, row)
    {
      var mapped := ApplyFieldMappings(row, carrier.fieldMappings);
      var findings := Detect(records, mapped, carrier.id, carrier.primaryKeyFields);
      var status := Pending;
      if findings != [] {
        status := InConflict;
      }
      record := Record(recordId, uploadId, carrier.id, row, mapped, status, findings);
    }

    /** The inner loop of the upload: one conflict document per finding, each with a fresh
        id. */
    method InsertConflicts(findings: seq<Finding>, recordId: Id, uploadId: Id)
      modifies this
      ensures conflicts == old(conflicts) + NewConflicts(findings, recordId, uploadId, old(nextId))
      ensures nextId == old(nextId) + |findings|
      ensures carriers == old(carriers) && uploads == old(uploads) && records == old(records) && payouts == old(payouts)
    {
      for k := 0 to |findings|
        invariant conflicts == old(conflicts) + NewConflicts(findings, recordId, uploadId, old(nextId))[..k]
        invariant nextId == old(nextId) + k
        invariant carriers == old(carriers) && uploads == old(uploads) && records == old(records) && payouts == old(payouts)
      {
        assert NewConflicts(findings, recordId, uploadId, old(nextId))[..k + 1]
            == NewConflicts(findings, recordId, uploadId, old(nextId))[..k] + [ConflictFor(findings[k], nextId, recordId, uploadId)];
        conflicts := conflicts + [ConflictFor(findings[k], nextId, recordId, uploadId)];
        nextId := nextId + 1;
      }
      assert NewConflicts(findings, recordId, uploadId, old(nextId))[..|findings|] == NewConflicts(findings, recordId, uploadId, old(nextId));
    }

    /** `validate_record`: false (not found) when no record has the id. */
    method ValidateRecord(id: Id) returns (found: bool)
      requires Valid()
      modifies this
      ensures Valid()
      ensures Validate(old(State()), id).None? ==> !found && State() == old(State())
      ensures Validate(old(State()), id).Some? ==> found && State() == Validate(old(State()), id).value
    {
      var i := RecordIndex(records, id);
      if i.None? {
        return false;
      }
      records := records[i.value := records[i.value].(status := Validated)];
      conflicts := MarkConflicts(conflicts, id, Resolved);
      found := true;
    }

    /** `reject_record`: no existence check. */
    method RejectRecord(id: Id)
      requires Valid()
      modifies this
      ensures Valid()
      ensures State() == Reject(old(State()), id)
    {
      records := SetStatus(records, id, Rejected);
      conflicts := MarkConflicts(conflicts, id, Dismissed);
    }

    /** `resolve_conflict`: false (not found) when no conflict has the id. */
    method ResolveConflict(cid: Id, resolution: string, manual: Cell) returns (found: bool)
      requires Valid()
      modifies this
      ensures Valid()
      ensures Resolve(old(State()), cid, resolution, manual).None? ==> !found && State() == old(State())
      ensures Resolve(old(State()), cid, resolution, manual).Some? ==>
        found && State() == Resolve(old(State()), cid, resolution, manual).value
    {
      var ci := ConflictIndex(conflicts, cid);
      if ci.None? {
        return false;
      }
      ResolveConsistent(State(), cid, resolution, manual);
      var c := conflicts[ci.value];
      conflicts := conflicts[ci.value := c.(status := Resolved, resolution := Some(resolution))];
      if resolution == AcceptNew {
        records := WriteField(records, c.recordId, c.fieldName, c.newValue);
      } else if resolution == Manual && manual != Null {
        records := WriteField(records, c.recordId, c.fieldName, manual);
      }
      var remaining := OpenCount(conflicts, c.recordId);
      if remaining == 0 {
        records := SetStatus(records, c.recordId, Pending);
      }
      found := true;
    }

    /** `generate_payouts` (status part): for each id in turn, a validated record with it
        gets a payout and becomes processed; returns the number of payouts created. When
        the amount of such a record does not convert, the request stops with an error
        (`aborted`), and what the earlier ids wrote stays. */
    method GeneratePayouts(ids: seq<Id>) returns (created: nat, aborted: bool)
      requires Valid()
      modifies this
      ensures Valid()
      ensures State() == PayoutAll(old(State()), ids).db
      ensures aborted == PayoutAll(old(State()), ids).aborted
      ensures |payouts| == |old(payouts)| + created
    {
      ghost var db0 := State();
      created := 0;
      aborted := false;
      for i := 0 to |ids|
        invariant State() == PayoutAll(db0, ids[..i]).db && !PayoutAll(db0, ids[..i]).aborted
        invariant |payouts| == |db0.payouts| + created
        invariant Valid()
      {
        assert ids[..i + 1][..i] == ids[..i];
        PayoutConsistent(db0, ids[..i + 1]);
        var id := ids[i];
        var j := ValidatedIndex(records, id);
        if j.Some? {
          var record := records[j.value];
          if !AmountConverts(record.mapped) {
            PayoutPrefix(db0, ids, i + 1);
            aborted := true;
            return;
          }
          payouts := payouts + [Payout(id, record.carrierId, PolicyNumber(record.mapped))];
          created := created + 1;
          records := SetStatus(records, id, Processed);
        }
      }
      assert ids[..|ids|] == ids;
    }

    /** `delete_upload`: None (not found) when no upload has the id; otherwise the number
        of records deleted. */
    method DeleteUpload(uploadId: Id) returns (deleted: Option<nat>)
      requires Valid()
      modifies this
      ensures Valid()
      ensures Lifecycle.DeleteUpload(old(State()), uploadId).None? ==> deleted.None? && State() == old(State())
      ensures Lifecycle.DeleteUpload(old(State()), uploadId).Some? ==>
        && deleted == Some(Lifecycle.DeleteUpload(old(State()), uploadId).value.1)
        && State() == Lifecycle.DeleteUpload(old(State()), uploadId).value.0
    {
      var u := UploadIndex(uploads, uploadId);
      if u.None? {
        return None;
      }
      DeleteUploadConsistent(State(), uploadId);
      ghost var expected := Lifecycle.DeleteUpload(State(), uploadId).value;
      var i := u.value;
      var kept := KeepRecords(records, uploadId);
      var count := |records| - |kept|;
      conflicts := KeepConflicts(conflicts, uploadId);
      records := kept;
      uploads := uploads[..i] + uploads[i + 1..];
      assert State() == expected.0 && count == expected.1;
      deleted := Some(count);
    }
  }
}

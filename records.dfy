/** The documents the reconciliation core stores: uploads, extracted records, conflicts and
    payouts, and the carrier configuration it reads. Generated UUIDs are abstract ids,
    timestamps are left out. */
module Records {
  import opened Values
  import opened Dicts
  import opened FieldMapping

  type Id = nat

  /** `extracted_records.status`: "pending", "conflict", "validated", "rejected", "processed". */
  datatype RecordStatus = Pending | InConflict | Validated | Rejected | Processed

  /** `conflicts.status`: "pending" (Open), "resolved", "rejected" (Dismissed). */
  datatype ConflictStatus = Open | Resolved | Dismissed

  /** `conflicts.conflict_type`: "mismatch" or "duplicate". */
  datatype Kind = MismatchKind | DuplicateKind

  /** One entry of the list `detect_conflicts` returns, also kept on the new record. */
  datatype Finding =
    | Mismatch(field: string, existingValue: Cell, newValue: Cell, existingId: Id)
    | Duplicate(existingId: Id)
  {
    /** `conflict["field"]`: a duplicate names the field "record". */
    function Field(): string
    {
      if Mismatch? then field else "record"
    }
  }

  /** A carrier's configuration, as the upload reads it. */
  datatype Carrier = Carrier(id: Id, fieldMappings: Mappings, primaryKeyFields: seq<string>)

  datatype UploadStatus = Processing | Completed

  datatype Upload = Upload(id: Id, carrierId: Id, status: UploadStatus,
                           totalRecords: nat, processedRecords: nat, conflictCount: nat)

  /** A document of `extracted_records`. */
  datatype Record = Record(id: Id, uploadId: Id, carrierId: Id, raw: Dict, mapped: Mapped,
                           status: RecordStatus, findings: seq<Finding>)

  /** A document of `conflicts`. A duplicate carries None (Null) as both values. */
  datatype Conflict = Conflict(id: Id, recordId: Id, uploadId: Id, existingRecordId: Id,
                               kind: Kind, fieldName: string, currentValue: Cell, newValue: Cell,
                               status: ConflictStatus, resolution: Option<string>)

  /** The part of a payout document the model keeps; amounts are floating point. */
  datatype Payout = Payout(recordId: Id, carrierId: Id, policyNumber: string)

  /** The conflict document created for one finding of a new record. */
  function ConflictFor(f: Finding, id: Id, recordId: Id, uploadId: Id): (c: Conflict)
    ensures c.status == Open && c.recordId == recordId && c.uploadId == uploadId
    ensures c.existingRecordId == f.existingId && c.fieldName == f.Field()
    ensures c.kind == MismatchKind <==> f.Mismatch?
    ensures c.id == id && c.resolution == None
    ensures f.Mismatch? ==> c.currentValue == f.existingValue && c.newValue == f.newValue
    ensures f.Duplicate? ==> c.currentValue == Null && c.newValue == Null
  {
    match f
    case Mismatch(field, current, incoming, existing) =>
      Conflict(id, recordId, uploadId, existing, MismatchKind, field, current, incoming, Open, None)
    case Duplicate(existing) =>
      Conflict(id, recordId, uploadId, existing, DuplicateKind, "record", Null, Null, Open, None)
  }
}

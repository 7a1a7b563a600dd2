/** `_get_conflict_reason` (backend/server.py): the explanation shown with a conflict,
    chosen by its type. */
module Reasons {
  import opened Values
  import opened Records

  /** `conflict_type` as stored. */
  function KindName(k: Kind): string
  {
    match k
    case MismatchKind => "mismatch"
    case DuplicateKind => "duplicate"
  }

  const MismatchPrefix := "The field '"
  const MismatchSuffix := "' has different values in the existing record vs the new upload. This happens when the same record (matched by primary key) has conflicting data."
  const DuplicateReason := "A record with the same primary key values already exists. This could be a true duplicate or an update to existing data."
  const GenericReason := "Data conflict detected between existing and newly uploaded records."

  /** The message for a conflict document whose `conflict_type` and `field_name` may be
      missing: "unknown" and "unknown field" stand in for them. */
  function Reason(ctype: Option<string>, field: Option<string>): (msg: string)
  {
    var t := if ctype.Some? then ctype.value else "unknown";
    var f := if field.Some? then field.value else "unknown field";
    if t == "mismatch" then MismatchPrefix + f + MismatchSuffix
    else if t == "duplicate" then DuplicateReason
    else GenericReason
  }

  /** The message for a stored conflict. */
  function ConflictReason(c: Conflict): string
  {
    Reason(Some(KindName(c.kind)), Some(c.fieldName))
  }

  /** A mismatch message quotes the field between the fixed prefix and suffix, so it names
      the field and no other; a duplicate message is the same whatever the field; a stored
      conflict never gets the generic message. */
  lemma ReasonIdentifiesField(c: Conflict, d: Conflict)
    ensures c.kind == MismatchKind ==>
      var msg := ConflictReason(c);
      && msg[..|MismatchPrefix|] == MismatchPrefix
      && msg[|MismatchPrefix|..|MismatchPrefix| + |c.fieldName|] == c.fieldName
      && msg[|MismatchPrefix| + |c.fieldName|..] == MismatchSuffix
    ensures c.kind == MismatchKind && d.kind == MismatchKind ==>
      (ConflictReason(c) == ConflictReason(d) <==> c.fieldName == d.fieldName)
    ensures c.kind == DuplicateKind ==> ConflictReason(c) == DuplicateReason
    ensures ConflictReason(c) != GenericReason
  {
    var n := |MismatchPrefix|;
    if c.kind == MismatchKind {
      var msg := ConflictReason(c);
      assert msg == MismatchPrefix + c.fieldName + MismatchSuffix;
      assert msg[n..n + |c.fieldName|] == c.fieldName;
      assert msg[n + |c.fieldName|..] == MismatchSuffix;
      assert |msg| > |GenericReason|;
      if d.kind == MismatchKind && ConflictReason(c) == ConflictReason(d) {
        var other := ConflictReason(d);
        assert |msg| == |other|;
        assert |c.fieldName| == |d.fieldName|;
        assert other[n..n + |d.fieldName|] == d.fieldName;
      }
    } else {
      assert |DuplicateReason| != |GenericReason|;
    }
  }
}

/** `detect_conflicts` (backend/server.py): the store query that picks an existing record for
    a new one, and the field-by-field comparison against it. The Mongo collection is the
    sequence of stored records in insertion order, and `find_one` returns the first
    record the query matches in that order. */
module Detection {
  import opened Values
  import opened Dicts
  import opened FieldMapping
  import opened Records

  /** `pk in mapped_data` for the new record: only such key fields enter the query. */
  predicate KeyPresent(m: Mapped, pk: string)
  {
    pk == RawKey || HasKey(m.fields, pk)
  }

  /** The condition `{"mapped_data.<pk>": <new value>}` on a stored record. Mongo equality
      is typed (the int 5 does not equal the string "5"), a query for None also matches a
      record lacking the field, and the raw rows compare as ordered documents. */
  predicate KeyAgrees(stored: Mapped, incoming: Mapped, pk: string)
  {
    if pk == RawKey then stored.raw == incoming.raw
    else match Get(incoming.fields, pk)
      case None => false
      case Some(Null) => ValueOr(stored.fields, pk) == Null
      case Some(v) => Get(stored.fields, pk) == Some(v)
  }

  /** The whole query: same carrier, status validated or pending, and EITHER one of the key
      fields present in the new data agrees ($or), OR, when no key field is present (or
      the key list is empty), no key condition at all. */
  predicate IsCandidate(r: Record, carrierId: Id, pks: seq<string>, incoming: Mapped)
  {
    && r.carrierId == carrierId
    && (r.status == Validated || r.status == Pending)
    && ((forall k :: 0 <= k < |pks| ==> !KeyPresent(incoming, pks[k]))
        || exists k :: 0 <= k < |pks| && KeyPresent(incoming, pks[k]) && KeyAgrees(r.mapped, incoming, pks[k]))
  }

  function FirstCandidateFrom(records: seq<Record>, carrierId: Id, pks: seq<string>, incoming: Mapped, from: nat): (r: Option<nat>)
    requires from <= |records|
    ensures r.Some? ==> from <= r.value < |records| && IsCandidate(records[r.value], carrierId, pks, incoming)
    ensures r.Some? ==> forall i {:trigger IsCandidate(records[i], carrierId, pks, incoming)} :: from <= i < r.value ==> !IsCandidate(records[i], carrierId, pks, incoming)
    ensures r.None? ==> forall i {:trigger IsCandidate(records[i], carrierId, pks, incoming)} :: from <= i < |records| ==> !IsCandidate(records[i], carrierId, pks, incoming)
    decreases |records| - from
  {
    if from == |records| then None
    else if IsCandidate(records[from], carrierId, pks, incoming) then Some(from)
    else FirstCandidateFrom(records, carrierId, pks, incoming, from + 1)
  }

  /** `find_one`: the position of the first stored record the query matches. */
  function FindMatch(records: seq<Record>, carrierId: Id, pks: seq<string>, incoming: Mapped): (r: Option<nat>)
    ensures r.Some? ==> r.value < |records| && IsCandidate(records[r.value], carrierId, pks, incoming)
    ensures r.Some? ==> forall i {:trigger IsCandidate(records[i], carrierId, pks, incoming)} :: 0 <= i < r.value ==> !IsCandidate(records[i], carrierId, pks, incoming)
    ensures r.None? <==> forall i {:trigger IsCandidate(records[i], carrierId, pks, incoming)} :: 0 <= i < |records| ==> !IsCandidate(records[i], carrierId, pks, incoming)
  {
    FirstCandidateFrom(records, carrierId, pks, incoming, 0)
  }

  /** Whether the new value of `field` is reported against the stored record: the field is
      not internal (`_`), both values are non-null, and their `str` forms differ. */
  predicate Differs(stored: Mapped, field: string, v: Cell)
  {
    && !Hidden(field)
    && ValueOr(stored.fields, field) != Null
    && v != Null
    && Show(ValueOr(stored.fields, field)) != Show(v)
  }

  /** The comparison loop: one mismatch per entry of the new data that differs, in the
      order of the new data. */
  function Mismatches(stored: Record, d: Dict): (r: seq<Finding>)
    ensures forall i :: 0 <= i < |r| ==>
      && r[i].Mismatch? && r[i].existingId == stored.id
      && r[i].field in Keys(d)
      && (r[i].field, r[i].newValue) in d
      && Differs(stored.mapped, r[i].field, r[i].newValue)
      && r[i].existingValue == ValueOr(stored.mapped.fields, r[i].field)
    ensures forall k :: 0 <= k < |d| && Differs(stored.mapped, d[k].0, d[k].1) ==>
      Mismatch(d[k].0, ValueOr(stored.mapped.fields, d[k].0), d[k].1, stored.id) in r
    ensures DistinctKeys(d) ==> forall i, j :: 0 <= i < j < |r| ==> r[i].field != r[j].field
  {
    if d == [] then []
    else
      var rest := Mismatches(stored, d[1..]);
      assert forall k :: 1 <= k < |d| ==> d[k] == d[1..][k - 1];
      if Differs(stored.mapped, d[0].0, d[0].1) then
        [Mismatch(d[0].0, ValueOr(stored.mapped.fields, d[0].0), d[0].1, stored.id)] + rest
      else rest
  }

  /** `detect_conflicts`: nothing when no stored record matches; otherwise the mismatches
      against the matched record, or a single duplicate when there are none. */
  function Detect(records: seq<Record>, incoming: Mapped, carrierId: Id, pks: seq<string>): (r: seq<Finding>)
    ensures r == [] <==> forall i {:trigger IsCandidate(records[i], carrierId, pks, incoming)} :: 0 <= i < |records| ==> !IsCandidate(records[i], carrierId, pks, incoming)
    ensures forall f :: f in r ==> f.Field() != RawKey && (f.Mismatch? ==> !Hidden(f.field))
    ensures (forall f :: f in r ==> f.Mismatch?) || (|r| == 1 && r[0].Duplicate?)
  {
    match FindMatch(records, carrierId, pks, incoming)
    case None => []
    case Some(j) =>
      var ms := Mismatches(records[j], incoming.fields);
      if ms == [] then [Duplicate(records[j].id)] else ms
  }

  /** Whether `r` holds a mismatch on `field`. */
  predicate ReportsField(r: seq<Finding>, field: string)
  {
    exists i :: 0 <= i < |r| && r[i].Mismatch? && r[i].field == field
  }

  /** Over new data with distinct keys, a field is reported exactly when it differs. */
  lemma MismatchesExact(stored: Record, d: Dict, k: nat)
    requires DistinctKeys(d) && k < |d|
    ensures Differs(stored.mapped, d[k].0, d[k].1) <==> ReportsField(Mismatches(stored, d), d[k].0)
  {
    var ms := Mismatches(stored, d);
    if Differs(stored.mapped, d[k].0, d[k].1) {
      var f := Mismatch(d[k].0, ValueOr(stored.mapped.fields, d[k].0), d[k].1, stored.id);
      var i :| 0 <= i < |ms| && ms[i] == f;
    }
    if ReportsField(ms, d[k].0) {
      var i :| 0 <= i < |ms| && ms[i].Mismatch? && ms[i].field == d[k].0;
      var k' :| 0 <= k' < |d| && d[k'] == (d[k].0, ms[i].newValue);
      DistinctAt(d, k, k');
    }
  }

  /** What the findings say when some record matched: the matched record is the first
      candidate (same carrier, validated or pending, agreeing on a present key field); all
      findings refer to it; with the new data's keys distinct, a field is reported as a
      mismatch exactly when it differs, at most once; and the result is a single duplicate
      exactly when no field differs. */
  lemma DetectAgainstMatch(records: seq<Record>, incoming: Mapped, carrierId: Id, pks: seq<string>)
    requires WellFormed(incoming)
    requires Detect(records, incoming, carrierId, pks) != []
    ensures FindMatch(records, carrierId, pks, incoming).Some?
    ensures forall f :: f in Detect(records, incoming, carrierId, pks) ==> f.existingId == records[FindMatch(records, carrierId, pks, incoming).value].id
    ensures forall k :: 0 <= k < |incoming.fields| ==>
      (Differs(records[FindMatch(records, carrierId, pks, incoming).value].mapped, incoming.fields[k].0, incoming.fields[k].1) <==>
       ReportsField(Detect(records, incoming, carrierId, pks), incoming.fields[k].0))
    ensures var r := Detect(records, incoming, carrierId, pks);
      forall i1, i2 :: 0 <= i1 < i2 < |r| ==> r[i1].Field() != r[i2].Field()
    ensures (Detect(records, incoming, carrierId, pks) == [Duplicate(records[FindMatch(records, carrierId, pks, incoming).value].id)]) <==>
      forall k :: 0 <= k < |incoming.fields| ==> !Differs(records[FindMatch(records, carrierId, pks, incoming).value].mapped, incoming.fields[k].0, incoming.fields[k].1)
  {
    var j := FindMatch(records, carrierId, pks, incoming).value;
    var d := incoming.fields;
    var ms := Mismatches(records[j], d);
    forall k | 0 <= k < |d|
      ensures Differs(records[j].mapped, d[k].0, d[k].1) <==> ReportsField(ms, d[k].0)
    {
      MismatchesExact(records[j], d, k);
    }
    if ms == [] {
      assert !ReportsField([Duplicate(records[j].id)], "record");
    } else {
      var k :| 0 <= k < |d| && d[k] == (ms[0].field, ms[0].newValue);
      assert Differs(records[j].mapped, d[k].0, d[k].1);
    }
  }

  lemma {:induction false} DistinctAt(d: Dict, k: nat, k': nat)
    requires DistinctKeys(d) && k < |d| && k' < |d| && d[k].0 == d[k'].0
    ensures k == k'
  {
    if k > 0 && k' > 0 {
      DistinctAt(d[1..], k - 1, k' - 1);
    } else if k != k' {
      var other := if k == 0 then k' else k;
      assert d[1..][other - 1].0 == d[0].0;
      assert d[0].0 in Keys(d[1..]) by { KeysAt(d[1..], d[0].0); }
    }
  }

  /** Records in conflict, rejected or already processed are never a match target. */
  lemma OnlyStagedRecordsMatch(records: seq<Record>, incoming: Mapped, carrierId: Id, pks: seq<string>, i: nat)
    requires i < |records|
    requires records[i].status !in {Validated, Pending}
    ensures !IsCandidate(records[i], carrierId, pks, incoming)
    ensures FindMatch(records, carrierId, pks, incoming) != Some(i)
  {
  }

  /** With an empty key list, the first same-carrier pending or validated record matches,
      whatever its field values: every such upload row is reported as a conflict. */
  lemma EmptyKeyListMatchesAnyStaged(records: seq<Record>, incoming: Mapped, carrierId: Id, j: nat)
    requires j < |records| && records[j].carrierId == carrierId
    requires records[j].status == Pending || records[j].status == Validated
    ensures Detect(records, incoming, carrierId, []) != []
  {
    assert IsCandidate(records[j], carrierId, [], incoming);
  }

  /** Matching is an OR over the present key fields: one agreeing key field is enough,
      however much the others differ. */
  lemma OneAgreeingKeySuffices(r: Record, carrierId: Id, pks: seq<string>, incoming: Mapped, k: nat)
    requires r.carrierId == carrierId && (r.status == Pending || r.status == Validated)
    requires k < |pks| && KeyPresent(incoming, pks[k]) && KeyAgrees(r.mapped, incoming, pks[k])
    ensures IsCandidate(r, carrierId, pks, incoming)
  {
  }
}

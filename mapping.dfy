/** `apply_field_mappings` (backend/server.py): a raw row, keyed by the carrier's own column
    names, becomes a record's `mapped_data`, keyed by standard field names. */
module FieldMapping {
  import opened Values
  import opened Dicts

  /** A carrier's `field_mappings`: source column to standard field, in dict order. */
  type Mappings = seq<(string, string)>

  /** The key under which `mapped_data` keeps the whole raw row. */
  const RawKey: string := "_raw"

  /** A record's `mapped_data`. Its `"_raw"` entry is held apart in `raw`, so `fields`
      never has that key; the position of `"_raw"` among the keys is never observed, since
      every reader of `mapped_data` skips keys that start with `_`. */
  datatype Mapped = Mapped(fields: Dict, raw: Dict)

  predicate WellFormed(m: Mapped)
  {
    !HasKey(m.fields, RawKey) && DistinctKeys(m.fields)
  }

  /** The first column of `row` equal to `column` ignoring case. */
  predicate CaseMatch(row: Dict, i: int, column: string)
    requires 0 <= i < |row|
  {
    Lower(row[i].0) == Lower(column)
  }

  function FirstCaseInsensitive(row: Dict, column: string): (r: Option<Cell>)
    ensures r.None? <==> forall i :: 0 <= i < |row| ==> !CaseMatch(row, i, column)
    ensures r.Some? ==> exists i :: 0 <= i < |row| && CaseMatch(row, i, column) && row[i].1 == r.value
                                    && forall j :: 0 <= j < i ==> !CaseMatch(row, j, column)
  {
    if row == [] then None
    else if Lower(row[0].0) == Lower(column) then
      assert CaseMatch(row, 0, column);
      Some(row[0].1)
    else
      var r := FirstCaseInsensitive(row[1..], column);
      assert forall i :: 1 <= i < |row| ==> (CaseMatch(row, i, column) <==> CaseMatch(row[1..], i - 1, column));
      if r.Some? then
        var i :| 0 <= i < |row[1..]| && CaseMatch(row[1..], i, column) && row[1..][i].1 == r.value
                 && forall j :: 0 <= j < i ==> !CaseMatch(row[1..], j, column);
        assert CaseMatch(row, i + 1, column) && row[i + 1].1 == r.value;
        assert forall j :: 0 <= j < i + 1 ==> !CaseMatch(row, j, column);
        r
      else
        r
  }

  /** The value one mapping entry picks out of a row: the column of that exact name if the
      row has it, else the first column equal to it ignoring case. */
  function Lookup(row: Dict, column: string): (r: Option<Cell>)
    ensures r.Some? <==> exists i :: 0 <= i < |row| && CaseMatch(row, i, column)
    ensures HasKey(row, column) ==> r == Get(row, column)
    ensures !HasKey(row, column) ==> r == FirstCaseInsensitive(row, column)
  {
    if HasKey(row, column) then
      KeysAt(row, column);
      var i :| 0 <= i < |row| && row[i].0 == column;
      assert CaseMatch(row, i, column);
      Get(row, column)
    else FirstCaseInsensitive(row, column)
  }

  /** One turn of the loop over the mappings. */
  function Step(acc: Dict, row: Dict, m: (string, string)): Dict
  {
    match Lookup(row, m.0)
    case Some(v) => Put(acc, m.1, v)
    case None => acc
  }

  function MapInto(acc: Dict, row: Dict, ms: Mappings): (r: Dict)
    ensures DistinctKeys(acc) ==> DistinctKeys(r)
    decreases |ms|
  {
    if ms == [] then acc else MapInto(Step(acc, row, ms[0]), row, ms[1..])
  }

  /** Reference reading of the mapping: the value of the LAST entry that targets `field`
      and finds its column in the row; later entries overwrite earlier ones. */
  function LastMatch(row: Dict, ms: Mappings, field: string): Option<Cell>
  {
    if ms == [] then None
    else
      var later := LastMatch(row, ms[1..], field);
      if later.Some? then later
      else if ms[0].1 == field then Lookup(row, ms[0].0)
      else None
  }

  lemma {:induction false} MapIntoGet(acc: Dict, row: Dict, ms: Mappings, field: string)
    ensures Get(MapInto(acc, row, ms), field)
         == if LastMatch(row, ms, field).Some? then LastMatch(row, ms, field) else Get(acc, field)
    decreases |ms|
  {
    if ms != [] {
      MapIntoGet(Step(acc, row, ms[0]), row, ms[1..], field);
    }
  }

  /** The mapped data of a raw row: for every standard field, the value of the last mapping
      entry that targets it and finds its column; no key where no such entry exists; and
      the raw row itself under `"_raw"`, whatever the mappings say about that name. */
  function ApplyFieldMappings(row: Dict, ms: Mappings): (m: Mapped)
    ensures WellFormed(m)
    ensures m.raw == row
    ensures forall field :: Get(m.fields, field) == if field == RawKey then None else LastMatch(row, ms, field)
  {
    var fields := MapInto([], row, ms);
    forall field ensures Get(fields, field) == LastMatch(row, ms, field) {
      MapIntoGet([], row, ms, field);
    }
    Mapped(Remove(fields, RawKey), row)
  }

  /** `LastMatch` finds a value only through an entry that targets the field and whose
      column the row has, exactly or ignoring case. */
  lemma {:induction false} LastMatchSource(row: Dict, ms: Mappings, field: string)
    requires LastMatch(row, ms, field).Some?
    ensures exists j :: 0 <= j < |ms| && ms[j].1 == field && Lookup(row, ms[j].0) == LastMatch(row, ms, field)
  {
    if LastMatch(row, ms[1..], field).Some? {
      LastMatchSource(row, ms[1..], field);
      var j :| 0 <= j < |ms[1..]| && ms[1..][j].1 == field && Lookup(row, ms[1..][j].0) == LastMatch(row, ms[1..], field);
      assert ms[j + 1] == ms[1..][j];
    } else {
      assert ms[0].1 == field;
    }
  }

  lemma {:induction false} LastMatchOfLastEntry(row: Dict, ms: Mappings, i: nat)
    requires i < |ms|
    requires Lookup(row, ms[i].0).Some?
    requires forall j :: i < j < |ms| ==> ms[j].1 != ms[i].1
    ensures LastMatch(row, ms, ms[i].1) == Lookup(row, ms[i].0)
  {
    if i > 0 {
      assert ms[1..][i - 1] == ms[i];
      LastMatchOfLastEntry(row, ms[1..], i - 1);
    } else {
      assert LastMatch(row, ms[1..], ms[0].1) == None by {
        if LastMatch(row, ms[1..], ms[0].1).Some? {
          LastMatchSource(row, ms[1..], ms[0].1);
        }
      }
    }
  }

  /** The entry-by-entry reading of the mapping, for a carrier whose mapping has no later
      entry for the same standard field: the field holds the row's value of the entry's
      column (exact name first, else the first match ignoring case); an entry whose column
      the row lacks adds nothing; `"_raw"` always holds the row. */
  lemma MappedEntry(row: Dict, ms: Mappings, i: nat)
    requires i < |ms| && ms[i].1 != RawKey
    requires forall j :: i < j < |ms| ==> ms[j].1 != ms[i].1
    ensures Lookup(row, ms[i].0).Some? ==> Get(ApplyFieldMappings(row, ms).fields, ms[i].1) == Lookup(row, ms[i].0)
    ensures HasKey(row, ms[i].0) ==> Get(ApplyFieldMappings(row, ms).fields, ms[i].1) == Get(row, ms[i].0)
    ensures ApplyFieldMappings(row, ms).raw == row
  {
    if Lookup(row, ms[i].0).Some? {
      LastMatchOfLastEntry(row, ms, i);
    }
  }

  /** A field is present in the mapped data only if some mapping entry targets it and
      finds its column: mappings whose column is missing add no key. */
  lemma MappedKeysHaveSource(row: Dict, ms: Mappings, field: string)
    requires HasKey(ApplyFieldMappings(row, ms).fields, field)
    ensures field != RawKey
    ensures exists j :: 0 <= j < |ms| && ms[j].1 == field && exists i :: 0 <= i < |row| && CaseMatch(row, i, ms[j].0)
  {
    LastMatchSource(row, ms, field);
  }
}

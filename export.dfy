/** `export_approved_data` (backend/server.py): the validated records, optionally of one
    carrier, exported as CSV text cells or as JSON rows. The columns are the sorted union of
    the records' mapped-data keys that do not start with `_`. */
module Export {
  import opened Values
  import opened Dicts
  import opened FieldMapping
  import opened Records

  // ---------------------------------------------------------------------------------------
  // Python's ordering of str.

  /** `a < b` on Python strings: code point by code point, a proper prefix first. */
  predicate Less(a: string, b: string)
  {
    if a == [] then b != []
    else if b == [] then false
    else if a[0] != b[0] then a[0] < b[0]
    else Less(a[1..], b[1..])
  }

  lemma {:induction false} LessIrreflexive(a: string)
    ensures !Less(a, a)
  {
    if a != [] {
      LessIrreflexive(a[1..]);
    }
  }

  lemma {:induction false} LessTransitive(a: string, b: string, c: string)
    requires Less(a, b) && Less(b, c)
    ensures Less(a, c)
  {
    if a != [] && a[0] == b[0] && b[0] == c[0] {
      LessTransitive(a[1..], b[1..], c[1..]);
    }
  }

  /** The order is total: two different strings are ordered one way or the other. */
  lemma {:induction false} LessTotal(a: string, b: string)
    ensures a == b || Less(a, b) || Less(b, a)
  {
    if a != [] && b != [] && a[0] == b[0] {
      LessTotal(a[1..], b[1..]);
      if a[1..] == b[1..] {
        assert a == [a[0]] + a[1..] && b == [b[0]] + b[1..];
      }
    }
  }

  lemma LessAsymmetric(a: string, b: string)
    requires Less(a, b)
    ensures !Less(b, a)
  {
    if Less(b, a) {
      LessTransitive(a, b, a);
      LessIrreflexive(a);
    }
  }

  predicate StrictlySorted(xs: seq<string>)
  {
    forall i, j :: 0 <= i < j < |xs| ==> Less(xs[i], xs[j])
  }

  /** Every element above `x`, in a sorted sequence whose first element is above `x`. */
  lemma BelowAll(x: string, xs: seq<string>)
    requires StrictlySorted(xs) && xs != [] && Less(x, xs[0])
    ensures forall y :: y in xs ==> Less(x, y)
  {
    forall y | y in xs
      ensures Less(x, y)
    {
      var j :| 0 <= j < |xs| && xs[j] == y;
      if j > 0 {
        LessTransitive(x, xs[0], y);
      }
    }
  }

  lemma SortedCons(x: string, xs: seq<string>)
    requires StrictlySorted(xs)
    requires forall y :: y in xs ==> Less(x, y)
    ensures StrictlySorted([x] + xs)
  {
    var r := [x] + xs;
    forall i, j | 0 <= i < j < |r|
      ensures Less(r[i], r[j])
    {
      if i == 0 {
        assert r[j] == xs[j - 1];
      } else {
        assert r[i] == xs[i - 1] && r[j] == xs[j - 1];
      }
    }
  }

  /** `all_fields.add(x)` on the set kept in sorted order: the set and the final
      `sorted(...)` in one. */
  function Insert(xs: seq<string>, x: string): (r: seq<string>)
    requires StrictlySorted(xs)
    ensures StrictlySorted(r)
    ensures forall y :: y in r <==> y in xs || y == x
    decreases |xs|
  {
    if xs == [] then [x]
    else if x == xs[0] then xs
    else if Less(x, xs[0]) then
      BelowAll(x, xs);
      SortedCons(x, xs);
      [x] + xs
    else
      LessTotal(x, xs[0]);
      var rest := Insert(xs[1..], x);
      assert forall y :: y in rest ==> Less(xs[0], y) by {
        if |xs| > 1 {
          assert xs[1..][0] == xs[1];
          BelowAll(xs[0], xs[1..]);
        }
      }
      SortedCons(xs[0], rest);
      [xs[0]] + rest
  }

  /** There is only one strictly sorted listing of a set: the result of `sorted(set)`. */
  lemma {:induction false} SortedUnique(xs: seq<string>, ys: seq<string>)
    requires StrictlySorted(xs) && StrictlySorted(ys)
    requires forall z :: z in xs <==> z in ys
    ensures xs == ys
  {
    if xs != [] && ys != [] {
      HeadIsLeast(xs, ys[0]);
      HeadIsLeast(ys, xs[0]);
      if Less(xs[0], ys[0]) {
        LessAsymmetric(xs[0], ys[0]);
      }
      forall z
        ensures z in xs[1..] <==> z in ys[1..]
      {
        if z in xs[1..] {
          var i :| 1 <= i < |xs| && xs[i] == z;
          assert Less(xs[0], z);
          LessIrreflexive(xs[0]);
          assert z in ys;
          var j :| 0 <= j < |ys| && ys[j] == z;
          assert j != 0;
          assert ys[1..][j - 1] == z;
        }
        if z in ys[1..] {
          var j :| 1 <= j < |ys| && ys[j] == z;
          assert Less(ys[0], z);
          LessIrreflexive(ys[0]);
          assert z in xs;
          var i :| 0 <= i < |xs| && xs[i] == z;
          assert i != 0;
          assert xs[1..][i - 1] == z;
        }
      }
      SortedUnique(xs[1..], ys[1..]);
    } else {
      SameElementsBothEmpty(xs, ys);
    }
  }

  lemma SameElementsBothEmpty(xs: seq<string>, ys: seq<string>)
    requires forall z :: z in xs <==> z in ys
    ensures xs == [] <==> ys == []
  {
    if xs != [] {
      assert xs[0] in xs;
    }
    if ys != [] {
      assert ys[0] in ys;
    }
  }

  /** The head of a strictly sorted sequence is its least element. */
  lemma HeadIsLeast(xs: seq<string>, z: string)
    requires StrictlySorted(xs) && z in xs
    ensures z == xs[0] || Less(xs[0], z)
  {
    var i :| 0 <= i < |xs| && xs[i] == z;
    if i > 0 {
      assert Less(xs[0], xs[i]);
    }
  }

  // ---------------------------------------------------------------------------------------
  // The records and the columns.

  /** The query `{"status": "validated"}`, plus `carrier_id` when one is given (an empty
      `carrier_id` is no filter, and is None here), in store order. */
  function Approved(records: seq<Record>, carrier: Option<Id>): (r: seq<Record>)
    ensures |r| <= |records|
    ensures forall x :: x in r <==>
      x in records && x.status == Validated && (carrier.Some? ==> x.carrierId == carrier.value)
  {
    if records == [] then []
    else
      var rest := Approved(records[1..], carrier);
      var x := records[0];
      assert forall y :: y in records <==> y == x || y in records[1..];
      if x.status == Validated && (carrier.Some? ==> x.carrierId == carrier.value) then [x] + rest else rest
  }

  /** A column of the export: a key of some record's mapped data not starting with `_`. */
  ghost predicate Exported(rs: seq<Record>, f: string)
  {
    !Hidden(f) && exists i :: 0 <= i < |rs| && HasKey(rs[i].mapped.fields, f)
  }

  /** The field-collection loops: every non-internal mapped-data key, once, sorted. The
      `_raw` entry is internal, and is not among `fields` of the model's mapped data anyway. */
  method ExportFields(rs: seq<Record>) returns (fields: seq<string>)
    ensures StrictlySorted(fields)
    ensures forall f :: f in fields <==> Exported(rs, f)
  {
    fields := [];
    for i := 0 to |rs|
      invariant StrictlySorted(fields)
      invariant forall f :: f in fields <==> Exported(rs[..i], f)
    {
      var d := rs[i].mapped.fields;
      for k := 0 to |d|
        invariant StrictlySorted(fields)
        invariant forall f :: f in fields <==>
          Exported(rs[..i], f) || (!Hidden(f) && exists j :: 0 <= j < k && d[j].0 == f)
      {
        if !Hidden(d[k].0) {
          fields := Insert(fields, d[k].0);
        }
      }
      forall f
        ensures f in fields <==> Exported(rs[..i + 1], f)
      {
        KeysAt(d, f);
        if Exported(rs[..i + 1], f) {
          var j :| 0 <= j < i + 1 && HasKey(rs[..i + 1][j].mapped.fields, f);
          if j < i {
            assert rs[..i][j] == rs[..i + 1][j];
          }
        }
        if Exported(rs[..i], f) {
          var j :| 0 <= j < i && HasKey(rs[..i][j].mapped.fields, f);
          assert rs[..i + 1][j] == rs[..i][j];
        }
        if f in Keys(d) && !Hidden(f) {
          assert rs[..i + 1][i] == rs[i];
        }
      }
    }
    assert rs[..|rs|] == rs;
  }

  // ---------------------------------------------------------------------------------------
  // The rows.

  /** `str(val) if val is not None else ""` for `mapped_data.get(f)`. */
  function CsvCell(m: Mapped, f: string): string
  {
    match Get(m.fields, f)
    case None => ""
    case Some(Null) => ""
    case Some(v) => Show(v)
  }

  /** A CSV cell is empty exactly when the field is missing, None or the empty string, and
      otherwise is the `str` of the stored value. */
  lemma CsvCellMeaning(m: Mapped, f: string)
    ensures CsvCell(m, f) == "" <==> ValueOr(m.fields, f) in {Null, Str("")}
    ensures ValueOr(m.fields, f) != Null ==> CsvCell(m, f) == Show(ValueOr(m.fields, f))
  {
    match ValueOr(m.fields, f)
    case Int(i) =>
      assert |IntToString(i)| >= 1;
    case _ =>
  }

  /** The JSON row of a record: `_record_id` first, then each column with the stored
      value, None where the record lacks the field. */
  function JsonRow(r: Record, fields: seq<string>): (row: Dict)
    ensures |row| == |fields| + 1 && row[0] == ("_record_id", Int(r.id))
    ensures forall j :: 0 <= j < |fields| ==> row[j + 1] == (fields[j], ValueOr(r.mapped.fields, fields[j]))
  {
    [("_record_id", Int(r.id))] + seq(|fields|, j requires 0 <= j < |fields| => (fields[j], ValueOr(r.mapped.fields, fields[j])))
  }

  datatype Format = Json | Csv

  /** The three outputs of the handler this model keeps. */
  datatype Export =
    | JsonExport(count: nat, data: seq<Dict>)
    | CsvExport(count: nat, header: seq<string>, cells: seq<seq<string>>)

  /** `export_approved_data` for the "json" format and the default CSV format: 404 when no
      record is approved. */
  method ExportApproved(records: seq<Record>, carrier: Option<Id>, format: Format) returns (r: Result<Export>)
    ensures var rs := Approved(records, carrier);
      && (r.Failure? <==> rs == [])
      && (r.Ok? ==> ExportsOf(r.value, rs, format))
  {
    var rs := Approved(records, carrier);
    if rs == [] {
      return Failure("No approved data to export");
    }
    var fields := ExportFields(rs);
    match format
    case Json =>
      var data := JsonRows(rs, fields);
      r := Ok(JsonExport(|data|, data));
    case Csv =>
      var cells := CsvRows(rs, fields);
      r := Ok(CsvExport(|rs|, fields, cells));
  }

  /** What an export of `rs` holds: the columns are the sorted exported fields; one row per
      record in order; the JSON row of a record gives each column's stored value and the CSV
      row its text. */
  ghost predicate ExportsOf(e: Export, rs: seq<Record>, format: Format)
  {
    match e
    case JsonExport(count, data) =>
      && format == Json && count == |rs| == |data|
      && exists fields ::
        && StrictlySorted(fields) && (forall f :: f in fields <==> Exported(rs, f))
        && forall i :: 0 <= i < |rs| ==> data[i] == JsonRow(rs[i], fields)
    case CsvExport(count, header, cells) =>
      && format == Csv && count == |rs| == |cells|
      && StrictlySorted(header) && (forall f :: f in header <==> Exported(rs, f))
      && forall i :: 0 <= i < |rs| ==>
        |cells[i]| == |header| && forall j :: 0 <= j < |header| ==> cells[i][j] == CsvCell(rs[i].mapped, header[j])
  }

  method JsonRows(rs: seq<Record>, fields: seq<string>) returns (data: seq<Dict>)
    ensures |data| == |rs| && forall i :: 0 <= i < |rs| ==> data[i] == JsonRow(rs[i], fields)
  {
    data := [];
    for i := 0 to |rs|
      invariant |data| == i && forall k :: 0 <= k < i ==> data[k] == JsonRow(rs[k], fields)
    {
      var row: Dict := [("_record_id", Int(rs[i].id))];
      for j := 0 to |fields|
        invariant |row| == j + 1 && row == JsonRow(rs[i], fields)[..j + 1]
      {
        row := row + [(fields[j], ValueOr(rs[i].mapped.fields, fields[j]))];
      }
      data := data + [row];
    }
  }

  method CsvRows(rs: seq<Record>, fields: seq<string>) returns (cells: seq<seq<string>>)
    ensures |cells| == |rs|
    ensures forall i :: 0 <= i < |rs| ==>
      |cells[i]| == |fields| && forall j :: 0 <= j < |fields| ==> cells[i][j] == CsvCell(rs[i].mapped, fields[j])
  {
    cells := [];
    for i := 0 to |rs|
      invariant |cells| == i
      invariant forall k :: 0 <= k < i ==>
        |cells[k]| == |fields| && forall j :: 0 <= j < |fields| ==> cells[k][j] == CsvCell(rs[k].mapped, fields[j])
    {
      var row: seq<string> := [];
      for j := 0 to |fields|
        invariant |row| == j && forall l :: 0 <= l < j ==> row[l] == CsvCell(rs[i].mapped, fields[l])
      {
        var v := ValueOr(rs[i].mapped.fields, fields[j]);
        row := row + [if v != Null then Show(v) else ""];
      }
      cells := cells + [row];
    }
  }

  /** The JSON rows never lose a column to `_record_id`, and read back every exported
      field's stored value. */
  lemma JsonRowReadsBack(r: Record, fields: seq<string>, j: nat)
    requires StrictlySorted(fields) && j < |fields| && !Hidden(fields[j])
    ensures Get(JsonRow(r, fields), fields[j]) == Some(ValueOr(r.mapped.fields, fields[j]))
    ensures Get(JsonRow(r, fields), "_record_id") == Some(Int(r.id))
  {
    var row := JsonRow(r, fields);
    assert row[1..][j] == row[j + 1];
    var k := 0;
    while k < j
      invariant k <= j
      invariant Get(row[1..][k..], fields[j]) == Get(row[1..], fields[j])
    {
      assert row[1..][k].0 == fields[k] != fields[j] by {
        LessIrreflexive(fields[j]);
      }
      assert row[1..][k..][1..] == row[1..][k + 1..];
      k := k + 1;
    }
    assert row[1..][j..][0] == row[j + 1];
  }
}

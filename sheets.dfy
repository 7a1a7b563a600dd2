/** The grid-selection logic of `extract_excel_data` and of the upload preview
    (backend/server.py): which row holds the headers, what the headers are called, and
    which data rows become raw rows. The workbook is an abstract grid of cells read
    through openpyxl's 1-based `sheet.cell(row, column)`. */
module Sheets {
  import opened Values
  import opened Dicts

  /** The active worksheet: its cells by row, and its extent `max_row` x `max_column`.
      openpyxl reports an extent of at least 1 x 1, even for an empty sheet. */
  datatype Sheet = Sheet(cells: seq<seq<Cell>>, maxRow: nat, maxCol: nat)

  predicate WellFormed(s: Sheet)
  {
    s.maxRow >= 1 && s.maxCol >= 1
  }

  /** `sheet.cell(row=r, column=c).value`: None where nothing is stored. */
  function CellAt(s: Sheet, r: nat, c: nat): Cell
  {
    if 1 <= r <= |s.cells| && 1 <= c <= |s.cells[r - 1]| then s.cells[r - 1][c - 1] else Null
  }

  function Min(a: int, b: int): int
  {
    if a < b then a else b
  }

  // ---------------------------------------------------------------------------------------
  // Header-row detection.

  /** The two tests for a filled cell: the extraction's `v is not None and str(v).strip()`,
      and the preview's truthiness of `v`. */
  datatype FillTest = StrippedText | Truthiness

  predicate Filled(v: Cell, t: FillTest)
  {
    match t
    case StrippedText => v != Null && Strip(Show(v)) != ""
    case Truthiness => Truthy(v)
  }

  /** Which of columns 1..cols of row `r` are filled. */
  function Marks(s: Sheet, r: nat, cols: nat, t: FillTest): (m: seq<bool>)
    ensures |m| == cols
    ensures forall c :: 1 <= c <= cols ==> m[c - 1] == Filled(CellAt(s, r, c), t)
  {
    var m := seq(cols, i requires 0 <= i < cols => Filled(CellAt(s, r, i + 1), t));
    assert forall c :: 1 <= c <= cols ==> m[c - 1] == Filled(CellAt(s, r, c), t) by {
      forall c | 1 <= c <= cols
        ensures m[c - 1] == Filled(CellAt(s, r, c), t)
      {
        var i := c - 1;
        assert m[i] == Filled(CellAt(s, r, i + 1), t);
      }
    }
    m
  }

  function CountTrue(bs: seq<bool>): (n: nat)
    ensures n <= |bs|
  {
    if bs == [] then 0 else CountTrue(bs[..|bs| - 1]) + (if bs[|bs| - 1] then 1 else 0)
  }

  /** Number of filled cells among columns 1..cols of row `r`. */
  function FilledCount(s: Sheet, r: nat, cols: nat, t: FillTest): (n: nat)
    ensures n <= cols
  {
    CountTrue(Marks(s, r, cols, t))
  }

  /** The filled columns among 1..cols of row `r`. */
  function FilledColumns(s: Sheet, r: nat, cols: nat, t: FillTest): set<nat>
  {
    set c: nat | 1 <= c <= cols && Filled(CellAt(s, r, c), t)
  }

  /** Position `c` of `bs`, counted from 1, holds true. */
  predicate MarkedAt(bs: seq<bool>, c: nat)
  {
    1 <= c <= |bs| && bs[c - 1]
  }

  /** The positions of `bs`, counted from 1, that hold true. */
  function TruePositions(bs: seq<bool>): set<nat>
  {
    set c: nat | c <= |bs| && MarkedAt(bs, c)
  }

  lemma {:induction false} CountTrueIsSize(bs: seq<bool>)
    ensures CountTrue(bs) == |TruePositions(bs)|
  {
    if bs != [] {
      var init := bs[..|bs| - 1];
      CountTrueIsSize(init);
      var before := TruePositions(init);
      assert |bs| !in before;
      if bs[|bs| - 1] {
        assert TruePositions(bs) == before + {|bs|};
      } else {
        assert TruePositions(bs) == before;
      }
    } else {
      assert TruePositions(bs) == {};
    }
  }

  /** `FilledCount` counts exactly the filled columns. */
  lemma FilledCountIsColumns(s: Sheet, r: nat, cols: nat, t: FillTest)
    ensures FilledCount(s, r, cols, t) == |FilledColumns(s, r, cols, t)|
  {
    var m := Marks(s, r, cols, t);
    CountTrueIsSize(m);
    assert FilledColumns(s, r, cols, t) == TruePositions(m);
  }

  /** A likely header row: at least five filled cells in the window's columns. */
  predicate Dense(s: Sheet, r: nat, cols: nat, t: FillTest)
  {
    FilledCount(s, r, cols, t) >= 5
  }

  /** The first dense row among rows `from`..`rows`, or 1 when there is none. */
  function FirstDenseFrom(s: Sheet, from: nat, rows: nat, cols: nat, t: FillTest): nat
    decreases rows + 1 - from
  {
    if from < 1 || from > rows then 1
    else if Dense(s, from, cols, t) then from
    else FirstDenseFrom(s, from + 1, rows, cols, t)
  }

  /** The header row: the first dense row in the window of `rows` rows by `cols` columns,
      defaulting to 1. */
  function FirstDense(s: Sheet, rows: nat, cols: nat, t: FillTest): nat
  {
    FirstDenseFrom(s, 1, rows, cols, t)
  }

  lemma {:induction false} FirstDenseFromSpec(s: Sheet, from: nat, rows: nat, cols: nat, t: FillTest)
    requires 1 <= from
    ensures var h := FirstDenseFrom(s, from, rows, cols, t);
      || (from <= h <= rows && Dense(s, h, cols, t) && forall r :: from <= r < h ==> !Dense(s, r, cols, t))
      || (h == 1 && forall r :: from <= r <= rows ==> !Dense(s, r, cols, t))
    decreases rows + 1 - from
  {
    if from <= rows && !Dense(s, from, cols, t) {
      FirstDenseFromSpec(s, from + 1, rows, cols, t);
    }
  }

  /** The rule both callers apply: the result is the first dense row of the window, or 1
      when no row of the window is dense. */
  lemma FirstDenseSpec(s: Sheet, rows: nat, cols: nat, t: FillTest)
    ensures var h := FirstDense(s, rows, cols, t);
      || (1 <= h <= rows && Dense(s, h, cols, t) && forall r :: 1 <= r < h ==> !Dense(s, r, cols, t))
      || (h == 1 && forall r :: 1 <= r <= rows ==> !Dense(s, r, cols, t))
  {
    FirstDenseFromSpec(s, 1, rows, cols, t);
  }

  lemma {:induction false} CountTrueAll(bs: seq<bool>)
    requires forall i :: 0 <= i < |bs| ==> bs[i]
    ensures CountTrue(bs) == |bs|
  {
    if bs != [] {
      CountTrueAll(bs[..|bs| - 1]);
    }
  }

  lemma {:induction false} CountTrueNone(bs: seq<bool>)
    requires forall i :: 0 <= i < |bs| ==> !bs[i]
    ensures CountTrue(bs) == 0
  {
    if bs != [] {
      CountTrueNone(bs[..|bs| - 1]);
    }
  }

  /** The extraction's window: rows 1..19, columns 1..49 (clipped to the sheet). */
  function DetectedHeaderRow(s: Sheet): nat
  {
    FirstDense(s, Min(19, s.maxRow), Min(49, s.maxCol), StrippedText)
  }

  /** The preview's `suggested_header_row`: rows 1..10, columns 1..19. */
  function SuggestedHeaderRow(s: Sheet): nat
  {
    FirstDense(s, Min(10, s.maxRow), Min(19, s.maxCol), Truthiness)
  }

  /** The scan as both handlers write it: rows in order, counting the filled cells of each,
      stopping at the first dense one. */
  method ScanForHeader(s: Sheet, rows: nat, cols: nat, t: FillTest) returns (h: nat)
    ensures h == FirstDense(s, rows, cols, t)
  {
    h := 1;
    var r := 1;
    while r <= rows
      invariant 1 <= r <= rows + 1 || (rows == 0 && r == 1)
      invariant FirstDense(s, rows, cols, t) == FirstDenseFrom(s, r, rows, cols, t)
      decreases rows + 1 - r
    {
      var n := CountFilled(s, r, cols, t);
      if n >= 5 {
        h := r;
        return;
      }
      r := r + 1;
    }
  }

  method CountFilled(s: Sheet, r: nat, cols: nat, t: FillTest) returns (n: nat)
    ensures n == FilledCount(s, r, cols, t)
  {
    n := 0;
    for c := 1 to cols + 1
      invariant n == FilledCount(s, r, c - 1, t)
    {
      assert Marks(s, r, c, t)[..c - 1] == Marks(s, r, c - 1, t);
      if Filled(CellAt(s, r, c), t) {
        n := n + 1;
      }
    }
  }

  /** A two-row sheet: five zeros above five non-blank strings. */
  const ZerosOverText := Sheet([[Int(0), Int(0), Int(0), Int(0), Int(0)], [Str("x"), Str("x"), Str("x"), Str("x"), Str("x")]], 2, 5)

  lemma ZerosOverTextCells()
    ensures forall c :: 1 <= c <= 5 ==> CellAt(ZerosOverText, 1, c) == Int(0) && CellAt(ZerosOverText, 2, c) == Str("x")
  {
  }

  /** "0" is not blank, so the row of zeros is dense for the extraction. */
  lemma ZerosDenseForExtraction()
    ensures Dense(ZerosOverText, 1, 5, StrippedText)
  {
    ZerosOverTextCells();
    assert Show(Int(0)) == "0" by {
      assert Show(Int(0)) == [DigitChar(0)];
    }
    assert Strip("0") == "0" by {
      assert !IsSpace('0');
    }
    var m := Marks(ZerosOverText, 1, 5, StrippedText);
    assert forall i :: 0 <= i < 5 ==> m[i];
    CountTrueAll(m);
  }

  /** 0 is falsy, so the row of zeros is empty for the preview. */
  lemma ZerosEmptyForPreview()
    ensures !Dense(ZerosOverText, 1, 5, Truthiness)
  {
    ZerosOverTextCells();
    var m := Marks(ZerosOverText, 1, 5, Truthiness);
    assert forall i :: 0 <= i < 5 ==> !m[i];
    CountTrueNone(m);
  }

  lemma TextDenseForPreview()
    ensures Dense(ZerosOverText, 2, 5, Truthiness)
  {
    ZerosOverTextCells();
    var m := Marks(ZerosOverText, 2, 5, Truthiness);
    assert forall i :: 0 <= i < 5 ==> m[i];
    CountTrueAll(m);
  }

  /** The two rules are not the same: a row of zeros is a header row for the extraction
      but not for the preview, so the preview suggests a header row the extraction will
      not use. */
  lemma PreviewAndExtractionDisagree()
    ensures DetectedHeaderRow(ZerosOverText) == 1
    ensures SuggestedHeaderRow(ZerosOverText) == 2
  {
    ZerosDenseForExtraction();
    ZerosEmptyForPreview();
    TextDenseForPreview();
    assert FirstDenseFrom(ZerosOverText, 2, 2, 5, Truthiness) == 2;
  }

  // ---------------------------------------------------------------------------------------
  // Headers and data rows.

  /** `str(val).strip() if val else f"column_{col}"`. */
  function HeaderName(v: Cell, col: nat): string
  {
    if Truthy(v) then Strip(Show(v)) else "column_" + IntToString(col)
  }

  /** One header per column 1..max_column of the header row. */
  function Headers(s: Sheet, headerRow: nat): (hs: seq<string>)
    ensures |hs| == s.maxCol
  {
    seq(s.maxCol, i requires 0 <= i < s.maxCol => HeaderName(CellAt(s, headerRow, i + 1), i + 1))
  }

  /** The cells of row `r` in columns 1..max_column. */
  function RowValues(s: Sheet, r: nat): (vs: seq<Cell>)
    ensures |vs| == s.maxCol
    ensures forall c :: 1 <= c <= s.maxCol ==> vs[c - 1] == CellAt(s, r, c)
  {
    seq(s.maxCol, i requires 0 <= i < s.maxCol => CellAt(s, r, i + 1))
  }

  /** `row_data[header] = val` for every column in order: a repeated header keeps the
      position of its first column and the value of its last. */
  function RowDict(headers: seq<string>, values: seq<Cell>): (d: Dict)
    requires |headers| == |values|
    ensures DistinctKeys(d)
    ensures forall k :: HasKey(d, k) <==> k in headers
    decreases |headers|
  {
    if headers == [] then []
    else
      var init := RowDict(headers[..|headers| - 1], values[..|values| - 1]);
      assert forall k :: k in headers <==> k in headers[..|headers| - 1] || k == headers[|headers| - 1];
      Put(init, headers[|headers| - 1], values[|values| - 1])
  }

  /** Each header name holds the value of the last column with that name. */
  lemma {:induction false} RowDictValues(headers: seq<string>, values: seq<Cell>, i: nat)
    requires |headers| == |values| && LastColumnOf(headers, i)
    ensures Get(RowDict(headers, values), headers[i]) == Some(values[i])
    decreases |headers|
  {
    var n := |headers| - 1;
    if i < n {
      assert headers[..n][i] == headers[i] && values[..n][i] == values[i];
      assert LastColumnOf(headers[..n], i);
      RowDictValues(headers[..n], values[..n], i);
      assert headers[i] != headers[n];
      RowDictLastEntry(headers, values, headers[i]);
    } else {
      assert i == n;
      RowDictLastEntry(headers, values, headers[n]);
    }
  }

  /** The last column sets its header's value and leaves every other header alone. */
  lemma RowDictLastEntry(headers: seq<string>, values: seq<Cell>, k: string)
    requires |headers| == |values| && headers != []
    ensures var n := |headers| - 1;
      Get(RowDict(headers, values), k)
        == if k == headers[n] then Some(values[n]) else Get(RowDict(headers[..n], values[..n]), k)
  {
    var n := |headers| - 1;
    assert RowDict(headers, values) == Put(RowDict(headers[..n], values[..n]), headers[n], values[n]);
  }

  /** Column `i` is the last one with its header name. */
  predicate LastColumnOf(headers: seq<string>, i: int)
  {
    0 <= i < |headers| && forall j :: i < j < |headers| ==> headers[j] != headers[i]
  }

  /** The row is skipped: `not any(v is not None for v in row_values)`. */
  predicate AllNull(vs: seq<Cell>)
  {
    forall i :: 0 <= i < |vs| ==> vs[i] == Null
  }

  /** `sum(1 for v in row_data.values() if v is not None)`. */
  function NonNullCount(d: Dict): nat
  {
    if d == [] then 0 else NonNullCount(d[1..]) + (if d[0].1 != Null then 1 else 0)
  }

  /** What becomes of data row `r`: nothing when all its cells are None, nothing when fewer
      than three of its dict values are non-null, else its dict. */
  function KeptRow(s: Sheet, headers: seq<string>, r: nat): Option<Dict>
    requires |headers| == s.maxCol
  {
    var values := RowValues(s, r);
    if AllNull(values) then None
    else
      var d := RowDict(headers, values);
      if NonNullCount(d) >= 3 then Some(d) else None
  }

  /** The kept rows among `lo`..`hi` - 1, in order. */
  function KeptRows(s: Sheet, headers: seq<string>, lo: nat, hi: nat): seq<Dict>
    requires |headers| == s.maxCol
    decreases hi
  {
    if hi <= lo then []
    else
      var kept := KeptRow(s, headers, hi - 1);
      KeptRows(s, headers, lo, hi - 1) + (if kept.Some? then [kept.value] else [])
  }

  /** `extract_excel_data`: the header row is the given one or the detected one; the data
      starts at the given row or just below the header; openpyxl refuses a row number below
      1, which fails the extraction. */
  method ExtractExcelData(s: Sheet, headerRow: Option<int>, startRow: Option<int>) returns (r: Result<seq<Dict>>)
    requires WellFormed(s)
    ensures var h := if headerRow.Some? then headerRow.value else DetectedHeaderRow(s);
      var st := if startRow.Some? then startRow.value else h + 1;
      && (r.Failure? <==> h < 1 || (st < 1 && st <= s.maxRow))
      && (r.Ok? ==> r.value == KeptRows(s, Headers(s, h), st, s.maxRow + 1))
  {
    var h: int;
    if headerRow.Some? {
      h := headerRow.value;
    } else {
      h := ScanForHeader(s, Min(19, s.maxRow), Min(49, s.maxCol), StrippedText);
      assert h == DetectedHeaderRow(s);
    }
    var st := if startRow.Some? then startRow.value else h + 1;
    if h < 1 || (st < 1 && st <= s.maxRow) {
      return Failure("Row or column values must be at least 1");
    }
    assert st >= 1;
    var data := CollectRows(s, Headers(s, h), st);
    r := Ok(data);
  }

  /** The data-row loop of `extract_excel_data`, from row `st` to `max_row`. */
  method CollectRows(s: Sheet, headers: seq<string>, st: nat) returns (data: seq<Dict>)
    requires |headers| == s.maxCol
    ensures data == KeptRows(s, headers, st, s.maxRow + 1)
  {
    data := [];
    var row := st;
    while row <= s.maxRow
      invariant st <= row && (row <= s.maxRow + 1 || row == st)
      invariant data == KeptRows(s, headers, st, row)
      decreases s.maxRow + 1 - row
    {
      var kept := ReadRow(s, headers, row);
      assert KeptRows(s, headers, st, row + 1) == data + (if kept.Some? then [kept.value] else []);
      if kept.Some? {
        data := data + [kept.value];
      }
      row := row + 1;
    }
  }

  /** One data row: skipped when all its cells are None, dropped when its dict has fewer
      than three non-null values. */
  method ReadRow(s: Sheet, headers: seq<string>, row: nat) returns (kept: Option<Dict>)
    requires |headers| == s.maxCol
    ensures kept == KeptRow(s, headers, row)
  {
    var values := RowValues(s, row);
    if AllNull(values) {
      return None;
    }
    var d := RowDict(headers, values);
    if NonNullCount(d) >= 3 {
      kept := Some(d);
    } else {
      kept := None;
    }
  }

  /** Every extracted row has at least three non-null values, one key per header name and
      no other key, each key once, and comes from a data row of the sheet. */
  lemma {:induction false} KeptRowsShape(s: Sheet, headers: seq<string>, lo: nat, hi: nat)
    requires |headers| == s.maxCol
    ensures forall d :: d in KeptRows(s, headers, lo, hi) ==> (
      && NonNullCount(d) >= 3
      && DistinctKeys(d)
      && (forall k :: HasKey(d, k) <==> k in headers)
      && (exists r :: lo <= r < hi && KeptRow(s, headers, r) == Some(d)))
    decreases hi
  {
    if lo < hi {
      KeptRowsShape(s, headers, lo, hi - 1);
    }
  }

  /** A row none of whose cells is empty and whose headers are distinct is never dropped. */
  lemma FullRowKept(s: Sheet, headers: seq<string>, r: nat)
    requires |headers| == s.maxCol >= 3
    requires forall i, j :: 0 <= i < j < |headers| ==> headers[i] != headers[j]
    requires forall c :: 1 <= c <= s.maxCol ==> CellAt(s, r, c) != Null
    ensures KeptRow(s, headers, r) == Some(RowDict(headers, RowValues(s, r)))
  {
    var values := RowValues(s, r);
    assert values[0] == CellAt(s, r, 1);
    RowDictAllNonNull(headers, values);
  }

  /** With distinct headers and no None among the values, every value is kept. */
  lemma {:induction false} RowDictAllNonNull(headers: seq<string>, values: seq<Cell>)
    requires |headers| == |values|
    requires forall i, j :: 0 <= i < j < |headers| ==> headers[i] != headers[j]
    requires forall i :: 0 <= i < |values| ==> values[i] != Null
    ensures NonNullCount(RowDict(headers, values)) == |headers|
    ensures |RowDict(headers, values)| == |headers|
    decreases |headers|
  {
    if headers != [] {
      var n := |headers| - 1;
      var hs, vs := headers[..n], values[..n];
      assert forall i :: 0 <= i < n ==> hs[i] == headers[i] && vs[i] == values[i];
      RowDictAllNonNull(hs, vs);
      assert headers[n] !in hs by {
        forall i | 0 <= i < n
          ensures hs[i] != headers[n]
        {
          assert hs[i] == headers[i];
        }
      }
      RowDictFreshLast(headers, values);
      NonNullCountAppend(RowDict(hs, vs), (headers[n], values[n]));
    }
  }

  /** A header not seen before appends its column to the dict. */
  lemma RowDictFreshLast(headers: seq<string>, values: seq<Cell>)
    requires |headers| == |values| && headers != []
    requires headers[|headers| - 1] !in headers[..|headers| - 1]
    ensures var n := |headers| - 1;
      RowDict(headers, values) == RowDict(headers[..n], values[..n]) + [(headers[n], values[n])]
  {
    var n := |headers| - 1;
    var init := RowDict(headers[..n], values[..n]);
    assert !HasKey(init, headers[n]);
    assert RowDict(headers, values) == Put(init, headers[n], values[n]);
  }

  lemma {:induction false} NonNullCountAppend(d: Dict, e: (string, Cell))
    ensures NonNullCount(d + [e]) == NonNullCount(d) + (if e.1 != Null then 1 else 0)
    decreases |d|
  {
    if d != [] {
      assert (d + [e])[1..] == d[1..] + [e];
      NonNullCountAppend(d[1..], e);
    }
  }
}

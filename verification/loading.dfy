/** Turning the rows of an uploaded CSV file (already split into fields) into
    the flat scan list and the grid index. Two dialects exist: the web
    dashboard looks its columns up by header name, the desktop variants
    unpack every data row positionally into `timestamp, sku, location`. */
module Loading {
  import opened Wrappers
  import opened Text
  import opened Location
  import opened GridIndex

  /** One CSV record, split into fields. */
  type Row = seq<string>

  /** One scan of the positional dialect, kept verbatim. */
  datatype ScanRecord = ScanRecord(timestamp: string, sku: string, location: string)

  datatype LoadError =
    | NoHeaderRow                          // the file has no row at all, so reading the header raises
    | MissingColumns                       // no `garment_sku` or no `location_id` header
    | BadArity(partial: seq<ScanRecord>)   // a row that does not unpack into three fields; `partial`
                                           // holds the records appended before it

  function Max(a: nat, b: nat): nat { if a < b then b else a }

  // ---------------------------------------------------------------- dashboard

  /** The position the header scan settles on for `name`: the loop
      overwrites its index on every case-insensitive match, so the LAST
      matching header wins. */
  function LastHeaderIndex(headers: Row, name: string): (r: Option<nat>)
    ensures r.Some? ==> r.value < |headers| && Lower(headers[r.value]) == name
                        && forall j :: r.value < j < |headers| ==> Lower(headers[j]) != name
    ensures r.None? ==> forall j :: 0 <= j < |headers| ==> Lower(headers[j]) != name
  {
    if |headers| == 0 then None
    else if Lower(headers[|headers| - 1]) == name then Some(|headers| - 1)
    else LastHeaderIndex(headers[..|headers| - 1], name)
  }

  /** The data rows the dashboard keeps: a row not longer than the larger of
      the two column indices is skipped, every other row contributes
      `(row[skuIdx], row[locIdx])`. */
  function AcceptDashboardRows(rows: seq<Row>, skuIdx: nat, locIdx: nat): (out: seq<Entry>)
    ensures |out| <= |rows|
  {
    if |rows| == 0 then []
    else
      var row := rows[|rows| - 1];
      AcceptDashboardRows(rows[..|rows| - 1], skuIdx, locIdx)
      + (if |row| <= Max(skuIdx, locIdx) then [] else [(row[skuIdx], row[locIdx])])
  }

  /** Rows are accepted independently and in input order: accepting two
      consecutive chunks is accepting each and concatenating. */
  lemma {:induction false} AcceptDashboardRowsInOrder(a: seq<Row>, b: seq<Row>, skuIdx: nat, locIdx: nat)
    ensures AcceptDashboardRows(a + b, skuIdx, locIdx)
            == AcceptDashboardRows(a, skuIdx, locIdx) + AcceptDashboardRows(b, skuIdx, locIdx)
  {
    if |b| > 0 {
      AcceptDashboardRowsInOrder(a, b[..|b| - 1], skuIdx, locIdx);
      assert (a + b)[..|a + b| - 1] == a + b[..|b| - 1];
      assert (a + b)[|a + b| - 1] == b[|b| - 1];
    } else {
      assert a + b == a;
    }
  }

  /** A single row is kept, as its two named fields, exactly when it is
      longer than both column indices. */
  lemma AcceptDashboardRow(row: Row, skuIdx: nat, locIdx: nat)
    ensures AcceptDashboardRows([row], skuIdx, locIdx)
            == (if |row| > Max(skuIdx, locIdx) then [(row[skuIdx], row[locIdx])] else [])
  {
    assert [row][..0] == [];
  }

  /** What a successful dashboard load leaves behind. */
  datatype Loaded = Loaded(flat: seq<Entry>, grid: Grid)

  /** `load_data_from_file` of the web dashboard. */
  function LoadDashboard(file: seq<Row>): (r: Result<Loaded, LoadError>)
    ensures |file| == 0 ==> r == Failure(NoHeaderRow)
    ensures |file| > 0 ==>
              (r.Failure? <==> LastHeaderIndex(file[0], "garment_sku").None?
                               || LastHeaderIndex(file[0], "location_id").None?)
    ensures r.Failure? ==> !r.error.BadArity?
    ensures r.Success? ==>
              && r.value.flat == AcceptDashboardRows(file[1..], LastHeaderIndex(file[0], "garment_sku").value,
                                                     LastHeaderIndex(file[0], "location_id").value)
              && r.value.grid == BuildIndex(SplitSlices, r.value.flat)
  {
    if |file| == 0 then Failure(NoHeaderRow)
    else
      match (LastHeaderIndex(file[0], "garment_sku"), LastHeaderIndex(file[0], "location_id"))
      case (Some(skuIdx), Some(locIdx)) =>
        var flat := AcceptDashboardRows(file[1..], skuIdx, locIdx);
        Success(Loaded(flat, BuildIndex(SplitSlices, flat)))
      case _ => Failure(MissingColumns)
  }

  // --------------------------------------------------------------- positional

  /** How the desktop variants treat a data row with fewer than three fields. */
  datatype ShortRows =
    | SkipShortRows    // a row of fewer than three fields is skipped before unpacking
    | RejectShortRows  // unpacked unconditionally, so the load fails

  /** The positional unpack of each data row into timestamp, SKU and location: a row
      of exactly three fields becomes a record, a short row is skipped or
      fatal per `policy`, any other row aborts the load. */
  function LoadPositional(policy: ShortRows, rows: seq<Row>): (r: Result<seq<ScanRecord>, LoadError>)
    ensures r.Failure? ==> r.error.BadArity?
    ensures r.Success? ==> |r.value| <= |rows|
  {
    if |rows| == 0 then Success([])
    else
      var row := rows[0];
      if |row| < 3 && policy == SkipShortRows then LoadPositional(policy, rows[1..])
      else if |row| != 3 then Failure(BadArity([]))
      else
        var rec := ScanRecord(row[0], row[1], row[2]);
        match LoadPositional(policy, rows[1..])
        case Success(recs) => Success([rec] + recs)
        case Failure(e) => Failure(BadArity([rec] + e.partial))
  }

  /** The verdict on a single data row. */
  function LoadRow(policy: ShortRows, row: Row): Result<seq<ScanRecord>, LoadError> {
    if |row| < 3 && policy == SkipShortRows then Success([])
    else if |row| != 3 then Failure(BadArity([]))
    else Success([ScanRecord(row[0], row[1], row[2])])
  }

  /** Joins the loads of two consecutive chunks of rows: the first failure
      wins and keeps every record appended before it. */
  function Then(first: Result<seq<ScanRecord>, LoadError>, second: Result<seq<ScanRecord>, LoadError>)
    : Result<seq<ScanRecord>, LoadError>
    requires first.Failure? ==> first.error.BadArity?
    requires second.Failure? ==> second.error.BadArity?
  {
    match first
    case Failure(e) => Failure(e)
    case Success(xs) =>
      match second
      case Success(ys) => Success(xs + ys)
      case Failure(e) => Failure(BadArity(xs + e.partial))
  }

  /** Rows are processed in input order and the first bad row aborts the
      load: loading two consecutive chunks is loading the first, then the
      second. */
  lemma {:induction false} LoadPositionalInOrder(policy: ShortRows, a: seq<Row>, b: seq<Row>)
    ensures LoadPositional(policy, a + b) == Then(LoadPositional(policy, a), LoadPositional(policy, b))
  {
    if |a| > 0 {
      LoadPositionalInOrder(policy, a[1..], b);
      assert (a + b)[1..] == a[1..] + b;
      assert (a + b)[0] == a[0];
      var row := a[0];
      if |row| == 3 {
        var rec := ScanRecord(row[0], row[1], row[2]);
        LoadPositionalHead(policy, a);
        LoadPositionalHead(policy, a + b);
        ThenPrepend(rec, LoadPositional(policy, a[1..]), LoadPositional(policy, b));
      }
    } else {
      assert a + b == b;
      match LoadPositional(policy, b)
      case Success(ys) => assert [] + ys == ys;
      case Failure(e) => assert [] + e.partial == e.partial;
    }
  }

  /** A load with one more record in front of it. */
  function Prepend(rec: ScanRecord, r: Result<seq<ScanRecord>, LoadError>): Result<seq<ScanRecord>, LoadError>
    requires r.Failure? ==> r.error.BadArity?
  {
    match r
    case Success(recs) => Success([rec] + recs)
    case Failure(e) => Failure(BadArity([rec] + e.partial))
  }

  /** A well-formed first row is unpacked in front of the rest. */
  lemma LoadPositionalHead(policy: ShortRows, rows: seq<Row>)
    requires |rows| > 0 && |rows[0]| == 3
    ensures LoadPositional(policy, rows) == Prepend(ScanRecord(rows[0][0], rows[0][1], rows[0][2]), LoadPositional(policy, rows[1..]))
  {
  }

  lemma ThenPrepend(rec: ScanRecord, x: Result<seq<ScanRecord>, LoadError>, y: Result<seq<ScanRecord>, LoadError>)
    requires x.Failure? ==> x.error.BadArity?
    requires y.Failure? ==> y.error.BadArity?
    ensures Then(Prepend(rec, x), y) == Prepend(rec, Then(x, y))
  {
    match x
    case Failure(e) =>
    case Success(xs) =>
      match y
      case Success(ys) => assert [rec] + (xs + ys) == ([rec] + xs) + ys;
      case Failure(e) => assert [rec] + (xs + e.partial) == ([rec] + xs) + e.partial;
  }

  /** Each data row is judged on its own. */
  lemma LoadPositionalRow(policy: ShortRows, row: Row)
    ensures LoadPositional(policy, [row]) == LoadRow(policy, row)
  {
    assert [row][1..] == [];
    if |row| == 3 {
      assert [ScanRecord(row[0], row[1], row[2])] + [] == [ScanRecord(row[0], row[1], row[2])];
    }
  }

  /** A row the positional load accepts: three fields, or fewer when short
      rows are skipped. */
  predicate RowAccepted(policy: ShortRows, row: Row) {
    |row| == 3 || (policy == SkipShortRows && |row| < 3)
  }

  /** A positional load succeeds exactly when it accepts every data row. */
  lemma {:induction false} LoadPositionalSucceeds(policy: ShortRows, rows: seq<Row>)
    ensures LoadPositional(policy, rows).Success? <==> forall i :: 0 <= i < |rows| ==> RowAccepted(policy, rows[i])
  {
    if |rows| > 0 {
      LoadPositionalSucceeds(policy, rows[1..]);
      assert forall i :: 0 <= i < |rows[1..]| ==> rows[1..][i] == rows[i + 1];
      if forall i :: 0 <= i < |rows| ==> RowAccepted(policy, rows[i]) {
        assert forall i :: 0 <= i < |rows[1..]| ==> RowAccepted(policy, rows[1..][i]);
      } else {
        var j :| 0 <= j < |rows| && !RowAccepted(policy, rows[j]);
        if j > 0 {
          assert !RowAccepted(policy, rows[1..][j - 1]);
        }
      }
    }
  }

  /** A successful positional load keeps the three-field rows verbatim:
      every record is the three fields of some data row. */
  lemma {:induction false} LoadPositionalRecords(policy: ShortRows, rows: seq<Row>)
    requires LoadPositional(policy, rows).Success?
    ensures forall k :: 0 <= k < |LoadPositional(policy, rows).value| ==>
              exists i :: 0 <= i < |rows| && |rows[i]| == 3
                          && LoadPositional(policy, rows).value[k] == ScanRecord(rows[i][0], rows[i][1], rows[i][2])
  {
    if |rows| > 0 {
      var tail := rows[1..];
      LoadPositionalRecords(policy, tail);
      var r := LoadPositional(policy, rows).value;
      var t := LoadPositional(policy, tail).value;
      var shift := if |rows[0]| == 3 then 1 else 0;
      assert r == (if |rows[0]| == 3 then [ScanRecord(rows[0][0], rows[0][1], rows[0][2])] + t else t);
      forall k | 0 <= k < |r|
        ensures exists i :: 0 <= i < |rows| && |rows[i]| == 3 && r[k] == ScanRecord(rows[i][0], rows[i][1], rows[i][2])
      {
        if k < shift {
          assert |rows[0]| == 3 && r[k] == ScanRecord(rows[0][0], rows[0][1], rows[0][2]);
        } else {
          assert r[k] == t[k - shift];
          var i :| 0 <= i < |tail| && |tail[i]| == 3 && t[k - shift] == ScanRecord(tail[i][0], tail[i][1], tail[i][2]);
          assert tail[i] == rows[i + 1];
        }
      }
    }
  }

  /** `load_csv_data` of a desktop variant: the first row is the header and
      is skipped unread. */
  function LoadScanFile(policy: ShortRows, file: seq<Row>): (r: Result<seq<ScanRecord>, LoadError>)
    ensures |file| == 0 ==> r == Failure(NoHeaderRow)
    ensures |file| > 0 ==> r == LoadPositional(policy, file[1..])
  {
    if |file| == 0 then Failure(NoHeaderRow) else LoadPositional(policy, file[1..])
  }

  /** The `(sku, location)` pairs of the flat list, as the grid indexes them. */
  function Entries(flat: seq<ScanRecord>): (es: seq<Entry>)
    ensures |es| == |flat|
    ensures forall i :: 0 <= i < |flat| ==> es[i] == (flat[i].sku, flat[i].location)
  {
    if |flat| == 0 then [] else Entries(flat[..|flat| - 1]) + [(flat[|flat| - 1].sku, flat[|flat| - 1].location)]
  }
}

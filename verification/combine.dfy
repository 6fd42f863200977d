// The offline merge of scan files into one file of unique
// (SKU, location) scans, and `check_combined.py`, which counts its rows and pairs.

module Combine {
  import opened Wrappers
  import opened Loading
  import opened Seqs

  /** The header row the merged file is written with. */
  const OutputHeader: Row := ["Timestamp", "SKU", "Location"]

  /** A file is merged when its header has at least three entries and names
      all three columns; any other file is skipped. */
  predicate HeaderOk(header: Row) {
    |header| >= 3 && "Timestamp" in header && "SKU" in header && "Location" in header
  }

  /** `list.index`: the first position holding `x`. */
  function IndexOf(xs: Row, x: string): (i: nat)
    requires x in xs
    ensures i < |xs| && xs[i] == x
    ensures forall j :: 0 <= j < i ==> xs[j] != x
  {
    if xs[0] == x then 0
    else
      assert x in xs[1..] by { var j :| 0 <= j < |xs| && xs[j] == x; assert xs[1..][j - 1] == x; }
      1 + IndexOf(xs[1..], x)
  }

  /** The positions of the three columns in a file's rows. */
  datatype Columns = Columns(timestamp: nat, sku: nat, location: nat)

  /** The largest of the three positions: a row must reach it to be read. */
  function MaxColumn(c: Columns): nat {
    Max(c.timestamp, Max(c.sku, c.location))
  }

  /** The positions a header names. The three names differ, so their
      positions do too, and the last of them is at least the third field. */
  function HeaderColumns(header: Row): (c: Columns)
    requires HeaderOk(header)
    ensures MaxColumn(c) < |header|
    ensures header[c.timestamp] == "Timestamp" && header[c.sku] == "SKU" && header[c.location] == "Location"
    ensures MaxColumn(c) >= 2
  {
    Columns(IndexOf(header, "Timestamp"), IndexOf(header, "SKU"), IndexOf(header, "Location"))
  }

  /** The scan a row holds at the header's positions. */
  function RowRecord(c: Columns, row: Row): ScanRecord
    requires MaxColumn(c) < |row|
  {
    ScanRecord(row[c.timestamp], row[c.sku], row[c.location])
  }

  /** Why the merge as written stops: a row passes the three-field guard
      but is shorter than a header position, and indexing it raises. */
  datatype CombineError = IndexError

  /** A row the three-field guard lets through that does not reach every
      header position. */
  predicate ShortOfColumns(c: Columns, row: Row) {
    |row| >= 3 && |row| <= MaxColumn(c)
  }

  /** The data rows of a merged file as written: rows of fewer than three
      fields are skipped, the others are indexed at the header's positions. */
  function RowsAsWritten(c: Columns, rows: seq<Row>): (r: Result<seq<ScanRecord>, CombineError>)
    ensures r.Failure? <==> exists i :: 0 <= i < |rows| && ShortOfColumns(c, rows[i])
    ensures r.Success? ==> r.value == ReadableRows(c, rows)
  {
    if |rows| == 0 then Success([])
    else
      var row := rows[0];
      var rest := RowsAsWritten(c, rows[1..]);
      assert (exists i :: 0 <= i < |rows| && ShortOfColumns(c, rows[i]))
               <==> ShortOfColumns(c, row) || exists i :: 0 <= i < |rows[1..]| && ShortOfColumns(c, rows[1..][i]) by {
        if i :| 0 <= i < |rows| && ShortOfColumns(c, rows[i]) {
          if i > 0 { assert rows[1..][i - 1] == rows[i]; }
        }
        if i :| 0 <= i < |rows[1..]| && ShortOfColumns(c, rows[1..][i]) {
          assert rows[i + 1] == rows[1..][i];
        }
      }
      if |row| < 3 then rest
      else if MaxColumn(c) >= |row| then Failure(IndexError)
      else
        match rest
        case Success(recs) => Success([RowRecord(c, row)] + recs)
        case Failure(e) => Failure(e)
  }

  /** A row the merge reads: one that has at least three fields and reaches
      every header position. */
  predicate Readable(c: Columns, row: Row) {
    |row| >= 3 && MaxColumn(c) < |row|
  }

  /** The scans of the readable rows, in file order; shorter rows are
      skipped like rows of fewer than three fields. */
  function ReadableRows(c: Columns, rows: seq<Row>): (recs: seq<ScanRecord>)
    ensures |recs| <= |rows|
    ensures forall r :: r in recs <==> exists i :: 0 <= i < |rows| && Readable(c, rows[i]) && r == RowRecord(c, rows[i])
  {
    if |rows| == 0 then []
    else
      var row := rows[0];
      var rest := ReadableRows(c, rows[1..]);
      var recs := if Readable(c, row) then [RowRecord(c, row)] + rest else rest;
      assert forall r :: r in recs <==> exists i :: 0 <= i < |rows| && Readable(c, rows[i]) && r == RowRecord(c, rows[i]) by {
        forall r | r in recs ensures exists i :: 0 <= i < |rows| && Readable(c, rows[i]) && r == RowRecord(c, rows[i]) {
          if r in rest {
            var i :| 0 <= i < |rows[1..]| && Readable(c, rows[1..][i]) && r == RowRecord(c, rows[1..][i]);
            assert rows[i + 1] == rows[1..][i];
          }
        }
        forall r | exists i :: 0 <= i < |rows| && Readable(c, rows[i]) && r == RowRecord(c, rows[i]) ensures r in recs {
          var i :| 0 <= i < |rows| && Readable(c, rows[i]) && r == RowRecord(c, rows[i]);
          if i > 0 { assert rows[1..][i - 1] == rows[i]; }
        }
      }
      recs
  }

  /** The scans one file contributes; a file without a row or with a
      header that does not name the three columns contributes none. */
  function FileRecords(file: seq<Row>): (recs: seq<ScanRecord>)
    ensures |file| == 0 || !HeaderOk(file[0]) ==> recs == []
    ensures |file| > 0 && HeaderOk(file[0]) ==> recs == ReadableRows(HeaderColumns(file[0]), file[1..])
  {
    if |file| == 0 || !HeaderOk(file[0]) then [] else ReadableRows(HeaderColumns(file[0]), file[1..])
  }

  /** A merged file the merge as written stops on. */
  predicate HasShortRow(file: seq<Row>) {
    |file| > 0 && HeaderOk(file[0]) && exists i :: 1 <= i < |file| && ShortOfColumns(HeaderColumns(file[0]), file[i])
  }

  /** The scans one file contributes as written: the merge stops on a row
      that does not reach a header position. */
  function FileRecordsAsWritten(file: seq<Row>): (r: Result<seq<ScanRecord>, CombineError>)
    ensures r.Failure? <==> HasShortRow(file)
    ensures r.Success? ==> r.value == FileRecords(file)
  {
    if |file| == 0 || !HeaderOk(file[0]) then Success([])
    else
      var c := HeaderColumns(file[0]);
      assert (exists i :: 1 <= i < |file| && ShortOfColumns(c, file[i]))
               <==> exists i :: 0 <= i < |file[1..]| && ShortOfColumns(c, file[1..][i]) by {
        if i :| 1 <= i < |file| && ShortOfColumns(c, file[i]) { assert file[1..][i - 1] == file[i]; }
        if i :| 0 <= i < |file[1..]| && ShortOfColumns(c, file[1..][i]) { assert file[i + 1] == file[1..][i]; }
      }
      RowsAsWritten(c, file[1..])
  }

  /** The scans of all files, in the order the files are listed. */
  function AllRecords(files: seq<seq<Row>>): (recs: seq<ScanRecord>)
    ensures |files| > 0 ==> recs == FileRecords(files[0]) + AllRecords(files[1..])
    ensures forall r :: r in recs <==> exists f :: 0 <= f < |files| && r in FileRecords(files[f])
  {
    if |files| == 0 then []
    else
      var recs := FileRecords(files[0]) + AllRecords(files[1..]);
      assert forall r :: r in recs <==> exists f :: 0 <= f < |files| && r in FileRecords(files[f]) by {
        forall r | r in recs ensures exists f :: 0 <= f < |files| && r in FileRecords(files[f]) {
          if r !in FileRecords(files[0]) {
            var f :| 0 <= f < |files[1..]| && r in FileRecords(files[1..][f]);
            assert files[f + 1] == files[1..][f];
          }
        }
        forall r | exists f :: 0 <= f < |files| && r in FileRecords(files[f]) ensures r in recs {
          var f :| 0 <= f < |files| && r in FileRecords(files[f]);
          if f > 0 { assert files[1..][f - 1] == files[f]; }
        }
      }
      recs
  }

  /** The scans of all files as written: the first file holding a short
      row stops the merge, and nothing is written. */
  function AllRecordsAsWritten(files: seq<seq<Row>>): (r: Result<seq<ScanRecord>, CombineError>)
    ensures r.Failure? <==> exists f :: 0 <= f < |files| && HasShortRow(files[f])
    ensures r.Success? ==> r.value == AllRecords(files)
  {
    if |files| == 0 then Success([])
    else
      ShortFileStep(files);
      match FileRecordsAsWritten(files[0])
      case Failure(e) => Failure(e)
      case Success(first) =>
        match AllRecordsAsWritten(files[1..])
        case Failure(e) => Failure(e)
        case Success(rest) => Success(first + rest)
  }

  /** Some file holds a short row. */
  ghost predicate AnyShortFile(files: seq<seq<Row>>) {
    exists f :: 0 <= f < |files| && HasShortRow(files[f])
  }

  /** A short row is in the first file or in one of the rest. */
  lemma ShortFileStep(files: seq<seq<Row>>)
    requires |files| > 0
    ensures AnyShortFile(files) <==> HasShortRow(files[0]) || AnyShortFile(files[1..])
  {
    assert forall f :: 0 < f < |files| ==> files[1..][f - 1] == files[f];
  }

  /** The dictionary key of a scan. */
  function Key(r: ScanRecord): (string, string) {
    (r.sku, r.location)
  }

  /** The keys of a list of scans, in order. */
  function Keys(recs: seq<ScanRecord>): (ks: seq<(string, string)>)
    ensures |ks| == |recs|
    ensures forall i :: 0 <= i < |recs| ==> ks[i] == Key(recs[i])
  {
    seq(|recs|, i requires 0 <= i < |recs| => Key(recs[i]))
  }

  /** The position of the first scan with key `k`, or `|recs|` when no
      scan has it. */
  function FirstWithKey(recs: seq<ScanRecord>, k: (string, string)): (j: nat)
    ensures j <= |recs|
    ensures forall i :: 0 <= i < j ==> Key(recs[i]) != k
    ensures j < |recs| ==> Key(recs[j]) == k
  {
    if |recs| == 0 then 0
    else
      var init := recs[..|recs| - 1];
      var j := FirstWithKey(init, k);
      assert forall i :: 0 <= i < |init| ==> recs[i] == init[i];
      if j < |init| then j
      else if Key(recs[|init|]) == k then |init|
      else |recs|
  }

  /** `out` holds the first scan of every key of `recs`, one per key,
      ordered by where each key is first seen. */
  ghost predicate FirstSeen(recs: seq<ScanRecord>, out: seq<ScanRecord>) {
    && (forall i :: 0 <= i < |recs| ==> Key(recs[i]) in Keys(out))
    && (forall j :: 0 <= j < |out| ==>
          FirstWithKey(recs, Key(out[j])) < |recs| && out[j] == recs[FirstWithKey(recs, Key(out[j]))])
    && (forall j1, j2 :: 0 <= j1 < j2 < |out| ==>
          FirstWithKey(recs, Key(out[j1])) < FirstWithKey(recs, Key(out[j2])))
  }

  /** The first scan of each key, in the order the keys were first seen,
      with the timestamp that scan carries: what the dictionary of
      `combine_csv_files` holds once every row is read. */
  function Dedup(recs: seq<ScanRecord>): (out: seq<ScanRecord>)
    ensures FirstSeen(recs, out)
    ensures Distinct(Keys(out))
  {
    if |recs| == 0 then []
    else
      var init := recs[..|recs| - 1];
      var acc := Dedup(init);
      var last := recs[|recs| - 1];
      var out := if Key(last) in Keys(acc) then acc else acc + [last];
      DedupStep(recs, acc);
      FirstSeenDistinct(recs, out);
      out
  }

  /** Two entries first seen at different places have different keys. */
  lemma FirstSeenDistinct(recs: seq<ScanRecord>, out: seq<ScanRecord>)
    requires FirstSeen(recs, out)
    ensures Distinct(Keys(out))
  {
    forall j1, j2 | 0 <= j1 < j2 < |Keys(out)| ensures Keys(out)[j1] != Keys(out)[j2] {
      assert FirstWithKey(recs, Key(out[j1])) < FirstWithKey(recs, Key(out[j2]));
    }
  }

  /** One more scan keeps the dictionary's invariant. */
  lemma DedupStep(recs: seq<ScanRecord>, acc: seq<ScanRecord>)
    requires |recs| > 0 && FirstSeen(recs[..|recs| - 1], acc)
    ensures FirstSeen(recs, if Key(recs[|recs| - 1]) in Keys(acc) then acc else acc + [recs[|recs| - 1]])
  {
    if Key(recs[|recs| - 1]) in Keys(acc) {
      DedupSeen(recs, acc);
    } else {
      DedupNew(recs, acc);
    }
  }

  /** A scan whose key was seen before leaves the dictionary as it was. */
  lemma DedupSeen(recs: seq<ScanRecord>, acc: seq<ScanRecord>)
    requires |recs| > 0 && FirstSeen(recs[..|recs| - 1], acc)
    requires Key(recs[|recs| - 1]) in Keys(acc)
    ensures FirstSeen(recs, acc)
  {
    var init := recs[..|recs| - 1];
    forall j | 0 <= j < |acc|
      ensures FirstWithKey(recs, Key(acc[j])) == FirstWithKey(init, Key(acc[j]))
    {
      FirstWithKeyKept(recs, Key(acc[j]));
    }
    forall i | 0 <= i < |recs| ensures Key(recs[i]) in Keys(acc) {
      if i < |init| { assert recs[i] == init[i]; }
    }
    forall j | 0 <= j < |acc| ensures acc[j] == recs[FirstWithKey(recs, Key(acc[j]))] {
      var f := FirstWithKey(init, Key(acc[j]));
      assert recs[f] == init[f];
    }
  }

  /** A scan with a new key is added at the end of the dictionary. */
  lemma DedupNew(recs: seq<ScanRecord>, acc: seq<ScanRecord>)
    requires |recs| > 0 && FirstSeen(recs[..|recs| - 1], acc)
    requires Key(recs[|recs| - 1]) !in Keys(acc)
    ensures FirstSeen(recs, acc + [recs[|recs| - 1]])
  {
    KeptPositions(recs, acc);
    NewKeyIsLast(recs, acc);
    DedupNewComplete(recs, acc);
    DedupNewFirst(recs, acc);
    DedupNewOrdered(recs, acc);
  }

  /** The keys already in the dictionary keep their first positions. */
  lemma KeptPositions(recs: seq<ScanRecord>, acc: seq<ScanRecord>)
    requires |recs| > 0 && FirstSeen(recs[..|recs| - 1], acc)
    ensures forall j :: 0 <= j < |acc| ==>
              FirstWithKey(recs, Key(acc[j])) == FirstWithKey(recs[..|recs| - 1], Key(acc[j]))
  {
    forall j | 0 <= j < |acc|
      ensures FirstWithKey(recs, Key(acc[j])) == FirstWithKey(recs[..|recs| - 1], Key(acc[j]))
    {
      FirstWithKeyKept(recs, Key(acc[j]));
    }
  }

  /** A key the dictionary lacks is first seen at the last scan. */
  lemma NewKeyIsLast(recs: seq<ScanRecord>, acc: seq<ScanRecord>)
    requires |recs| > 0 && FirstSeen(recs[..|recs| - 1], acc)
    requires Key(recs[|recs| - 1]) !in Keys(acc)
    ensures FirstWithKey(recs, Key(recs[|recs| - 1])) == |recs| - 1
  {
  }

  lemma DedupNewComplete(recs: seq<ScanRecord>, acc: seq<ScanRecord>)
    requires |recs| > 0 && FirstSeen(recs[..|recs| - 1], acc)
    ensures forall i :: 0 <= i < |recs| ==> Key(recs[i]) in Keys(acc + [recs[|recs| - 1]])
  {
    var init, last := recs[..|recs| - 1], recs[|recs| - 1];
    var out := acc + [last];
    forall i | 0 <= i < |recs| ensures Key(recs[i]) in Keys(out) {
      if i < |init| {
        assert recs[i] == init[i];
        var j :| 0 <= j < |acc| && Keys(acc)[j] == Key(init[i]);
        assert Keys(out)[j] == Key(acc[j]);
      } else {
        assert Keys(out)[|acc|] == Key(last);
      }
    }
  }

  lemma DedupNewFirst(recs: seq<ScanRecord>, acc: seq<ScanRecord>)
    requires |recs| > 0 && FirstSeen(recs[..|recs| - 1], acc)
    requires forall j :: 0 <= j < |acc| ==>
               FirstWithKey(recs, Key(acc[j])) == FirstWithKey(recs[..|recs| - 1], Key(acc[j]))
    requires FirstWithKey(recs, Key(recs[|recs| - 1])) == |recs| - 1
    ensures var out := acc + [recs[|recs| - 1]];
            forall j :: 0 <= j < |out| ==>
              FirstWithKey(recs, Key(out[j])) < |recs| && out[j] == recs[FirstWithKey(recs, Key(out[j]))]
  {
    var init, last := recs[..|recs| - 1], recs[|recs| - 1];
    var out := acc + [last];
    forall j | 0 <= j < |out|
      ensures FirstWithKey(recs, Key(out[j])) < |recs| && out[j] == recs[FirstWithKey(recs, Key(out[j]))]
    {
      if j < |acc| {
        assert out[j] == acc[j];
        var f := FirstWithKey(init, Key(acc[j]));
        assert recs[f] == init[f];
      }
    }
  }

  lemma DedupNewOrdered(recs: seq<ScanRecord>, acc: seq<ScanRecord>)
    requires |recs| > 0 && FirstSeen(recs[..|recs| - 1], acc)
    requires forall j :: 0 <= j < |acc| ==>
               FirstWithKey(recs, Key(acc[j])) == FirstWithKey(recs[..|recs| - 1], Key(acc[j]))
    requires FirstWithKey(recs, Key(recs[|recs| - 1])) == |recs| - 1
    ensures var out := acc + [recs[|recs| - 1]];
            forall j1, j2 :: 0 <= j1 < j2 < |out| ==>
              FirstWithKey(recs, Key(out[j1])) < FirstWithKey(recs, Key(out[j2]))
  {
    var out := acc + [recs[|recs| - 1]];
    forall j1, j2 | 0 <= j1 < j2 < |out|
      ensures FirstWithKey(recs, Key(out[j1])) < FirstWithKey(recs, Key(out[j2]))
    {
      assert out[j1] == acc[j1];
      if j2 < |acc| { assert out[j2] == acc[j2]; }
    }
  }

  /** A key already seen in the earlier scans keeps its first position. */
  lemma FirstWithKeyKept(recs: seq<ScanRecord>, k: (string, string))
    requires |recs| > 0 && FirstWithKey(recs[..|recs| - 1], k) < |recs| - 1
    ensures FirstWithKey(recs, k) == FirstWithKey(recs[..|recs| - 1], k)
  {
  }

  /** The rows written after the header: timestamp, SKU, location. */
  function OutputRows(recs: seq<ScanRecord>): (rows: seq<Row>)
    ensures |rows| == |recs|
    ensures forall i :: 0 <= i < |recs| ==> rows[i] == [recs[i].timestamp, recs[i].sku, recs[i].location]
  {
    seq(|recs|, i requires 0 <= i < |recs| => [recs[i].timestamp, recs[i].sku, recs[i].location])
  }

  /** Some data row of the written file holds this record's SKU and
      location. */
  ghost predicate HasRow(out: seq<Row>, r: ScanRecord) {
    exists i :: 1 <= i < |out| && |out[i]| >= 3 && out[i][1] == r.sku && out[i][2] == r.location
  }

  /** The merged file written from the scans read: the header row, then
      one row per distinct (SKU, location) with the timestamp of its first
      scan, in first-seen order. */
  function WriteMerged(recs: seq<ScanRecord>): (out: seq<Row>)
    ensures |out| >= 1 && out[0] == OutputHeader
    ensures forall i :: 1 <= i < |out| ==> |out[i]| == 3
    ensures forall r :: r in recs ==> HasRow(out, r)
    ensures forall i :: 1 <= i < |out| ==>
              var f := FirstWithKey(recs, (out[i][1], out[i][2]));
              f < |recs| && out[i][0] == recs[f].timestamp
    ensures forall i, j :: 1 <= i < j < |out| ==> (out[i][1], out[i][2]) != (out[j][1], out[j][2])
    ensures forall i, j :: 1 <= i < j < |out| ==>
              FirstWithKey(recs, (out[i][1], out[i][2])) < FirstWithKey(recs, (out[j][1], out[j][2]))
  {
    var uniq := Dedup(recs);
    var out := [OutputHeader] + OutputRows(uniq);
    WrittenRows(uniq, out);
    WrittenComplete(recs, uniq, out);
    WrittenFirst(recs, uniq, out);
    WrittenDistinct(uniq, out);
    WrittenOrdered(recs, uniq, out);
    out
  }

  lemma WrittenRows(uniq: seq<ScanRecord>, out: seq<Row>)
    requires out == [OutputHeader] + OutputRows(uniq)
    ensures |out| == |uniq| + 1
    ensures forall i :: 1 <= i < |out| ==> out[i] == [uniq[i - 1].timestamp, uniq[i - 1].sku, uniq[i - 1].location]
  {
  }

  lemma WrittenComplete(recs: seq<ScanRecord>, uniq: seq<ScanRecord>, out: seq<Row>)
    requires FirstSeen(recs, uniq)
    requires |out| == |uniq| + 1
    requires forall i :: 1 <= i < |out| ==> out[i] == [uniq[i - 1].timestamp, uniq[i - 1].sku, uniq[i - 1].location]
    ensures forall r :: r in recs ==> HasRow(out, r)
  {
    forall r | r in recs ensures HasRow(out, r) {
      var n :| 0 <= n < |recs| && recs[n] == r;
      assert Key(recs[n]) in Keys(uniq);
      var j :| 0 <= j < |uniq| && Keys(uniq)[j] == Key(r);
      assert out[j + 1][1] == r.sku && out[j + 1][2] == r.location;
    }
  }

  lemma WrittenFirst(recs: seq<ScanRecord>, uniq: seq<ScanRecord>, out: seq<Row>)
    requires FirstSeen(recs, uniq)
    requires |out| == |uniq| + 1
    requires forall i :: 1 <= i < |out| ==> out[i] == [uniq[i - 1].timestamp, uniq[i - 1].sku, uniq[i - 1].location]
    ensures forall i :: 1 <= i < |out| ==>
              var f := FirstWithKey(recs, (out[i][1], out[i][2]));
              f < |recs| && out[i][0] == recs[f].timestamp
  {
    forall i | 1 <= i < |out|
      ensures var f := FirstWithKey(recs, (out[i][1], out[i][2])); f < |recs| && out[i][0] == recs[f].timestamp
    {
      assert (out[i][1], out[i][2]) == Key(uniq[i - 1]);
    }
  }

  lemma WrittenDistinct(uniq: seq<ScanRecord>, out: seq<Row>)
    requires Distinct(Keys(uniq))
    requires |out| == |uniq| + 1
    requires forall i :: 1 <= i < |out| ==> out[i] == [uniq[i - 1].timestamp, uniq[i - 1].sku, uniq[i - 1].location]
    ensures forall i, j :: 1 <= i < j < |out| ==> (out[i][1], out[i][2]) != (out[j][1], out[j][2])
  {
    forall i, j | 1 <= i < j < |out| ensures (out[i][1], out[i][2]) != (out[j][1], out[j][2]) {
      assert Keys(uniq)[i - 1] != Keys(uniq)[j - 1];
    }
  }

  lemma WrittenOrdered(recs: seq<ScanRecord>, uniq: seq<ScanRecord>, out: seq<Row>)
    requires FirstSeen(recs, uniq)
    requires |out| == |uniq| + 1
    requires forall i :: 1 <= i < |out| ==> out[i] == [uniq[i - 1].timestamp, uniq[i - 1].sku, uniq[i - 1].location]
    ensures forall i, j :: 1 <= i < j < |out| ==>
              FirstWithKey(recs, (out[i][1], out[i][2])) < FirstWithKey(recs, (out[j][1], out[j][2]))
  {
    forall i, j | 1 <= i < j < |out|
      ensures FirstWithKey(recs, (out[i][1], out[i][2])) < FirstWithKey(recs, (out[j][1], out[j][2]))
    {
      assert (out[i][1], out[i][2]) == Key(uniq[i - 1]);
      assert (out[j][1], out[j][2]) == Key(uniq[j - 1]);
    }
  }

  /** `combine_csv_files` with the intended row guard: the merged file
      written from the readable rows of every file whose header names the
      three columns, files taken in the order given. */
  function CombineFiles(files: seq<seq<Row>>): (out: seq<Row>)
    ensures |out| >= 1 && out[0] == OutputHeader
    ensures forall i :: 1 <= i < |out| ==> |out[i]| == 3
    ensures forall f, r :: 0 <= f < |files| && r in FileRecords(files[f]) ==> HasRow(out, r)
    ensures forall i :: 1 <= i < |out| ==>
              var f := FirstWithKey(AllRecords(files), (out[i][1], out[i][2]));
              f < |AllRecords(files)| && out[i][0] == AllRecords(files)[f].timestamp
    ensures forall i, j :: 1 <= i < j < |out| ==> (out[i][1], out[i][2]) != (out[j][1], out[j][2])
    ensures forall i, j :: 1 <= i < j < |out| ==>
              FirstWithKey(AllRecords(files), (out[i][1], out[i][2])) < FirstWithKey(AllRecords(files), (out[j][1], out[j][2]))
  {
    var out := WriteMerged(AllRecords(files));
    assert forall f, r :: 0 <= f < |files| && r in FileRecords(files[f]) ==> HasRow(out, r) by {
      forall f, r | 0 <= f < |files| && r in FileRecords(files[f]) ensures HasRow(out, r) {
        assert r in AllRecords(files);
      }
    }
    out
  }

  /** `combine_csv_files` as written: it stops on a row that passes the
      three-field guard but falls short of a header position, and otherwise
      writes what the intended merge writes. */
  function CombineAsWritten(files: seq<seq<Row>>): (r: Result<seq<Row>, CombineError>)
    ensures r.Failure? <==> exists f :: 0 <= f < |files| && HasShortRow(files[f])
    ensures r.Success? ==> r.value == CombineFiles(files)
  {
    match AllRecordsAsWritten(files)
    case Failure(e) => Failure(e)
    case Success(recs) => Success(WriteMerged(recs))
  }

  /** A header with a fourth column between SKU and Location, and a data
      row of three fields: the guard lets the row through, indexing its
      fourth field raises, and no merged file is written. The intended
      merge skips the row. */
  lemma WiderHeaderStopsTheMerge()
    ensures var files := [[["Timestamp", "SKU", "Note", "Location"], ["t1", "SKU000001", "n"]]];
            && CombineAsWritten(files).Failure?
            && CombineFiles(files) == [OutputHeader]
  {
    var header: Row := ["Timestamp", "SKU", "Note", "Location"];
    var file := [header, ["t1", "SKU000001", "n"]];
    assert HeaderOk(header) by {
      assert header[0] == "Timestamp" && header[1] == "SKU" && header[3] == "Location";
    }
    assert IndexOf(header, "Location") == 3 by {
      assert header[1..][1..][1..][0] == "Location";
    }
    assert HasShortRow(file) by { assert ShortOfColumns(HeaderColumns(header), file[1]); }
    assert ReadableRows(HeaderColumns(header), file[1..]) == [];
    var files: seq<seq<Row>> := [file];
    assert files[1..] == [];
  }

  /** What `analyze_combined_csv` reports about a file. */
  datatype Report = Report(rowCount: nat, pairs: set<(string, string)>, allUnique: bool)

  /** Why `check_combined.py` stops: the file has no header row to skip. */
  datatype CheckError = EmptyFile

  /** The (SKU, location) pairs of the rows of at least three fields, read
      from the second and third fields, in order. */
  function PairList(rows: seq<Row>): (ps: seq<(string, string)>)
    ensures |ps| <= |rows|
    ensures |ps| == |rows| <==> forall i :: 0 <= i < |rows| ==> |rows[i]| >= 3
    ensures forall p :: p in ps <==> exists i :: 0 <= i < |rows| && |rows[i]| >= 3 && p == (rows[i][1], rows[i][2])
  {
    if |rows| == 0 then []
    else
      var rest := PairList(rows[1..]);
      var ps := if |rows[0]| >= 3 then [(rows[0][1], rows[0][2])] + rest else rest;
      assert (|ps| == |rows|) <==> forall i :: 0 <= i < |rows| ==> |rows[i]| >= 3 by {
        if forall i :: 0 <= i < |rows| ==> |rows[i]| >= 3 {
          forall i | 0 <= i < |rows[1..]| ensures |rows[1..][i]| >= 3 { assert rows[1..][i] == rows[i + 1]; }
        }
        if |ps| == |rows| {
          forall i | 0 <= i < |rows| ensures |rows[i]| >= 3 {
            if i > 0 { assert rows[1..][i - 1] == rows[i]; }
          }
        }
      }
      assert forall p :: p in ps <==> exists i :: 0 <= i < |rows| && |rows[i]| >= 3 && p == (rows[i][1], rows[i][2]) by {
        forall p | p in ps ensures exists i :: 0 <= i < |rows| && |rows[i]| >= 3 && p == (rows[i][1], rows[i][2]) {
          if p in rest {
            var i :| 0 <= i < |rows[1..]| && |rows[1..][i]| >= 3 && p == (rows[1..][i][1], rows[1..][i][2]);
            assert rows[i + 1] == rows[1..][i];
          }
        }
        forall p | exists i :: 0 <= i < |rows| && |rows[i]| >= 3 && p == (rows[i][1], rows[i][2]) ensures p in ps {
          var i :| 0 <= i < |rows| && |rows[i]| >= 3 && p == (rows[i][1], rows[i][2]);
          if i > 0 { assert rows[1..][i - 1] == rows[i]; }
        }
      }
      ps
  }

  /** `analyze_combined_csv`: the number of rows after the header, the set
      of their (SKU, location) pairs, and whether every row gave a pair no
      other row gave. A file without a header row is an error. */
  function AnalyzeCombined(file: seq<Row>): (r: Result<Report, CheckError>)
    ensures r.Failure? <==> |file| == 0
    ensures r.Success? ==> r.value.rowCount == |file| - 1
    ensures r.Success? ==> forall p :: p in r.value.pairs <==>
              exists i :: 1 <= i < |file| && |file[i]| >= 3 && p == (file[i][1], file[i][2])
    ensures r.Success? ==> |r.value.pairs| <= r.value.rowCount
    ensures r.Success? ==>
              (r.value.allUnique <==> (forall i :: 1 <= i < |file| ==> |file[i]| >= 3) && Distinct(PairList(file[1..])))
  {
    if |file| == 0 then Failure(EmptyFile)
    else
      var rows := file[1..];
      var ps := PairList(rows);
      var pairs := set p | p in ps;
      SetCardinality(ps);
      assert (forall i :: 1 <= i < |file| ==> |file[i]| >= 3) <==> forall i :: 0 <= i < |rows| ==> |rows[i]| >= 3 by {
        assert forall i :: 0 <= i < |rows| ==> rows[i] == file[i + 1];
      }
      assert forall p :: p in pairs <==> exists i :: 1 <= i < |file| && |file[i]| >= 3 && p == (file[i][1], file[i][2]) by {
        forall p ensures p in pairs <==> exists i :: 1 <= i < |file| && |file[i]| >= 3 && p == (file[i][1], file[i][2]) {
          if i :| 0 <= i < |rows| && |rows[i]| >= 3 && p == (rows[i][1], rows[i][2]) { assert rows[i] == file[i + 1]; }
          if i :| 1 <= i < |file| && |file[i]| >= 3 && p == (file[i][1], file[i][2]) { assert rows[i - 1] == file[i]; }
        }
      }
      Success(Report(|rows|, pairs, |rows| == |pairs|))
  }

  /** `check_combined.py` passes what the merge writes: every row after the header
      gives a pair, and no pair repeats. */
  lemma CombinedFileIsAllUnique(files: seq<seq<Row>>)
    ensures AnalyzeCombined(CombineFiles(files)).Success?
    ensures AnalyzeCombined(CombineFiles(files)).value.allUnique
  {
    DistinctRowsAreAllUnique(CombineFiles(files));
  }

  /** A file whose rows after the header all have three fields and pairwise
      different (SKU, location) passes `check_combined.py`. */
  lemma DistinctRowsAreAllUnique(out: seq<Row>)
    requires |out| >= 1
    requires forall i :: 1 <= i < |out| ==> |out[i]| == 3
    requires forall i, j :: 1 <= i < j < |out| ==> (out[i][1], out[i][2]) != (out[j][1], out[j][2])
    ensures AnalyzeCombined(out).Success? && AnalyzeCombined(out).value.allUnique
  {
    var rows := out[1..];
    assert forall i :: 0 <= i < |rows| ==> rows[i] == out[i + 1];
    PairListOfFullRows(rows);
    var ps := PairList(rows);
    forall i, j | 0 <= i < j < |ps| ensures ps[i] != ps[j] {
      assert ps[i] == (out[i + 1][1], out[i + 1][2]) && ps[j] == (out[j + 1][1], out[j + 1][2]);
    }
  }

  /** When every row has three fields or more, the pair list reads the
      pair of each row at its own position. */
  lemma {:induction false} PairListOfFullRows(rows: seq<Row>)
    requires forall i :: 0 <= i < |rows| ==> |rows[i]| >= 3
    ensures forall i :: 0 <= i < |rows| ==> PairList(rows)[i] == (rows[i][1], rows[i][2])
  {
    if |rows| > 0 {
      PairListOfFullRows(rows[1..]);
      assert forall i :: 1 <= i < |rows| ==> rows[1..][i - 1] == rows[i];
    }
  }
}

// The state a desktop variant keeps between loads: the flat list of records
// that search reads and the grid index that drawing and cell details read.

module Session {
  import opened Wrappers
  import opened Location
  import opened GridIndex
  import opened Loading

  datatype Session = Session(flat: seq<ScanRecord>, grid: Grid)

  /** The index is the one built from the flat list. */
  ghost predicate Consistent(s: Session) {
    s.grid == BuildIndex(SplitSlices, Entries(s.flat))
  }

  const Initial: Session := Session([], EmptyGrid)

  /** The records a load has appended to the flat list when it stops. */
  function Appended(r: Result<seq<ScanRecord>, LoadError>): seq<ScanRecord> {
    match r
    case Success(recs) => recs
    case Failure(BadArity(partial)) => partial
    case Failure(_) => []
  }

  /** `load_data_from_file` as written: the flat list is reset before the
      file is read, records are appended as rows are unpacked, and the grid
      is replaced only when the whole file loads. */
  function ReloadAsWritten(policy: ShortRows, s: Session, file: seq<Row>): (r: Session)
    ensures r.flat == Appended(LoadScanFile(policy, file))
    ensures LoadScanFile(policy, file).Success? ==> Consistent(r)
    ensures LoadScanFile(policy, file).Failure? ==> r.grid == s.grid
  {
    var loaded := LoadScanFile(policy, file);
    if loaded.Success? then Session(loaded.value, BuildIndex(SplitSlices, Entries(loaded.value)))
    else Session(Appended(loaded), s.grid)
  }

  /** A reload that fails after appending a record whose location decodes
      to a cell the old grid lacks leaves search and grid out of step. */
  lemma PartialReloadDesynchronises(policy: ShortRows, s: Session, file: seq<Row>, i: nat, c: Cell)
    requires LoadScanFile(policy, file).Failure?
    requires i < |Appended(LoadScanFile(policy, file))|
    requires Decode(SplitSlices, Appended(LoadScanFile(policy, file))[i].location) == Some(c)
    requires c !in s.grid.bins
    ensures ReloadAsWritten(policy, s, file).grid == s.grid
    ensures !Consistent(ReloadAsWritten(policy, s, file))
  {
    var r := ReloadAsWritten(policy, s, file);
    var es := Entries(r.flat);
    var k := ScanListedAt(SplitSlices, es, c, i);
    BuiltCell(SplitSlices, es, c);
  }

  /** A file whose third data row is short: the reload fails after keeping
      two of its records, and the session shows those two in search while
      the grid still shows the previous, empty, file. */
  lemma ReloadAsWrittenDesynchronises()
    ensures var file := [["Timestamp", "SKU", "Location"],
                         ["t1", "SKU000001", "R1S32-N-AT1"],
                         ["t2", "SKU000002", "R1S33-N-AT1"],
                         ["t3"]];
            && Consistent(Initial)
            && ReloadAsWritten(RejectShortRows, Initial, file).flat ==
                 [ScanRecord("t1", "SKU000001", "R1S32-N-AT1"), ScanRecord("t2", "SKU000002", "R1S33-N-AT1")]
            && !Consistent(ReloadAsWritten(RejectShortRows, Initial, file))
  {
    var file := [["Timestamp", "SKU", "Location"],
                 ["t1", "SKU000001", "R1S32-N-AT1"],
                 ["t2", "SKU000002", "R1S33-N-AT1"],
                 ["t3"]];
    ShortThirdRowStops(file);
    DecodeBinCode(SplitSlices, "1S", "32", "-N-AT1");
    assert "R1S32-N-AT1" == "R" + "1S" + "32" + "-N-AT1";
    PartialReloadDesynchronises(RejectShortRows, Initial, file, 0, ("1S", "32"));
  }

  /** The example file stops at its third data row with two records kept. */
  lemma ShortThirdRowStops(file: seq<Row>)
    requires file == [["Timestamp", "SKU", "Location"],
                      ["t1", "SKU000001", "R1S32-N-AT1"],
                      ["t2", "SKU000002", "R1S33-N-AT1"],
                      ["t3"]]
    ensures LoadScanFile(RejectShortRows, file) ==
              Failure(BadArity([ScanRecord("t1", "SKU000001", "R1S32-N-AT1"), ScanRecord("t2", "SKU000002", "R1S33-N-AT1")]))
  {
    var rows := file[1..];
    var rec1, rec2 := ScanRecord("t1", "SKU000001", "R1S32-N-AT1"), ScanRecord("t2", "SKU000002", "R1S33-N-AT1");
    assert rows[0] == ["t1", "SKU000001", "R1S32-N-AT1"];
    assert rows[1..][0] == ["t2", "SKU000002", "R1S33-N-AT1"];
    assert rows[1..][1..] == [["t3"]];
    assert LoadPositional(RejectShortRows, rows[1..][1..]) == Failure(BadArity([]));
    var none: seq<ScanRecord> := [];
    assert [rec2] + none == [rec2];
    assert LoadPositional(RejectShortRows, rows[1..]) == Failure(BadArity([rec2]));
    assert LoadPositional(RejectShortRows, rows) == Failure(BadArity([rec1] + [rec2]));
    assert [rec1] + [rec2] == [rec1, rec2];
  }

  /** The intended reload: the new file replaces both views together, and a
      file that fails to load leaves the session as it was. */
  function ReloadAtomic(policy: ShortRows, s: Session, file: seq<Row>): (r: Session)
    ensures Consistent(s) ==> Consistent(r)
    ensures LoadScanFile(policy, file).Failure? ==> r == s
    ensures LoadScanFile(policy, file).Success? ==> r.flat == LoadScanFile(policy, file).value
  {
    match LoadScanFile(policy, file)
    case Success(recs) => Session(recs, BuildIndex(SplitSlices, Entries(recs)))
    case Failure(_) => s
  }

  /** The two reloads agree whenever the file loads. */
  lemma ReloadsAgreeOnSuccess(policy: ShortRows, s: Session, file: seq<Row>)
    requires LoadScanFile(policy, file).Success?
    ensures ReloadAsWritten(policy, s, file) == ReloadAtomic(policy, s, file)
  {
  }
}

// The cell-details view: the scans indexed at one cell, with the timestamp
// the desktop variants look up for each, and the rows the current filter or
// search highlights.

module Details {
  import opened Wrappers
  import opened Text
  import opened Location
  import opened GridIndex
  import opened Loading
  import opened Analysis
  import opened Search

  /** The scans listed for a cell, in insertion order; none for a cell the
      index does not hold. */
  function CellListing(g: Grid, c: Cell): (r: seq<Entry>)
    requires Valid(g)
    ensures r == [] <==> c !in g.bins
  {
    if c in g.bins then g.bins[c] else []
  }

  /** For an index built from a list, a cell's listing is the scans of the
      list decoding to it, in list order. */
  lemma BuiltListing(d: Decoder, es: seq<Entry>, c: Cell)
    ensures CellListing(BuildIndex(d, es), c) == CellEntries(d, es, c)
  {
    BuildIndexContents(d, es);
  }

  /** The scan at `i` records exactly this SKU and bin location. */
  ghost predicate RecordsScan(flat: seq<ScanRecord>, i: int, sku: string, bin: string) {
    0 <= i < |flat| && flat[i].sku == sku && flat[i].location == bin
  }

  /** The position of the first record of this exact scan, or `|flat|`
      when there is none. */
  function FirstScan(flat: seq<ScanRecord>, sku: string, bin: string): (j: nat)
    ensures j <= |flat|
    ensures forall k :: 0 <= k < j ==> !RecordsScan(flat, k, sku, bin)
    ensures j < |flat| ==> RecordsScan(flat, j, sku, bin)
  {
    if |flat| == 0 then 0
    else if flat[0].sku == sku && flat[0].location == bin then 0
    else
      var j := FirstScan(flat[1..], sku, bin);
      assert forall k :: 1 <= k < 1 + j ==> !RecordsScan(flat, k, sku, bin) by {
        forall k | 1 <= k < 1 + j ensures !RecordsScan(flat, k, sku, bin) {
          assert !RecordsScan(flat[1..], k - 1, sku, bin);
        }
      }
      1 + j
  }

  /** The timestamp lookup: the timestamp of the first record with this
      exact SKU and bin location, or the empty string when there is none. */
  function FirstTimestamp(flat: seq<ScanRecord>, sku: string, bin: string): (t: string)
    ensures (forall i :: 0 <= i < |flat| ==> !RecordsScan(flat, i, sku, bin)) ==> t == ""
    ensures forall i :: RecordsScan(flat, i, sku, bin) ==>
              exists j :: 0 <= j <= i && RecordsScan(flat, j, sku, bin) && t == flat[j].timestamp
                && forall k :: 0 <= k < j ==> !RecordsScan(flat, k, sku, bin)
  {
    var j := FirstScan(flat, sku, bin);
    if j < |flat| then flat[j].timestamp else ""
  }

  /** Which highlight rule a details view applies. */
  datatype Filter = NoFilter | DuplicatesFilter | EmptyFilter

  /** A row of the desktop details view. */
  datatype DetailRow = DetailRow(sku: string, bin: string, timestamp: string, highlighted: bool)

  /** The filter rule both details views apply first: a duplicate SKU under
      the duplicates filter, an empty-bin SKU under the empty filter. The
      desktop variant keeps its filter until the next button press; the
      dashboard resets it on every rerun, so there it never applies. */
  predicate FilterHighlight(filter: Filter, duplicates: set<string>, sku: string) {
    || (filter == DuplicatesFilter && sku in duplicates)
    || (filter == EmptyFilter && IsEmptyBin(sku))
  }

  /** The view one rerun's button handler of the dashboard acts on: the
      highlighted cells and the current filter. Every rerun reloads the
      uploaded file, which resets both before the handler runs. */
  datatype DashboardView = DashboardView(highlighted: set<Cell>, filter: Filter)

  /** `search_grid` of the web dashboard acting on that view: with both
      raw queries empty nothing changes; otherwise the highlights become the
      search result and the current filter is reset, so the details panel
      highlights no row until a filter is chosen again. */
  function DashboardSearch(v: DashboardView, es: seq<Entry>, skuQuery: string, locQuery: string): (r: DashboardView)
    ensures skuQuery == "" && locQuery == "" ==> r == v
    ensures skuQuery != "" || locQuery != "" ==>
              r.highlighted == SearchDashboard(v.highlighted, es, skuQuery, locQuery)
              && forall duplicates, sku :: !FilterHighlight(r.filter, duplicates, sku)
  {
    if skuQuery == "" && locQuery == "" then v
    else DashboardView(SearchDashboard(v.highlighted, es, skuQuery, locQuery), NoFilter)
  }

  /** The 0424 desktop row highlight: the dashboard's two rules, then a
      match of the trimmed, upper-cased search fields. */
  predicate DesktopHighlight(filter: Filter, duplicates: set<string>, fields: Fields, e: Entry) {
    var q := Queries(fields);
    || FilterHighlight(filter, duplicates, e.0)
    || ((q.0 != "" || q.1 != "") && ScanMatches(FoldData, e, q.0, q.1))
  }

  /** The rows of the desktop details view of a cell. */
  function DesktopDetail(g: Grid, flat: seq<ScanRecord>, filter: Filter, duplicates: set<string>,
                         fields: Fields, c: Cell): (rows: seq<DetailRow>)
    requires Valid(g)
    ensures |rows| == |CellListing(g, c)|
    ensures forall k :: 0 <= k < |rows| ==>
              && rows[k].sku == CellListing(g, c)[k].0
              && rows[k].bin == CellListing(g, c)[k].1
              && rows[k].timestamp == FirstTimestamp(flat, rows[k].sku, rows[k].bin)
              && rows[k].highlighted == DesktopHighlight(filter, duplicates, fields, CellListing(g, c)[k])
  {
    var listing := CellListing(g, c);
    seq(|listing|, k requires 0 <= k < |listing| =>
      DetailRow(listing[k].0, listing[k].1, FirstTimestamp(flat, listing[k].0, listing[k].1),
                DesktopHighlight(filter, duplicates, fields, listing[k])))
  }

  /** When the index is built from the flat list, every row's timestamp is
      the timestamp of a record of that exact scan: the lookup never falls
      back to the empty string. */
  lemma {:induction false} DetailTimestampsComeFromRecords(flat: seq<ScanRecord>, filter: Filter, duplicates: set<string>,
                                                           fields: Fields, c: Cell)
    ensures var rows := DesktopDetail(BuildIndex(SplitSlices, Entries(flat)), flat, filter, duplicates, fields, c);
            forall k :: 0 <= k < |rows| ==> StampRecorded(flat, rows[k])
  {
    var g := BuildIndex(SplitSlices, Entries(flat));
    ListedScansAreRecorded(flat, c);
    var listing := CellListing(g, c);
    var rows := DesktopDetail(g, flat, filter, duplicates, fields, c);
    RowTimestampsRecorded(flat, listing, rows);
  }

  /** Rows built from listed scans that are all recorded carry the
      timestamp of a record of their own scan. */
  lemma RowTimestampsRecorded(flat: seq<ScanRecord>, listing: seq<Entry>, rows: seq<DetailRow>)
    requires AllRecorded(flat, listing)
    requires |rows| == |listing|
    requires forall k :: 0 <= k < |rows| ==>
               && rows[k].sku == listing[k].0
               && rows[k].bin == listing[k].1
               && rows[k].timestamp == FirstTimestamp(flat, rows[k].sku, rows[k].bin)
    ensures forall k :: 0 <= k < |rows| ==> StampRecorded(flat, rows[k])
  {
    forall k | 0 <= k < |rows| ensures StampRecorded(flat, rows[k]) {
      assert Recorded(flat, listing[k]);
      var j := TimestampOfRecordedScan(flat, listing[k]);
      assert RecordsScan(flat, j, rows[k].sku, rows[k].bin);
    }
  }

  /** Some record of the flat list is exactly this scan. */
  ghost predicate Recorded(flat: seq<ScanRecord>, e: Entry) {
    exists i :: RecordsScan(flat, i, e.0, e.1)
  }

  /** Every scan of the listing is recorded. */
  ghost predicate AllRecorded(flat: seq<ScanRecord>, listing: seq<Entry>) {
    forall k :: 0 <= k < |listing| ==> Recorded(flat, listing[k])
  }

  /** The row's timestamp is that of a record of the row's own scan. */
  ghost predicate StampRecorded(flat: seq<ScanRecord>, r: DetailRow) {
    exists j :: RecordsScan(flat, j, r.sku, r.bin) && r.timestamp == flat[j].timestamp
  }

  /** Every scan listed for a cell of the index built from the flat list
      is recorded in the flat list. */
  lemma ListedScansAreRecorded(flat: seq<ScanRecord>, c: Cell)
    ensures AllRecorded(flat, CellListing(BuildIndex(SplitSlices, Entries(flat)), c))
  {
    BuiltListing(SplitSlices, Entries(flat), c);
    var listing := CellEntries(SplitSlices, Entries(flat), c);
    forall k | 0 <= k < |listing| ensures Recorded(flat, listing[k]) {
      ListedScanRecorded(flat, c, listing[k]);
    }
  }

  /** A scan listed for a cell is recorded. */
  lemma ListedScanRecorded(flat: seq<ScanRecord>, c: Cell, e: Entry)
    requires e in CellEntries(SplitSlices, Entries(flat), c)
    ensures Recorded(flat, e)
  {
    var es := Entries(flat);
    CellEntriesMembers(SplitSlices, es, c);
    var i :| 0 <= i < |es| && es[i] == e;
    assert RecordsScan(flat, i, e.0, e.1);
  }

  /** The lookup of a recorded scan finds a record of it. */
  lemma TimestampOfRecordedScan(flat: seq<ScanRecord>, e: Entry) returns (j: int)
    requires Recorded(flat, e)
    ensures RecordsScan(flat, j, e.0, e.1) && FirstTimestamp(flat, e.0, e.1) == flat[j].timestamp
  {
    var i :| RecordsScan(flat, i, e.0, e.1);
    j := FirstScan(flat, e.0, e.1);
    assert j <= i;
  }

  /** A row the search highlights in a cell's details belongs to a cell the
      grid search highlights, and every cell the grid search highlights
      shows a highlighted row: the two views agree. */
  lemma SearchHighlightsAgree(flat: seq<ScanRecord>, fields: Fields, c: Cell)
    ensures var rows := DesktopDetail(BuildIndex(SplitSlices, Entries(flat)), flat, NoFilter, {}, fields, c);
            (exists k :: 0 <= k < |rows| && rows[k].highlighted) <==> c in SearchBackup(Entries(flat), fields)
  {
    var es := Entries(flat);
    var listing := CellListing(BuildIndex(SplitSlices, es), c);
    ListingHighlightsAgree(es, fields, c);
    var rows := DesktopDetail(BuildIndex(SplitSlices, es), flat, NoFilter, {}, fields, c);
    assert forall k :: 0 <= k < |rows| ==> rows[k].highlighted == DesktopHighlight(NoFilter, {}, fields, listing[k]);
  }

  /** The same agreement stated on the listing, before the rows are built. */
  lemma ListingHighlightsAgree(es: seq<Entry>, fields: Fields, c: Cell)
    ensures var listing := CellListing(BuildIndex(SplitSlices, es), c);
            (exists k :: 0 <= k < |listing| && DesktopHighlight(NoFilter, {}, fields, listing[k]))
              <==> c in SearchBackup(es, fields)
  {
    var listing := CellListing(BuildIndex(SplitSlices, es), c);
    if k :| 0 <= k < |listing| && DesktopHighlight(NoFilter, {}, fields, listing[k]) {
      HighlightedRowIsSearched(es, fields, c, k);
    }
    if c in SearchBackup(es, fields) {
      SearchedCellHasHighlightedRow(es, fields, c);
    }
  }

  lemma {:induction false} HighlightedRowIsSearched(es: seq<Entry>, fields: Fields, c: Cell, k: nat)
    requires k < |CellListing(BuildIndex(SplitSlices, es), c)|
    requires DesktopHighlight(NoFilter, {}, fields, CellListing(BuildIndex(SplitSlices, es), c)[k])
    ensures c in SearchBackup(es, fields)
  {
    var listing := CellListing(BuildIndex(SplitSlices, es), c);
    var q := Queries(fields);
    BuiltListing(SplitSlices, es, c);
    CellEntriesMembers(SplitSlices, es, c);
    assert listing[k] in CellEntries(SplitSlices, es, c);
    var i :| 0 <= i < |es| && es[i] == listing[k];
    assert ScanMatches(FoldData, es[i], q.0, q.1) && Decode(SplitSlices, es[i].1) == Some(c);
  }

  lemma {:induction false} SearchedCellHasHighlightedRow(es: seq<Entry>, fields: Fields, c: Cell)
    requires c in SearchBackup(es, fields)
    ensures var listing := CellListing(BuildIndex(SplitSlices, es), c);
            exists k :: 0 <= k < |listing| && DesktopHighlight(NoFilter, {}, fields, listing[k])
  {
    var q := Queries(fields);
    var i :| 0 <= i < |es| && Decode(SplitSlices, es[i].1) == Some(c) && ScanMatches(FoldData, es[i], q.0, q.1);
    var listing := CellListing(BuildIndex(SplitSlices, es), c);
    DecodedScanIsListed(es, c, i);
    var k :| 0 <= k < |listing| && listing[k] == es[i];
    assert q.0 != "" || q.1 != "";
    assert DesktopHighlight(NoFilter, {}, fields, listing[k]);
  }

  /** A scan whose location decodes to a cell is listed for that cell. */
  lemma DecodedScanIsListed(es: seq<Entry>, c: Cell, i: int)
    requires 0 <= i < |es| && Decode(SplitSlices, es[i].1) == Some(c)
    ensures es[i] in CellListing(BuildIndex(SplitSlices, es), c)
  {
    BuiltListing(SplitSlices, es, c);
    CellEntriesMembers(SplitSlices, es, c);
  }

  /** Under the duplicates filter the details of a cell give some row the
      filter's highlight exactly when the cell is one `find_duplicate_skus`
      reports, provided the duplicates come from `analyze_data` under the
      same policy. */
  lemma {:induction false} DuplicateHighlightsAgree(p: LengthPolicy, es: seq<Entry>, c: Cell)
    ensures var g := BuildIndex(SplitSlices, es);
            var listing := CellListing(g, c);
            (exists k :: 0 <= k < |listing| && FilterHighlight(DuplicatesFilter, AnalyzeData(p, g).duplicateSkus, listing[k].0))
              <==> c in FindDuplicateCells(p, SplitSlices, es)
  {
    var g := BuildIndex(SplitSlices, es);
    var dups := AnalyzeData(p, g).duplicateSkus;
    var listing := CellListing(g, c);
    DuplicateCellHoldsDuplicateSku(p, SplitSlices, es, c);
    if c in g.bins {
      assert listing == g.bins[c];
      forall k | 0 <= k < |listing|
        ensures FilterHighlight(DuplicatesFilter, dups, listing[k].0) <==> listing[k].0 in dups
      {
      }
    } else {
      assert listing == [];
    }
  }
}

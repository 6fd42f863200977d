/** The sparse grid index: every decodable scan is appended to the list of
    the cell its location decodes to. The source keeps a two-level
    `defaultdict` (column, then row); the model keys one map by the
    `(column, row)` pair and remembers the order in which cells were first
    created, which is the order Python iterates them in. */
module GridIndex {
  import opened Wrappers
  import opened Location
  import opened Seqs

  /** One indexed scan: `(sku, bin code)`, the bin code being the full,
      undecoded location string. */
  type Entry = (string, string)

  /** `cells` lists the occupied cells in creation order; `bins` holds each
      cell's entries in insertion order. */
  datatype Grid = Grid(cells: seq<Cell>, bins: map<Cell, seq<Entry>>)

  /** The representation invariant: `cells` enumerates exactly the keys of
      `bins`, once each, and no cell exists without an entry. */
  ghost predicate Valid(g: Grid) {
    && Distinct(g.cells)
    && (forall c :: c in g.bins <==> c in g.cells)
    && (forall c :: c in g.bins ==> |g.bins[c]| > 0)
  }

  const EmptyGrid: Grid := Grid([], map[])

  /** Appends the scan to the list of the cell its location decodes to;
      a location that does not decode changes nothing. */
  function Insert(d: Decoder, g: Grid, e: Entry): (r: Grid)
    requires Valid(g)
    ensures Valid(r)
    ensures Decode(d, e.1).None? ==> r == g
    ensures Decode(d, e.1).Some? ==>
              var c := Decode(d, e.1).value;
              && c in r.bins
              && r.bins[c] == (if c in g.bins then g.bins[c] else []) + [e]
              && forall c' :: c' != c ==> (c' in r.bins <==> c' in g.bins)
                                          && (c' in g.bins ==> r.bins[c'] == g.bins[c'])
  {
    match Decode(d, e.1)
    case None => g
    case Some(c) =>
      if c in g.bins then
        Grid(g.cells, g.bins[c := g.bins[c] + [e]])
      else
        Grid(g.cells + [c], g.bins[c := [e]])
  }

  /** The index built from the scans `es`, in input order. */
  function BuildIndex(d: Decoder, es: seq<Entry>): (g: Grid)
    ensures Valid(g)
  {
    if |es| == 0 then EmptyGrid
    else Insert(d, BuildIndex(d, es[..|es| - 1]), es[|es| - 1])
  }

  /** Reference definition: the scans of `es` whose location decodes to `c`,
      in input order. */
  function CellEntries(d: Decoder, es: seq<Entry>, c: Cell): seq<Entry> {
    if |es| == 0 then []
    else CellEntries(d, es[..|es| - 1], c)
         + (if Decode(d, es[|es| - 1].1) == Some(c) then [es[|es| - 1]] else [])
  }

  /** A cell's list holds exactly the scans whose location decodes to it,
      in input order; a cell is present exactly when that list is non-empty. */
  lemma {:induction false} BuildIndexContents(d: Decoder, es: seq<Entry>)
    ensures forall c :: c in BuildIndex(d, es).bins <==> CellEntries(d, es, c) != []
    ensures forall c :: c in BuildIndex(d, es).bins ==> BuildIndex(d, es).bins[c] == CellEntries(d, es, c)
  {
    if |es| > 0 {
      BuildIndexContents(d, es[..|es| - 1]);
    }
  }

  /** Membership in the reference list: an entry is listed for `c` exactly
      when some scan carries it and decodes to `c`. */
  lemma {:induction false} CellEntriesMembers(d: Decoder, es: seq<Entry>, c: Cell)
    ensures forall e :: e in CellEntries(d, es, c) <==> e in es && Decode(d, e.1) == Some(c)
  {
    if |es| > 0 {
      CellEntriesMembers(d, es[..|es| - 1], c);
      assert es == es[..|es| - 1] + [es[|es| - 1]];
    }
  }

  /** `BuildIndexContents` for one cell. */
  lemma BuiltCell(d: Decoder, es: seq<Entry>, c: Cell)
    ensures c in BuildIndex(d, es).bins <==> CellEntries(d, es, c) != []
    ensures c in BuildIndex(d, es).bins ==> BuildIndex(d, es).bins[c] == CellEntries(d, es, c)
  {
    BuildIndexContents(d, es);
  }

  /** The scan listed at position `k` for `c` is the scan at some position
      `i` of the input, and it decodes to `c`. */
  lemma {:induction false} ListedScanSource(d: Decoder, es: seq<Entry>, c: Cell, k: nat) returns (i: nat)
    requires k < |CellEntries(d, es, c)|
    ensures i < |es| && es[i] == CellEntries(d, es, c)[k] && Decode(d, es[i].1) == Some(c)
  {
    var init := es[..|es| - 1];
    if k < |CellEntries(d, init, c)| {
      i := ListedScanSource(d, init, c, k);
      assert es[i] == init[i];
    } else {
      i := |es| - 1;
    }
  }

  /** A scan decoding to `c` is listed for `c`, at some position `k`. */
  lemma {:induction false} ScanListedAt(d: Decoder, es: seq<Entry>, c: Cell, i: nat) returns (k: nat)
    requires i < |es| && Decode(d, es[i].1) == Some(c)
    ensures k < |CellEntries(d, es, c)| && CellEntries(d, es, c)[k] == es[i]
  {
    var init := es[..|es| - 1];
    if i < |es| - 1 {
      k := ScanListedAt(d, init, c, i);
      assert init[i] == es[i];
    } else {
      k := |CellEntries(d, init, c)|;
    }
  }

  /** Every scan is indexed at the cell its location decodes to, and an
      occupied cell always holds at least one decoded scan. */
  lemma {:induction false} IndexedCells(d: Decoder, es: seq<Entry>)
    ensures forall i :: 0 <= i < |es| && Decode(d, es[i].1).Some? ==>
              Decode(d, es[i].1).value in BuildIndex(d, es).bins
              && es[i] in BuildIndex(d, es).bins[Decode(d, es[i].1).value]
    ensures forall c :: c in BuildIndex(d, es).bins ==>
              exists i :: 0 <= i < |es| && Decode(d, es[i].1) == Some(c)
  {
    var g := BuildIndex(d, es);
    BuildIndexContents(d, es);
    forall c | c in g.bins ensures exists i :: 0 <= i < |es| && Decode(d, es[i].1) == Some(c) {
      CellEntriesMembers(d, es, c);
      var e := g.bins[c][0];
      assert e in CellEntries(d, es, c);
    }
    forall i | 0 <= i < |es| && Decode(d, es[i].1).Some?
      ensures Decode(d, es[i].1).value in g.bins && es[i] in g.bins[Decode(d, es[i].1).value]
    {
      CellEntriesMembers(d, es, Decode(d, es[i].1).value);
    }
  }

  /** Decoders that agree on every location build the same index. */
  lemma {:induction false} SplitAndJoinedBuildSameIndex(es: seq<Entry>)
    ensures BuildIndex(SplitSlices, es) == BuildIndex(JoinedSlice, es)
  {
    if |es| > 0 {
      SplitAndJoinedBuildSameIndex(es[..|es| - 1]);
      SplitAndJoinedAgree(es[|es| - 1].1);
    }
  }

  /** The status-bar count: the drawn (column, row) pairs, one per pair of
      labels, whose cell holds at least one scan. */
  function OccupiedCount(g: Grid, columns: seq<string>, rows: seq<string>): nat {
    if |columns| == 0 then 0
    else OccupiedCount(g, columns[..|columns| - 1], rows) + RowHits(g, columns[|columns| - 1], rows)
  }

  function RowHits(g: Grid, column: string, rows: seq<string>): nat {
    if |rows| == 0 then 0
    else RowHits(g, column, rows[..|rows| - 1]) + (if (column, rows[|rows| - 1]) in g.bins then 1 else 0)
  }

  /** The occupied cells that lie on the drawn grid. */
  ghost function WhitelistedCells(g: Grid, columns: seq<string>, rows: seq<string>): set<Cell> {
    set c | c in g.bins && c.0 in columns && c.1 in rows
  }

  /** The occupied cells of one drawn column. */
  ghost function ColumnCells(g: Grid, column: string, rows: seq<string>): set<Cell> {
    set r | r in rows && (column, r) in g.bins :: (column, r)
  }

  /** With duplicate-free label lists, the status-bar count is the number of
      occupied cells whose column and row are both drawn; occupied cells off
      the drawn grid are never counted. */
  lemma {:induction false} OccupiedCountIsWhitelistedCells(g: Grid, columns: seq<string>, rows: seq<string>)
    requires Distinct(columns) && Distinct(rows)
    ensures OccupiedCount(g, columns, rows) == |WhitelistedCells(g, columns, rows)|
  {
    if |columns| > 0 {
      var init, c := columns[..|columns| - 1], columns[|columns| - 1];
      OccupiedCountIsWhitelistedCells(g, init, rows);
      RowHitsCount(g, c, rows);
      WhitelistedStep(g, init, c, rows);
      assert columns == init + [c];
    }
  }

  /** Drawing one more column, not drawn before, adds that column's
      occupied cells, none of which were counted already. */
  lemma WhitelistedStep(g: Grid, init: seq<string>, c: string, rows: seq<string>)
    requires c !in init
    ensures WhitelistedCells(g, init + [c], rows) == WhitelistedCells(g, init, rows) + ColumnCells(g, c, rows)
    ensures WhitelistedCells(g, init, rows) !! ColumnCells(g, c, rows)
  {
  }

  /** For one column, the count is the number of its occupied cells among
      the drawn rows. */
  lemma {:induction false} RowHitsCount(g: Grid, column: string, rows: seq<string>)
    requires Distinct(rows)
    ensures RowHits(g, column, rows) == |ColumnCells(g, column, rows)|
  {
    if |rows| > 0 {
      var init, r := rows[..|rows| - 1], rows[|rows| - 1];
      RowHitsCount(g, column, init);
      assert rows == init + [r];
      ColumnCellsStep(g, column, init, r);
    }
  }

  /** One more drawn row adds its cell when occupied and new. */
  lemma ColumnCellsStep(g: Grid, column: string, init: seq<string>, r: string)
    requires r !in init
    ensures ColumnCells(g, column, init + [r])
            == ColumnCells(g, column, init) + (if (column, r) in g.bins then {(column, r)} else {})
    ensures (column, r) !in ColumnCells(g, column, init)
  {
  }
}

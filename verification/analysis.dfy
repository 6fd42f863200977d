/** Derived state: which SKUs are duplicates and which cells hold an empty
    bin. `analyze_data` computes both from the grid index after every load;
    `find_duplicate_skus` and `find_empty_bins` recompute cell sets from the
    flat scan list when a filter button is pressed. The variants differ in
    the SKU tests they apply, and the lemmas here say exactly how. */
module Analysis {
  import opened Wrappers
  import opened Text
  import opened Seqs
  import opened Location
  import opened GridIndex

  /** `analyze_data`'s empty-bin test: `sku.upper() == "EMPTY" or not sku`. */
  predicate IsEmptyBinStrict(sku: string) {
    Upper(sku) == "EMPTY" || sku == ""
  }

  /** The empty-bin test of `find_empty_bins` and of the exports: the SKU
      is EMPTY in any letter case, or blank once whitespace is trimmed. */
  predicate IsEmptyBin(sku: string) {
    Upper(sku) == "EMPTY" || Strip(sku) == ""
  }

  /** Whether a SKU must be exactly nine characters long to count as a
      duplicate (the web dashboard) or may have any length (the desktop
      variant). */
  datatype LengthPolicy = AnyLength | NineCharacters

  predicate LengthAllowed(p: LengthPolicy, sku: string) {
    p == AnyLength || |sku| == 9
  }

  /** The SKU test every duplicate search applies: not `EMPTY` in any case,
      not blank, and of an allowed length. */
  predicate DuplicateEligible(p: LengthPolicy, sku: string) {
    Upper(sku) != "EMPTY" && Strip(sku) != "" && LengthAllowed(p, sku)
  }

  // ------------------------------------------------------------- occurrences

  /** How many entries carry `sku`. */
  function CountSku(es: seq<Entry>, sku: string): nat {
    if |es| == 0 then 0
    else CountSku(es[..|es| - 1], sku) + (if es[|es| - 1].0 == sku then 1 else 0)
  }

  lemma {:induction false} CountSkuAppend(a: seq<Entry>, b: seq<Entry>, sku: string)
    ensures CountSku(a + b, sku) == CountSku(a, sku) + CountSku(b, sku)
  {
    if |b| > 0 {
      CountSkuAppend(a, b[..|b| - 1], sku);
      assert (a + b)[..|a + b| - 1] == a + b[..|b| - 1];
    } else {
      assert a + b == a;
    }
  }

  /** How many scans carry `sku` and have a decodable location. */
  function CountDecodable(d: Decoder, es: seq<Entry>, sku: string): nat {
    if |es| == 0 then 0
    else CountDecodable(d, es[..|es| - 1], sku)
         + (if es[|es| - 1].0 == sku && Decode(d, es[|es| - 1].1).Some? then 1 else 0)
  }

  /** A SKU has a decodable scan exactly when its decodable count is positive. */
  lemma {:induction false} CountDecodablePositive(d: Decoder, es: seq<Entry>, sku: string)
    ensures CountDecodable(d, es, sku) > 0 <==>
              exists i :: 0 <= i < |es| && es[i].0 == sku && Decode(d, es[i].1).Some?
  {
    if |es| > 0 {
      CountDecodablePositive(d, es[..|es| - 1], sku);
      if i :| 0 <= i < |es| && es[i].0 == sku && Decode(d, es[i].1).Some? {
        if i < |es| - 1 { assert es[..|es| - 1][i] == es[i]; }
      }
    }
  }

  /** Every entry of the index, cell after cell in creation order. The
      nested loops of `analyze_data` visit the same entries column by
      column instead; only counts are taken from the walk, and those do not
      depend on the order. */
  function AllEntries(cells: seq<Cell>, bins: map<Cell, seq<Entry>>): seq<Entry>
    requires forall c :: c in cells ==> c in bins
  {
    if |cells| == 0 then []
    else AllEntries(cells[..|cells| - 1], bins) + bins[cells[|cells| - 1]]
  }

  function GridEntries(g: Grid): seq<Entry>
    requires Valid(g)
  {
    AllEntries(g.cells, g.bins)
  }

  /** Changing the list of a cell that is not walked changes nothing. */
  lemma {:induction false} AllEntriesFrame(cells: seq<Cell>, bins: map<Cell, seq<Entry>>, c: Cell, v: seq<Entry>)
    requires forall x :: x in cells ==> x in bins
    requires c !in cells
    ensures AllEntries(cells, bins[c := v]) == AllEntries(cells, bins)
  {
    if |cells| > 0 {
      AllEntriesFrame(cells[..|cells| - 1], bins, c, v);
    }
  }

  /** Appending one entry to a walked cell adds exactly that entry to the
      count of its SKU. */
  lemma {:induction false} AllEntriesAppend(cells: seq<Cell>, bins: map<Cell, seq<Entry>>, c: Cell, e: Entry, sku: string)
    requires forall x :: x in cells ==> x in bins
    requires Distinct(cells) && c in cells
    ensures CountSku(AllEntries(cells, bins[c := bins[c] + [e]]), sku)
            == CountSku(AllEntries(cells, bins), sku) + (if e.0 == sku then 1 else 0)
  {
    var init, last := cells[..|cells| - 1], cells[|cells| - 1];
    var bins' := bins[c := bins[c] + [e]];
    if last == c {
      assert c !in init;
      AllEntriesFrame(init, bins, c, bins[c] + [e]);
      CountSkuAppend(AllEntries(init, bins), bins[c] + [e], sku);
      CountSkuAppend(AllEntries(init, bins), bins[c], sku);
      CountSkuAppend(bins[c], [e], sku);
    } else {
      AllEntriesAppend(init, bins, c, e, sku);
      CountSkuAppend(AllEntries(init, bins'), bins[last], sku);
      CountSkuAppend(AllEntries(init, bins), bins[last], sku);
    }
  }

  /** Walking the index built from `es` meets a SKU once for every scan of it
      whose location decodes: occurrences, not distinct cells. */
  lemma {:induction false} GridEntriesCount(d: Decoder, es: seq<Entry>, sku: string)
    ensures CountSku(GridEntries(BuildIndex(d, es)), sku) == CountDecodable(d, es, sku)
  {
    if |es| > 0 {
      GridEntriesCount(d, es[..|es| - 1], sku);
      InsertCount(d, BuildIndex(d, es[..|es| - 1]), es[|es| - 1], sku);
    }
  }

  /** Inserting a scan adds one occurrence of its SKU to the walk when its
      location decodes, and none otherwise. */
  lemma InsertCount(d: Decoder, g: Grid, e: Entry, sku: string)
    requires Valid(g)
    ensures CountSku(GridEntries(Insert(d, g, e)), sku)
            == CountSku(GridEntries(g), sku) + (if e.0 == sku && Decode(d, e.1).Some? then 1 else 0)
  {
    var r := Insert(d, g, e);
    match Decode(d, e.1)
    case None =>
    case Some(c) =>
      if c in g.bins {
        assert r == Grid(g.cells, g.bins[c := g.bins[c] + [e]]);
        AllEntriesAppend(g.cells, g.bins, c, e, sku);
      } else {
        assert r == Grid(g.cells + [c], g.bins[c := [e]]);
        NewCellCount(g, c, e, sku);
      }
  }

  /** Inserting a scan at a cell not yet in the index appends its list last. */
  lemma NewCellCount(g: Grid, c: Cell, e: Entry, sku: string)
    requires Valid(g) && c !in g.bins
    ensures forall x :: x in g.cells + [c] ==> x in g.bins[c := [e]]
    ensures CountSku(AllEntries(g.cells + [c], g.bins[c := [e]]), sku)
            == CountSku(GridEntries(g), sku) + (if e.0 == sku then 1 else 0)
  {
    AllEntriesFrame(g.cells, g.bins, c, [e]);
    CountSkuAppend(AllEntries(g.cells, g.bins), [e], sku);
    assert (g.cells + [c])[..|g.cells|] == g.cells;
  }

  // ------------------------------------------------------------ analyze_data

  /** The result of `analyze_data`. */
  datatype DerivedState = DerivedState(duplicateSkus: set<string>, emptyCells: set<Cell>)

  /** `sku_locations` reduced to its lengths: how many walked entries carry
      each SKU. */
  function SkuCounts(es: seq<Entry>): (m: map<string, nat>)
    ensures forall s :: s in m <==> CountSku(es, s) > 0
    ensures forall s :: s in m ==> m[s] == CountSku(es, s)
  {
    if |es| == 0 then map[]
    else
      var m := SkuCounts(es[..|es| - 1]);
      var sku := es[|es| - 1].0;
      m[sku := if sku in m then m[sku] + 1 else 1]
  }

  /** The cells among `cells` holding at least one entry that passes the
      strict empty-bin test. */
  function EmptyCellsOf(cells: seq<Cell>, bins: map<Cell, seq<Entry>>): (r: set<Cell>)
    requires forall c :: c in cells ==> c in bins
    ensures forall c :: c in r <==>
              c in cells && exists k :: 0 <= k < |bins[c]| && IsEmptyBinStrict(bins[c][k].0)
  {
    if |cells| == 0 then {}
    else
      var c := cells[|cells| - 1];
      EmptyCellsOf(cells[..|cells| - 1], bins)
      + (if exists k :: 0 <= k < |bins[c]| && IsEmptyBinStrict(bins[c][k].0) then {c} else {})
  }

  /** `analyze_data` over a grid index: a SKU is a duplicate when the walk
      meets it more than once and it is eligible; a cell is an empty-bin
      cell when one of its entries passes the strict empty test. */
  function AnalyzeData(p: LengthPolicy, g: Grid): (r: DerivedState)
    requires Valid(g)
    ensures forall s :: s in r.duplicateSkus <==> CountSku(GridEntries(g), s) > 1 && DuplicateEligible(p, s)
    ensures forall c :: c in r.emptyCells <==>
              c in g.bins && exists k :: 0 <= k < |g.bins[c]| && IsEmptyBinStrict(g.bins[c][k].0)
  {
    var counts := SkuCounts(GridEntries(g));
    DerivedState((set s | s in counts && counts[s] > 1 && DuplicateEligible(p, s)),
                 EmptyCellsOf(g.cells, g.bins))
  }

  /** After a load, a SKU is a duplicate exactly when it is eligible and has
      more than one scan with a decodable location, even if every such scan
      decodes to the same cell; a cell is an empty-bin cell exactly when a
      decodable scan there has a SKU that is `EMPTY` in any case or exactly
      empty. */
  lemma {:induction false} AnalyzeLoadedData(p: LengthPolicy, d: Decoder, es: seq<Entry>)
    ensures forall s :: s in AnalyzeData(p, BuildIndex(d, es)).duplicateSkus <==>
              DuplicateEligible(p, s) && CountDecodable(d, es, s) > 1
    ensures forall c :: c in AnalyzeData(p, BuildIndex(d, es)).emptyCells <==>
              exists i :: 0 <= i < |es| && IsEmptyBinStrict(es[i].0) && Decode(d, es[i].1) == Some(c)
  {
    forall s ensures s in AnalyzeData(p, BuildIndex(d, es)).duplicateSkus <==>
                     DuplicateEligible(p, s) && CountDecodable(d, es, s) > 1 {
      GridEntriesCount(d, es, s);
    }
    forall c ensures c in AnalyzeData(p, BuildIndex(d, es)).emptyCells <==>
                     exists i :: 0 <= i < |es| && IsEmptyBinStrict(es[i].0) && Decode(d, es[i].1) == Some(c) {
      AnalyzedEmptyCell(p, d, es, c);
    }
  }

  /** One cell of the empty-bin half of `AnalyzeLoadedData`. */
  lemma AnalyzedEmptyCell(p: LengthPolicy, d: Decoder, es: seq<Entry>, c: Cell)
    ensures c in AnalyzeData(p, BuildIndex(d, es)).emptyCells <==>
              exists i :: 0 <= i < |es| && IsEmptyBinStrict(es[i].0) && Decode(d, es[i].1) == Some(c)
  {
    var g := BuildIndex(d, es);
    BuiltCell(d, es, c);
    if c in AnalyzeData(p, g).emptyCells {
      var k :| 0 <= k < |g.bins[c]| && IsEmptyBinStrict(g.bins[c][k].0);
      var i := ListedScanSource(d, es, c, k);
    }
    if i :| 0 <= i < |es| && IsEmptyBinStrict(es[i].0) && Decode(d, es[i].1) == Some(c) {
      var k := ScanListedAt(d, es, c, i);
    }
  }

  // ---------------------------------------------------- find_duplicate_skus

  /** Reference definition: the cells of the decodable scans of `sku`, in
      input order. */
  function SkuCells(d: Decoder, es: seq<Entry>, sku: string): (cs: seq<Cell>)
    ensures |cs| == CountDecodable(d, es, sku)
  {
    if |es| == 0 then []
    else
      var e := es[|es| - 1];
      SkuCells(d, es[..|es| - 1], sku) + (if e.0 == sku && Decode(d, e.1).Some? then [Decode(d, e.1).value] else [])
  }

  lemma {:induction false} SkuCellsMembers(d: Decoder, es: seq<Entry>, sku: string)
    ensures forall c :: c in SkuCells(d, es, sku) <==>
              exists i :: 0 <= i < |es| && es[i].0 == sku && Decode(d, es[i].1) == Some(c)
  {
    if |es| > 0 {
      var init := es[..|es| - 1];
      SkuCellsMembers(d, init, sku);
      forall c ensures c in SkuCells(d, es, sku) <==>
                exists i :: 0 <= i < |es| && es[i].0 == sku && Decode(d, es[i].1) == Some(c)
      {
        if c in SkuCells(d, init, sku) {
          var i :| 0 <= i < |init| && init[i].0 == sku && Decode(d, init[i].1) == Some(c);
          assert es[i] == init[i];
        }
        if i :| 0 <= i < |es| && es[i].0 == sku && Decode(d, es[i].1) == Some(c) {
          if i < |init| { assert init[i] == es[i]; }
        }
      }
    }
  }

  /** The first pass of `find_duplicate_skus`: every eligible SKU with a
      decodable scan, mapped to the cells of those scans in input order. */
  function CandidateCells(p: LengthPolicy, d: Decoder, es: seq<Entry>): (m: map<string, seq<Cell>>)
    ensures forall s :: s in m <==> DuplicateEligible(p, s) && CountDecodable(d, es, s) > 0
    ensures forall s :: s in m ==> m[s] == SkuCells(d, es, s)
  {
    if |es| == 0 then map[]
    else
      var init := es[..|es| - 1];
      var m := CandidateCells(p, d, init);
      var e := es[|es| - 1];
      var m' := if DuplicateEligible(p, e.0) && Decode(d, e.1).Some? then
                  m[e.0 := (if e.0 in m then m[e.0] else []) + [Decode(d, e.1).value]]
                else
                  m;
      assert forall s :: (s in m' <==> DuplicateEligible(p, s) && CountDecodable(d, es, s) > 0)
                         && (s in m' ==> m'[s] == SkuCells(d, es, s)) by {
        forall s ensures (s in m' <==> DuplicateEligible(p, s) && CountDecodable(d, es, s) > 0)
                         && (s in m' ==> m'[s] == SkuCells(d, es, s)) {
          assert CountDecodable(d, es, s) == CountDecodable(d, init, s)
                   + (if e.0 == s && Decode(d, e.1).Some? then 1 else 0);
          assert SkuCells(d, es, s) == SkuCells(d, init, s)
                   + (if e.0 == s && Decode(d, e.1).Some? then [Decode(d, e.1).value] else []);
        }
      }
      m'
  }

  /** `find_duplicate_skus`: the union of the cells of every eligible SKU
      that has more than one scan with a decodable location. */
  function FindDuplicateCells(p: LengthPolicy, d: Decoder, es: seq<Entry>): (r: set<Cell>)
    ensures forall c :: c in r <==>
              exists i :: 0 <= i < |es| && DuplicateEligible(p, es[i].0) && Decode(d, es[i].1) == Some(c)
                          && CountDecodable(d, es, es[i].0) > 1
  {
    var m := CandidateCells(p, d, es);
    var r := set s, c | s in m && |m[s]| > 1 && c in m[s] :: c;
    DuplicateCellSet(p, d, es, m, r);
    r
  }

  lemma DuplicateCellSet(p: LengthPolicy, d: Decoder, es: seq<Entry>, m: map<string, seq<Cell>>, r: set<Cell>)
    requires m == CandidateCells(p, d, es)
    requires r == set s, c | s in m && |m[s]| > 1 && c in m[s] :: c
    ensures forall c :: c in r <==>
              exists i :: 0 <= i < |es| && DuplicateEligible(p, es[i].0) && Decode(d, es[i].1) == Some(c)
                          && CountDecodable(d, es, es[i].0) > 1
  {
    forall c ensures c in r <==>
              exists i :: 0 <= i < |es| && DuplicateEligible(p, es[i].0) && Decode(d, es[i].1) == Some(c)
                          && CountDecodable(d, es, es[i].0) > 1
    {
      DuplicateCellWitness(p, d, es, m, c);
    }
  }

  /** A cell is in the list of some candidate with more than one cell
      exactly when an eligible scan with more than one decodable scan of
      its SKU decodes to it. */
  lemma DuplicateCellWitness(p: LengthPolicy, d: Decoder, es: seq<Entry>, m: map<string, seq<Cell>>, c: Cell)
    requires m == CandidateCells(p, d, es)
    ensures (exists s :: s in m && |m[s]| > 1 && c in m[s]) <==>
              exists i :: 0 <= i < |es| && DuplicateEligible(p, es[i].0) && Decode(d, es[i].1) == Some(c)
                          && CountDecodable(d, es, es[i].0) > 1
  {
    if s :| s in m && |m[s]| > 1 && c in m[s] {
      SkuCellsMembers(d, es, s);
      var i :| 0 <= i < |es| && es[i].0 == s && Decode(d, es[i].1) == Some(c);
    }
    if i :| 0 <= i < |es| && DuplicateEligible(p, es[i].0) && Decode(d, es[i].1) == Some(c)
            && CountDecodable(d, es, es[i].0) > 1 {
      SkuCellsMembers(d, es, es[i].0);
      assert c in m[es[i].0];
    }
  }

  // -------------------------------------------------------- find_empty_bins

  /** `find_empty_bins`: the cells of the decodable scans whose SKU is
      `EMPTY` in any case or blank after trimming. */
  function FindEmptyBins(d: Decoder, es: seq<Entry>): (r: set<Cell>)
    ensures forall c :: c in r <==>
              exists i :: 0 <= i < |es| && IsEmptyBin(es[i].0) && Decode(d, es[i].1) == Some(c)
  {
    if |es| == 0 then {}
    else
      var init, e := es[..|es| - 1], es[|es| - 1];
      var r := FindEmptyBins(d, init);
      var r' := if IsEmptyBin(e.0) && Decode(d, e.1).Some? then r + {Decode(d, e.1).value} else r;
      assert es == init + [e];
      EmptyBinsStep(d, init, e, r, r');
      r'
  }

  /** One scan more adds its cell when it passes the empty test. */
  lemma EmptyBinsStep(d: Decoder, init: seq<Entry>, e: Entry, r: set<Cell>, r': set<Cell>)
    requires forall c :: c in r <==>
               exists i :: 0 <= i < |init| && IsEmptyBin(init[i].0) && Decode(d, init[i].1) == Some(c)
    requires r' == if IsEmptyBin(e.0) && Decode(d, e.1).Some? then r + {Decode(d, e.1).value} else r
    ensures var es := init + [e];
            forall c :: c in r' <==>
              exists i :: 0 <= i < |es| && IsEmptyBin(es[i].0) && Decode(d, es[i].1) == Some(c)
  {
    var es := init + [e];
    forall c | c in r ensures exists i :: 0 <= i < |es| && IsEmptyBin(es[i].0) && Decode(d, es[i].1) == Some(c) {
      var i :| 0 <= i < |init| && IsEmptyBin(init[i].0) && Decode(d, init[i].1) == Some(c);
      assert es[i] == init[i];
    }
    assert es[|init|] == e;
    forall c, i | 0 <= i < |es| && IsEmptyBin(es[i].0) && Decode(d, es[i].1) == Some(c) ensures c in r' {
      if i < |init| { assert init[i] == es[i]; }
    }
  }

  // ---------------------------------------------------- comparing the rules

  /** The duplicate cells `find_duplicate_skus` computes from the flat list
      are exactly the cells of the index holding a SKU that `analyze_data`
      marks as a duplicate, under the same length policy. */
  lemma {:induction false} DuplicateCellsHoldDuplicateSkus(p: LengthPolicy, d: Decoder, es: seq<Entry>)
    ensures var g := BuildIndex(d, es);
            forall c :: c in FindDuplicateCells(p, d, es) <==>
              c in g.bins && exists k :: 0 <= k < |g.bins[c]| && g.bins[c][k].0 in AnalyzeData(p, g).duplicateSkus
  {
    var g := BuildIndex(d, es);
    forall c ensures c in FindDuplicateCells(p, d, es) <==>
              c in g.bins && exists k :: 0 <= k < |g.bins[c]| && g.bins[c][k].0 in AnalyzeData(p, g).duplicateSkus
    {
      DuplicateCellHoldsDuplicateSku(p, d, es, c);
    }
  }

  /** One cell of `DuplicateCellsHoldDuplicateSkus`. */
  lemma DuplicateCellHoldsDuplicateSku(p: LengthPolicy, d: Decoder, es: seq<Entry>, c: Cell)
    ensures var g := BuildIndex(d, es);
            c in FindDuplicateCells(p, d, es) <==>
              c in g.bins && exists k :: 0 <= k < |g.bins[c]| && g.bins[c][k].0 in AnalyzeData(p, g).duplicateSkus
  {
    if c in FindDuplicateCells(p, d, es) {
      FoundDuplicateCellIsAnalyzed(p, d, es, c);
    }
    AnalyzedDuplicateCellIsFound(p, d, es, c);
  }

  lemma FoundDuplicateCellIsAnalyzed(p: LengthPolicy, d: Decoder, es: seq<Entry>, c: Cell)
    requires c in FindDuplicateCells(p, d, es)
    ensures var g := BuildIndex(d, es);
            c in g.bins && exists k :: 0 <= k < |g.bins[c]| && g.bins[c][k].0 in AnalyzeData(p, g).duplicateSkus
  {
    var g := BuildIndex(d, es);
    BuiltCell(d, es, c);
    var i :| 0 <= i < |es| && DuplicateEligible(p, es[i].0) && Decode(d, es[i].1) == Some(c)
             && CountDecodable(d, es, es[i].0) > 1;
    var k := ScanListedAt(d, es, c, i);
    DuplicateScanIsAnalyzed(p, d, es, i);
    assert g.bins[c][k].0 in AnalyzeData(p, g).duplicateSkus;
  }

  lemma AnalyzedDuplicateCellIsFound(p: LengthPolicy, d: Decoder, es: seq<Entry>, c: Cell)
    ensures var g := BuildIndex(d, es);
            (c in g.bins && exists k :: 0 <= k < |g.bins[c]| && g.bins[c][k].0 in AnalyzeData(p, g).duplicateSkus)
            ==> c in FindDuplicateCells(p, d, es)
  {
    var g := BuildIndex(d, es);
    if c in g.bins && exists k :: 0 <= k < |g.bins[c]| && g.bins[c][k].0 in AnalyzeData(p, g).duplicateSkus {
      BuiltCell(d, es, c);
      var k :| 0 <= k < |g.bins[c]| && g.bins[c][k].0 in AnalyzeData(p, g).duplicateSkus;
      var i := ListedScanSource(d, es, c, k);
      DuplicateScanIsAnalyzed(p, d, es, i);
    }
  }

  /** A scan's SKU is an analyzed duplicate exactly when it is eligible
      and has more than one decodable scan. */
  lemma DuplicateScanIsAnalyzed(p: LengthPolicy, d: Decoder, es: seq<Entry>, i: nat)
    requires i < |es|
    ensures es[i].0 in AnalyzeData(p, BuildIndex(d, es)).duplicateSkus <==>
              DuplicateEligible(p, es[i].0) && CountDecodable(d, es, es[i].0) > 1
  {
    GridEntriesCount(d, es, es[i].0);
  }

  /** `find_empty_bins` finds every cell `analyze_data` marks empty, and in
      addition exactly the cells of decodable scans whose SKU is non-empty
      but all whitespace: the two tests differ only there. */
  lemma {:induction false} EmptyRulesCompared(p: LengthPolicy, d: Decoder, es: seq<Entry>)
    ensures var analyzed := AnalyzeData(p, BuildIndex(d, es)).emptyCells;
            && analyzed <= FindEmptyBins(d, es)
            && forall c :: c in FindEmptyBins(d, es) <==>
                 c in analyzed
                 || exists i :: 0 <= i < |es| && es[i].0 != "" && Strip(es[i].0) == "" && Decode(d, es[i].1) == Some(c)
  {
    AnalyzeLoadedData(p, d, es);
    var analyzed := AnalyzeData(p, BuildIndex(d, es)).emptyCells;
    forall c | c in analyzed ensures c in FindEmptyBins(d, es) {
      var i :| 0 <= i < |es| && IsEmptyBinStrict(es[i].0) && Decode(d, es[i].1) == Some(c);
      if es[i].0 == "" { assert Strip(es[i].0) == ""; }
    }
  }

  /** A single scan whose SKU is non-empty but all whitespace, at a
      location that decodes: `find_empty_bins` reports its cell,
      `analyze_data` does not. */
  lemma WhitespaceSkuSplitsTheEmptyRules(d: Decoder, sku: string, loc: string, c: Cell)
    requires sku != "" && Strip(sku) == "" && Decode(d, loc) == Some(c)
    ensures FindEmptyBins(d, [(sku, loc)]) == {c}
    ensures AnalyzeData(AnyLength, BuildIndex(d, [(sku, loc)])).emptyCells == {}
  {
    BlankSkuFound(d, sku, loc, c);
    BlankSkuNotAnalyzed(d, sku, loc);
  }

  lemma BlankSkuFound(d: Decoder, sku: string, loc: string, c: Cell)
    requires Strip(sku) == "" && Decode(d, loc) == Some(c)
    ensures FindEmptyBins(d, [(sku, loc)]) == {c}
  {
    var es := [(sku, loc)];
    forall x ensures x in FindEmptyBins(d, es) <==> x == c {
      if x == c { assert IsEmptyBin(es[0].0); }
    }
  }

  lemma BlankSkuNotAnalyzed(d: Decoder, sku: string, loc: string)
    requires sku != "" && Strip(sku) == ""
    ensures AnalyzeData(AnyLength, BuildIndex(d, [(sku, loc)])).emptyCells == {}
  {
    var es := [(sku, loc)];
    BlankSkuNotStrict(sku);
    forall x ensures x !in AnalyzeData(AnyLength, BuildIndex(d, es)).emptyCells {
      AnalyzedEmptyCell(AnyLength, d, es, x);
    }
  }

  /** A non-empty all-whitespace SKU fails the strict empty test. */
  lemma BlankSkuNotStrict(sku: string)
    requires sku != "" && Strip(sku) == ""
    ensures !IsEmptyBinStrict(sku)
  {
    assert IsSpace(sku[0]);
    assert Upper(sku)[0] == UpperChar(sku[0]);
  }

  /** The nine-character policy only narrows the duplicates: every cell it
      reports is reported without it, and on nine-character SKUs the two
      agree. */
  lemma {:induction false} NineCharacterPolicyNarrows(d: Decoder, es: seq<Entry>)
    ensures FindDuplicateCells(NineCharacters, d, es) <= FindDuplicateCells(AnyLength, d, es)
    ensures forall s :: s in AnalyzeData(NineCharacters, BuildIndex(d, es)).duplicateSkus <==>
              s in AnalyzeData(AnyLength, BuildIndex(d, es)).duplicateSkus && |s| == 9
  {
    AnalyzeLoadedData(NineCharacters, d, es);
    AnalyzeLoadedData(AnyLength, d, es);
  }

  /** Duplicates are counted by occurrences: one eligible SKU scanned at
      two locations that decode to the same cell is a duplicate although it
      occupies one cell only. */
  lemma SameCellTwiceIsDuplicate(p: LengthPolicy, d: Decoder, sku: string, loc1: string, loc2: string, c: Cell)
    requires DuplicateEligible(p, sku) && Decode(d, loc1) == Some(c) && Decode(d, loc2) == Some(c)
    ensures var es := [(sku, loc1), (sku, loc2)];
            && BuildIndex(d, es).bins.Keys == {c}
            && sku in AnalyzeData(p, BuildIndex(d, es)).duplicateSkus
  {
    TwoScansOneCell(d, sku, loc1, loc2, c);
    TwoScansDuplicate(p, d, sku, loc1, loc2);
  }

  lemma TwoScansOneCell(d: Decoder, sku: string, loc1: string, loc2: string, c: Cell)
    requires Decode(d, loc1) == Some(c) && Decode(d, loc2) == Some(c)
    ensures BuildIndex(d, [(sku, loc1), (sku, loc2)]).bins.Keys == {c}
  {
    forall x ensures x in BuildIndex(d, [(sku, loc1), (sku, loc2)]).bins <==> x == c {
      TwoScansCell(d, sku, loc1, loc2, c, x);
    }
  }

  lemma TwoScansCell(d: Decoder, sku: string, loc1: string, loc2: string, c: Cell, x: Cell)
    requires Decode(d, loc1) == Some(c) && Decode(d, loc2) == Some(c)
    ensures x in BuildIndex(d, [(sku, loc1), (sku, loc2)]).bins <==> x == c
  {
    var es := [(sku, loc1), (sku, loc2)];
    BuiltCell(d, es, x);
    if x in BuildIndex(d, es).bins {
      var i := ListedScanSource(d, es, x, 0);
    }
    if x == c {
      var k := ScanListedAt(d, es, c, 0);
    }
  }

  lemma TwoScansDuplicate(p: LengthPolicy, d: Decoder, sku: string, loc1: string, loc2: string)
    requires DuplicateEligible(p, sku) && Decode(d, loc1).Some? && Decode(d, loc2).Some?
    ensures sku in AnalyzeData(p, BuildIndex(d, [(sku, loc1), (sku, loc2)])).duplicateSkus
  {
    var es := [(sku, loc1), (sku, loc2)];
    assert CountDecodable(d, es[..1], sku) == 1 by { assert es[..1][..0] == []; }
    DuplicateScanIsAnalyzed(p, d, es, 0);
  }
}

// Search: the cells of the scans whose SKU or location contains a query.
// Every variant walks the flat list, decodes each location with its own
// decoder and collects the cells of the matching scans; they differ in how
// the queries are read and whether the data is upper-cased.

module Search {
  import opened Wrappers
  import opened Text
  import opened Location
  import opened GridIndex

  /** Whether the data side of a comparison is upper-cased like the query. */
  datatype CaseFold = FoldData | RawData

  function Hay(f: CaseFold, s: string): string {
    match f
    case FoldData => Upper(s)
    case RawData => s
  }

  /** `query and query in field`: an empty query matches nothing. */
  predicate FieldMatch(f: CaseFold, query: string, field: string) {
    query != "" && Contains(query, Hay(f, field))
  }

  /** The scan matches on its SKU or on its location. */
  predicate ScanMatches(f: CaseFold, e: Entry, skuQuery: string, locQuery: string) {
    FieldMatch(f, skuQuery, e.0) || FieldMatch(f, locQuery, e.1)
  }

  /** The matching loop: the set of cells of the decodable scans that match. */
  function MatchCells(d: Decoder, f: CaseFold, es: seq<Entry>, skuQuery: string, locQuery: string): (r: set<Cell>)
    ensures forall c :: c in r <==>
              exists i :: 0 <= i < |es| && ScanMatches(f, es[i], skuQuery, locQuery) && Decode(d, es[i].1) == Some(c)
  {
    if |es| == 0 then {}
    else
      var e := es[|es| - 1];
      var r := MatchCells(d, f, es[..|es| - 1], skuQuery, locQuery);
      var r' := if ScanMatches(f, e, skuQuery, locQuery) && Decode(d, e.1).Some? then r + {Decode(d, e.1).value} else r;
      assert forall c :: c in r' <==>
               exists i :: 0 <= i < |es| && ScanMatches(f, es[i], skuQuery, locQuery) && Decode(d, es[i].1) == Some(c) by {
        forall c | c in r
          ensures exists i :: 0 <= i < |es| && ScanMatches(f, es[i], skuQuery, locQuery) && Decode(d, es[i].1) == Some(c)
        {
          var i :| 0 <= i < |es| - 1 && ScanMatches(f, es[..|es| - 1][i], skuQuery, locQuery)
                   && Decode(d, es[..|es| - 1][i].1) == Some(c);
          assert es[i] == es[..|es| - 1][i];
        }
        forall c, i | 0 <= i < |es| && ScanMatches(f, es[i], skuQuery, locQuery) && Decode(d, es[i].1) == Some(c)
          ensures c in r'
        {
          if i < |es| - 1 { assert es[..|es| - 1][i] == es[i]; }
        }
      }
      r'
  }

  /** Two empty queries match no scan at all. */
  lemma {:induction false} EmptyQueriesMatchNothing(d: Decoder, f: CaseFold, es: seq<Entry>)
    ensures MatchCells(d, f, es, "", "") == {}
  {
  }

  /** Every matched cell is an occupied cell of the index built by the same
      decoder, so a search only ever highlights cells that hold scans. */
  lemma {:induction false} MatchedCellsAreOccupied(d: Decoder, f: CaseFold, es: seq<Entry>, skuQuery: string, locQuery: string)
    ensures MatchCells(d, f, es, skuQuery, locQuery) <= BuildIndex(d, es).bins.Keys
  {
    IndexedCells(d, es);
  }

  /** Widening a query set: a scan matched by the SKU query alone is matched
      whatever the location query is. */
  lemma {:induction false} MatchingIsMonotone(d: Decoder, f: CaseFold, es: seq<Entry>, skuQuery: string, locQuery: string)
    ensures MatchCells(d, f, es, skuQuery, "") <= MatchCells(d, f, es, skuQuery, locQuery)
    ensures MatchCells(d, f, es, "", locQuery) <= MatchCells(d, f, es, skuQuery, locQuery)
  {
  }

  // ------------------------------------------------------------- dashboard

  /** `search_grid` of the web dashboard: when both raw queries are empty the
      highlights stay as they were; otherwise they become the cells whose
      scans contain the upper-cased query in the upper-cased SKU or
      location. Queries are not trimmed. */
  function SearchDashboard(highlighted: set<Cell>, es: seq<Entry>, skuQuery: string, locQuery: string): (r: set<Cell>)
    ensures skuQuery == "" && locQuery == "" ==> r == highlighted
    ensures skuQuery != "" || locQuery != "" ==>
              forall c :: c in r <==>
                exists i :: 0 <= i < |es| && Decode(SplitSlices, es[i].1) == Some(c)
                  && ((skuQuery != "" && Occurs(Upper(skuQuery), Upper(es[i].0)))
                      || (locQuery != "" && Occurs(Upper(locQuery), Upper(es[i].1))))
  {
    if skuQuery == "" && locQuery == "" then highlighted
    else MatchCells(SplitSlices, FoldData, es, Upper(skuQuery), Upper(locQuery))
  }

  // ----------------------------------------------------------- desktop

  /** The search fields of a desktop window. */
  datatype Fields = Fields(sku: string, location: string)

  /** The queries a desktop search reads: each field trimmed and upper-cased. */
  function Queries(fields: Fields): (q: (string, string))
    ensures q.0 == "" <==> IsBlank(fields.sku)
    ensures q.1 == "" <==> IsBlank(fields.location)
  {
    (Upper(Strip(fields.sku)), Upper(Strip(fields.location)))
  }

  /** `search_grid` of the backup desktop variants: the highlights are
      cleared, the fields are kept and read, and blank fields find nothing. */
  function SearchBackup(es: seq<Entry>, fields: Fields): (r: set<Cell>)
    ensures IsBlank(fields.sku) && IsBlank(fields.location) ==> r == {}
    ensures forall c :: c in r <==>
              exists i :: 0 <= i < |es| && Decode(SplitSlices, es[i].1) == Some(c)
                && ScanMatches(FoldData, es[i], Queries(fields).0, Queries(fields).1)
  {
    var q := Queries(fields);
    if q.0 == "" && q.1 == "" then {}
    else MatchCells(SplitSlices, FoldData, es, q.0, q.1)
  }

  /** The matching loop of the optimized variant, with the joined-slice
      decoder and the fields read as the backups read them. */
  function SearchOptimizedFixed(es: seq<Entry>, fields: Fields): (r: set<Cell>)
    ensures forall c :: c in r <==>
              exists i :: 0 <= i < |es| && Decode(JoinedSlice, es[i].1) == Some(c)
                && ScanMatches(FoldData, es[i], Queries(fields).0, Queries(fields).1)
  {
    var q := Queries(fields);
    if q.0 == "" && q.1 == "" then
      EmptyQueriesMatchNothing(JoinedSlice, FoldData, es);
      {}
    else MatchCells(JoinedSlice, FoldData, es, q.0, q.1)
  }

  /** The optimized variant's decoder changes nothing: it finds the same
      cells as the backups. */
  lemma {:induction false} OptimizedAgreesWithBackup(es: seq<Entry>, fields: Fields)
    ensures SearchOptimizedFixed(es, fields) == SearchBackup(es, fields)
  {
    forall i | 0 <= i < |es| { SplitAndJoinedAgree(es[i].1); }
  }

  /** The matching loop of the oldest variant, with the fields read before
      they are cleared: the unguarded decoder, the query upper-cased, the
      SKU and location compared raw. */
  function SearchOldestRaw(es: seq<Entry>, fields: Fields): (r: set<Cell>)
    ensures forall c :: c in r <==>
              exists i :: 0 <= i < |es| && Decode(Unguarded, es[i].1) == Some(c)
                && ScanMatches(RawData, es[i], Queries(fields).0, Queries(fields).1)
  {
    var q := Queries(fields);
    if q.0 == "" && q.1 == "" then
      EmptyQueriesMatchNothing(Unguarded, RawData, es);
      {}
    else MatchCells(Unguarded, RawData, es, q.0, q.1)
  }

  /** The oldest variant with the data upper-cased like the query, as every
      later variant does. */
  function SearchOldestFolded(es: seq<Entry>, fields: Fields): (r: set<Cell>)
    ensures forall c :: c in r <==>
              exists i :: 0 <= i < |es| && Decode(Unguarded, es[i].1) == Some(c)
                && ScanMatches(FoldData, es[i], Queries(fields).0, Queries(fields).1)
  {
    var q := Queries(fields);
    if q.0 == "" && q.1 == "" then
      EmptyQueriesMatchNothing(Unguarded, FoldData, es);
      {}
    else MatchCells(Unguarded, FoldData, es, q.0, q.1)
  }

  /** A search over a single scan whose location decodes to `c` finds
      `c` when the scan matches and nothing otherwise. */
  lemma OneScanSearch(es: seq<Entry>, d: Decoder, f: CaseFold, q: (string, string), c: Cell, r: set<Cell>)
    requires |es| == 1 && Decode(d, es[0].1) == Some(c)
    requires forall x :: x in r <==>
               exists i :: 0 <= i < |es| && Decode(d, es[i].1) == Some(x) && ScanMatches(f, es[i], q.0, q.1)
    ensures r == if ScanMatches(f, es[0], q.0, q.1) then {c} else {}
  {
    var m := ScanMatches(f, es[0], q.0, q.1);
    forall x | x in r ensures x == c && m {
      var i :| 0 <= i < |es| && Decode(d, es[i].1) == Some(x) && ScanMatches(f, es[i], q.0, q.1);
      assert i == 0;
    }
    if m {
      assert c in r;
    }
  }

  /** A lower-case SKU is never found by the raw comparison, although the
      user typed it exactly: the query is upper-cased and the data is not. */
  lemma LowerCaseSkuMissedByRawSearch()
    ensures var es := [("abc123456", "R1S32-N-AT1")];
            && SearchOldestRaw(es, Fields("abc", "")) == {}
            && SearchOldestFolded(es, Fields("abc", "")) == {("1S", "32")}
  {
    var es := [("abc123456", "R1S32-N-AT1")];
    var fields := Fields("abc", "");
    LowerCaseQuery();
    LowerCaseSkuMatches(es[0]);
    SampleBinCode(Unguarded);
    OneScanSearch(es, Unguarded, RawData, Queries(fields), ("1S", "32"), SearchOldestRaw(es, fields));
    OneScanSearch(es, Unguarded, FoldData, Queries(fields), ("1S", "32"), SearchOldestFolded(es, fields));
  }

  /** The field `abc` is read as the query `ABC`. */
  lemma LowerCaseQuery()
    ensures Queries(Fields("abc", "")) == ("ABC", "")
  {
    assert Strip("abc") == "abc" by {
      assert !IsBlank("abc") by { assert !IsSpace("abc"[0]); }
      assert !IsSpace("abc"[0]) && !IsSpace("abc"[2]);
    }
    assert Strip("") == "";
    assert Upper("abc") == "ABC" by {
      assert |Upper("abc")| == 3;
      assert Upper("abc")[0] == 'A' && Upper("abc")[1] == 'B' && Upper("abc")[2] == 'C';
    }
  }

  /** The query `ABC` matches the scan of `abc123456` only once the data
      is upper-cased. */
  lemma LowerCaseSkuMatches(e: Entry)
    requires e == ("abc123456", "R1S32-N-AT1")
    ensures !ScanMatches(RawData, e, "ABC", "")
    ensures ScanMatches(FoldData, e, "ABC", "")
  {
    LowerCaseSku();
  }

  /** `ABC` occurs in the upper-cased SKU `abc123456` and not in the raw one. */
  lemma LowerCaseSku()
    ensures !Contains("ABC", "abc123456")
    ensures Contains("ABC", Upper("abc123456"))
  {
    RawSkuLacksQuery();
    FoldedSkuHasQuery();
  }

  lemma RawSkuLacksQuery()
    ensures !Occurs("ABC", "abc123456")
  {
    forall k | 0 <= k <= 6 ensures !SliceAt("ABC", "abc123456", k) {
      assert "abc123456"[k..k + 3][0] == "abc123456"[k] != 'A';
    }
  }

  lemma FoldedSkuHasQuery()
    ensures Occurs("ABC", Upper("abc123456"))
  {
    var u := Upper("abc123456");
    assert u[0] == 'A' && u[1] == 'B' && u[2] == 'C';
    assert u[0..3] == "ABC";
    assert SliceAt("ABC", u, 0);
  }

  /** On data already in upper case the raw and folded comparisons agree. */
  lemma {:induction false} RawSearchAgreesOnUpperCaseData(es: seq<Entry>, fields: Fields)
    requires forall i :: 0 <= i < |es| ==> Upper(es[i].0) == es[i].0 && Upper(es[i].1) == es[i].1
    ensures SearchOldestRaw(es, fields) == SearchOldestFolded(es, fields)
  {
  }

  /** The unguarded decoder also highlights scans whose location does not
      start with `R`, which the folded search with a guarded decoder would
      leave out: the oldest variant finds a superset of the backups' cells. */
  lemma {:induction false} OldestFoldedExtendsBackup(es: seq<Entry>, fields: Fields)
    ensures SearchBackup(es, fields) <= SearchOldestFolded(es, fields)
  {
    forall i | 0 <= i < |es| { UnguardedExtendsGuarded(es[i].1); }
  }

  // ------------------------------------------------------ clear, then read

  /** `clear_search` of the oldest and optimized variants: both fields are
      reset to the empty string. */
  function ClearFields(fields: Fields): (r: Fields)
    ensures IsBlank(r.sku) && IsBlank(r.location)
  {
    Fields("", "")
  }

  /** `search_grid` of the oldest and optimized variants as wired: the fields
      are cleared first and only then read, so every search is empty. */
  function SearchClearingFirst(d: Decoder, f: CaseFold, es: seq<Entry>, fields: Fields): (r: set<Cell>)
    ensures r == {}
  {
    var q := Queries(ClearFields(fields));
    if q.0 == "" && q.1 == "" then {}
    else MatchCells(d, f, es, q.0, q.1)
  }

  /** A scan the user searched for by its exact SKU: the clearing search
      finds nothing, while reading the fields first finds its cell. */
  lemma ClearingFirstLosesTheQuery()
    ensures var es := [("SKU000001", "R1S32-N-AT1")];
            && SearchClearingFirst(JoinedSlice, FoldData, es, Fields("SKU000001", "")) == {}
            && SearchOptimizedFixed(es, Fields("SKU000001", "")) == {("1S", "32")}
  {
    var es := [("SKU000001", "R1S32-N-AT1")];
    var fields := Fields("SKU000001", "");
    ExactSkuQuery();
    SampleBinCode(JoinedSlice);
    assert ScanMatches(FoldData, es[0], "SKU000001", "");
    OneScanSearch(es, JoinedSlice, FoldData, Queries(fields), ("1S", "32"), SearchOptimizedFixed(es, fields));
  }

  /** The field `SKU000001` is read as itself, and it occurs in its own
      upper-cased form. */
  lemma ExactSkuQuery()
    ensures Queries(Fields("SKU000001", "")) == ("SKU000001", "")
    ensures Contains("SKU000001", Upper("SKU000001"))
  {
    assert Strip("SKU000001") == "SKU000001" by {
      assert !IsBlank("SKU000001") by { assert !IsSpace("SKU000001"[0]); }
      assert !IsSpace("SKU000001"[0]) && !IsSpace("SKU000001"[8]);
    }
    assert Strip("") == "";
    assert Upper("SKU000001") == "SKU000001" by {
      assert |Upper("SKU000001")| == 9;
      forall k | 0 <= k < 9 ensures Upper("SKU000001")[k] == "SKU000001"[k] {}
    }
    assert SliceAt("SKU000001", Upper("SKU000001"), 0);
  }
}

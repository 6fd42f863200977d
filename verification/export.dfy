// The dashboard's two CSV exports. Each groups bin locations under a key
// with a `defaultdict(list)`, keeps some groups, writes every kept group as
// one row of its key and its locations sorted and joined with ", ", and
// sorts the rows by key.

module Export {
  import opened Wrappers
  import opened Text
  import opened Seqs
  import opened Sorting
  import opened Location
  import opened GridIndex
  import opened Analysis

  /** A key and a value, or an exported row of a key and its joined values. */
  type Pair = (string, string)

  /** Some pair carries the key `k`. */
  ghost predicate HasKey(kvs: seq<Pair>, k: string) {
    exists i :: 0 <= i < |kvs| && kvs[i].0 == k
  }

  /** The values paired with `k`, in list order: the list a
      `defaultdict(list)` holds under `k` after the appends. */
  function ValuesOf(kvs: seq<Pair>, k: string): (vs: seq<string>)
    ensures vs != [] <==> HasKey(kvs, k)
  {
    if |kvs| == 0 then []
    else
      var init := kvs[..|kvs| - 1];
      HasKeyStep(kvs, k);
      ValuesOf(init, k) + (if kvs[|kvs| - 1].0 == k then [kvs[|kvs| - 1].1] else [])
  }

  /** A key occurs in a non-empty list when it occurs in all but the last
      pair or in the last. */
  lemma HasKeyStep(kvs: seq<Pair>, k: string)
    requires |kvs| > 0
    ensures HasKey(kvs, k) <==> HasKey(kvs[..|kvs| - 1], k) || kvs[|kvs| - 1].0 == k
  {
    var init := kvs[..|kvs| - 1];
    if HasKey(kvs, k) {
      var i :| 0 <= i < |kvs| && kvs[i].0 == k;
      if i < |kvs| - 1 { assert init[i] == kvs[i]; }
    }
    if HasKey(init, k) {
      var i :| 0 <= i < |init| && init[i].0 == k;
      assert kvs[i] == init[i];
    }
  }

  lemma {:induction false} ValuesOfAppend(a: seq<Pair>, b: seq<Pair>, k: string)
    ensures ValuesOf(a + b, k) == ValuesOf(a, k) + ValuesOf(b, k)
  {
    if |b| > 0 {
      ValuesOfAppend(a, b[..|b| - 1], k);
      assert (a + b)[..|a + b| - 1] == a + b[..|b| - 1];
    } else {
      assert a + b == a;
    }
  }

  /** The groups of a `defaultdict(list)`: its keys in insertion order and
      the list under each. */
  datatype Groups = Groups(keys: seq<string>, lists: map<string, seq<string>>)

  /** What grouping a list of pairs yields. */
  ghost predicate GroupsOf(g: Groups, kvs: seq<Pair>) {
    && Distinct(g.keys)
    && (forall k :: k in g.lists <==> k in g.keys)
    && (forall k :: k in g.lists <==> HasKey(kvs, k))
    && (forall k :: k in g.lists ==> g.lists[k] == ValuesOf(kvs, k))
  }

  /** Appending every value to the list of its key. */
  function Group(kvs: seq<Pair>): (g: Groups)
    ensures GroupsOf(g, kvs)
  {
    if |kvs| == 0 then Groups([], map[])
    else
      var g := Group(kvs[..|kvs| - 1]);
      GroupStep(g, kvs)
  }

  /** One append to the groups of all but the last pair. */
  function GroupStep(g: Groups, kvs: seq<Pair>): (r: Groups)
    requires |kvs| > 0 && GroupsOf(g, kvs[..|kvs| - 1])
    ensures GroupsOf(r, kvs)
  {
    var (k, v) := kvs[|kvs| - 1];
    forall k' ensures HasKey(kvs, k') <==> HasKey(kvs[..|kvs| - 1], k') || k == k' { HasKeyStep(kvs, k'); }
    if k in g.lists then
      Groups(g.keys, g.lists[k := g.lists[k] + [v]])
    else
      assert k !in g.keys;
      assert Distinct(g.keys + [k]);
      Groups(g.keys + [k], g.lists[k := [v]])
  }

  /** One exported row: the key, then its values sorted and joined. */
  function FormatRow(k: string, vs: seq<string>): Pair {
    (k, Join(SortStrings(vs), ", "))
  }

  /** The rows of the groups holding at least `least` values, in key order. */
  function KeptRows(keys: seq<string>, lists: map<string, seq<string>>, least: nat): (rows: seq<Pair>)
    requires forall k :: k in keys ==> k in lists
    ensures forall r :: r in rows ==> r.0 in keys && |lists[r.0]| >= least && r == FormatRow(r.0, lists[r.0])
    ensures forall k :: k in keys && |lists[k]| >= least ==> FormatRow(k, lists[k]) in rows
    ensures Distinct(keys) ==> Distinct(rows)
  {
    if |keys| == 0 then []
    else
      var init := keys[..|keys| - 1];
      var k := keys[|keys| - 1];
      var rows := KeptRows(init, lists, least);
      var out := if |lists[k]| >= least then rows + [FormatRow(k, lists[k])] else rows;
      KeptRowsSound(keys, lists, least, rows, out);
      KeptRowsComplete(keys, lists, least, rows, out);
      KeptRowsDistinct(keys, lists, least, rows, out);
      out
  }

  /** Every kept row belongs to a key with enough values. */
  lemma KeptRowsSound(keys: seq<string>, lists: map<string, seq<string>>, least: nat, rows: seq<Pair>, out: seq<Pair>)
    requires |keys| > 0 && forall k :: k in keys ==> k in lists
    requires forall k :: k in keys[..|keys| - 1] ==> k in lists
    requires forall r :: r in rows ==> r.0 in keys[..|keys| - 1] && |lists[r.0]| >= least && r == FormatRow(r.0, lists[r.0])
    requires out == if |lists[keys[|keys| - 1]]| >= least then rows + [FormatRow(keys[|keys| - 1], lists[keys[|keys| - 1]])] else rows
    ensures forall r :: r in out ==> r.0 in keys && |lists[r.0]| >= least && r == FormatRow(r.0, lists[r.0])
  {
    assert keys == keys[..|keys| - 1] + [keys[|keys| - 1]];
  }

  /** Every key with enough values has its row. */
  lemma KeptRowsComplete(keys: seq<string>, lists: map<string, seq<string>>, least: nat, rows: seq<Pair>, out: seq<Pair>)
    requires |keys| > 0 && forall k :: k in keys ==> k in lists
    requires forall k :: k in keys[..|keys| - 1] ==> k in lists
    requires forall k :: k in keys[..|keys| - 1] && |lists[k]| >= least ==> FormatRow(k, lists[k]) in rows
    requires out == if |lists[keys[|keys| - 1]]| >= least then rows + [FormatRow(keys[|keys| - 1], lists[keys[|keys| - 1]])] else rows
    ensures forall k :: k in keys && |lists[k]| >= least ==> FormatRow(k, lists[k]) in out
  {
    assert keys == keys[..|keys| - 1] + [keys[|keys| - 1]];
  }

  /** Distinct keys give distinct rows. */
  lemma KeptRowsDistinct(keys: seq<string>, lists: map<string, seq<string>>, least: nat, rows: seq<Pair>, out: seq<Pair>)
    requires |keys| > 0 && keys[|keys| - 1] in lists
    requires forall r :: r in rows ==> r.0 in keys[..|keys| - 1]
    requires Distinct(keys[..|keys| - 1]) ==> Distinct(rows)
    requires out == if |lists[keys[|keys| - 1]]| >= least then rows + [FormatRow(keys[|keys| - 1], lists[keys[|keys| - 1]])] else rows
    ensures Distinct(keys) ==> Distinct(out)
  {
    DistinctSnoc(keys);
    var row := FormatRow(keys[|keys| - 1], lists[keys[|keys| - 1]]);
    DistinctSnoc(rows + [row]);
    assert (rows + [row])[..|rows|] == rows;
  }

  /** The key of a row. */
  function First(r: Pair): string { r.0 }

  /** The keys of the rows, in row order. */
  function RowKeys(rows: seq<Pair>): (ks: seq<string>)
    ensures |ks| == |rows|
    ensures forall i :: 0 <= i < |rows| ==> ks[i] == rows[i].0
  {
    seq(|rows|, i requires 0 <= i < |rows| => rows[i].0)
  }

  /** A permutation of rows in which every key determines its row keeps the
      keys of distinct rows distinct. */
  lemma {:induction false} PermutedRowsKeepKeysDistinct(rows: seq<Pair>, sorted: seq<Pair>)
    requires Distinct(rows)
    requires multiset(sorted) == multiset(rows)
    requires forall r, s :: r in sorted && s in sorted && r.0 == s.0 ==> r == s
    ensures Distinct(RowKeys(sorted))
  {
    forall i, j | 0 <= i < j < |sorted| ensures sorted[i].0 != sorted[j].0 {
      if sorted[i].0 == sorted[j].0 {
        assert sorted[i] == sorted[j];
        RepeatedElement(sorted, i, j);
        DistinctMultiplicity(rows, sorted[i]);
        assert false;
      }
    }
  }

  /** The export: group, keep the groups holding at least `least` values,
      format each, and sort the rows by key. The rows' keys are strictly
      increasing, a key has a row exactly when it has at least `least`
      values (and one at all), and its row lists exactly its values. */
  function ExportRows(kvs: seq<Pair>, least: nat): (rows: seq<Pair>)
    ensures SortedBy(rows, First)
    ensures Distinct(RowKeys(rows))
    ensures forall r :: r in rows ==> r == FormatRow(r.0, ValuesOf(kvs, r.0))
    ensures forall k :: k in RowKeys(rows) <==> HasKey(kvs, k) && |ValuesOf(kvs, k)| >= least
  {
    var g := Group(kvs);
    var kept := KeptRows(g.keys, g.lists, least);
    var rows := SortBy(kept, First);
    ExportFacts(kvs, least, g, kept, rows);
    rows
  }

  lemma ExportFacts(kvs: seq<Pair>, least: nat, g: Groups, kept: seq<Pair>, rows: seq<Pair>)
    requires GroupsOf(g, kvs)
    requires kept == KeptRows(g.keys, g.lists, least)
    requires multiset(rows) == multiset(kept)
    ensures Distinct(RowKeys(rows))
    ensures forall r :: r in rows ==> r == FormatRow(r.0, ValuesOf(kvs, r.0))
    ensures forall k :: k in RowKeys(rows) <==> HasKey(kvs, k) && |ValuesOf(kvs, k)| >= least
  {
    SameElements(rows, kept);
    KeptKeys(kvs, least, g, kept, rows);
    assert Distinct(kept);
    PermutedRowsKeepKeysDistinct(kept, rows);
  }

  /** Sequences with the same multiset have the same elements. */
  lemma SameElements<T>(a: seq<T>, b: seq<T>)
    requires multiset(a) == multiset(b)
    ensures forall x :: x in a <==> x in b
  {
    forall x ensures x in a <==> x in b {
      assert x in a <==> x in multiset(a);
      assert x in b <==> x in multiset(b);
    }
  }

  lemma KeptKeys(kvs: seq<Pair>, least: nat, g: Groups, kept: seq<Pair>, rows: seq<Pair>)
    requires GroupsOf(g, kvs)
    requires kept == KeptRows(g.keys, g.lists, least)
    requires forall r :: r in rows <==> r in kept
    ensures forall r :: r in rows ==> r == FormatRow(r.0, ValuesOf(kvs, r.0))
    ensures forall k :: k in RowKeys(rows) <==> HasKey(kvs, k) && |ValuesOf(kvs, k)| >= least
  {
    forall k ensures k in RowKeys(rows) <==> HasKey(kvs, k) && |ValuesOf(kvs, k)| >= least {
      if k in RowKeys(rows) {
        var i :| 0 <= i < |rows| && RowKeys(rows)[i] == k;
        assert rows[i] in kept;
      }
      if HasKey(kvs, k) && |ValuesOf(kvs, k)| >= least {
        assert FormatRow(k, g.lists[k]) in rows;
        var i :| 0 <= i < |rows| && rows[i] == FormatRow(k, g.lists[k]);
        assert RowKeys(rows)[i] == k;
      }
    }
  }

  /** The number of exported rows is the number of keys with a row. */
  lemma {:induction false} ExportRowCount(kvs: seq<Pair>, least: nat)
    ensures |ExportRows(kvs, least)| == |set k | k in RowKeys(ExportRows(kvs, least))|
  {
    DistinctCardinality(RowKeys(ExportRows(kvs, least)));
  }

  // ------------------------------------------------- duplicate SKUs export

  /** The bin locations of the decodable scans of `sku`, in list order. */
  function LocationsOf(d: Decoder, es: seq<Entry>, sku: string): (locs: seq<string>)
    ensures |locs| == CountDecodable(d, es, sku)
  {
    if |es| == 0 then []
    else
      var e := es[|es| - 1];
      LocationsOf(d, es[..|es| - 1], sku) + (if e.0 == sku && Decode(d, e.1).Some? then [e.1] else [])
  }

  /** The `(sku, location)` pairs `prepare_duplicate_skus_export` groups:
      eligible nine-character SKUs with a decodable location. */
  function DuplicatePairs(es: seq<Entry>): (kvs: seq<Pair>)
    ensures forall s :: ValuesOf(kvs, s) == if DuplicateEligible(NineCharacters, s) then LocationsOf(SplitSlices, es, s) else []
  {
    if |es| == 0 then []
    else
      var e := es[|es| - 1];
      var init := DuplicatePairs(es[..|es| - 1]);
      var last := if DuplicateEligible(NineCharacters, e.0) && Decode(SplitSlices, e.1).Some? then [e] else [];
      DuplicatePairsStep(es, init, last);
      init + last
  }

  lemma DuplicatePairsStep(es: seq<Entry>, init: seq<Pair>, last: seq<Pair>)
    requires |es| > 0
    requires forall s :: ValuesOf(init, s) == if DuplicateEligible(NineCharacters, s) then LocationsOf(SplitSlices, es[..|es| - 1], s) else []
    requires last == if DuplicateEligible(NineCharacters, es[|es| - 1].0) && Decode(SplitSlices, es[|es| - 1].1).Some? then [es[|es| - 1]] else []
    ensures forall s :: ValuesOf(init + last, s) == if DuplicateEligible(NineCharacters, s) then LocationsOf(SplitSlices, es, s) else []
  {
    forall s ensures ValuesOf(init + last, s) == if DuplicateEligible(NineCharacters, s) then LocationsOf(SplitSlices, es, s) else [] {
      DuplicateValuesStep(es, init, last, s);
    }
  }

  lemma DuplicateValuesStep(es: seq<Entry>, init: seq<Pair>, last: seq<Pair>, s: string)
    requires |es| > 0
    requires ValuesOf(init, s) == if DuplicateEligible(NineCharacters, s) then LocationsOf(SplitSlices, es[..|es| - 1], s) else []
    requires last == if DuplicateEligible(NineCharacters, es[|es| - 1].0) && Decode(SplitSlices, es[|es| - 1].1).Some? then [es[|es| - 1]] else []
    ensures ValuesOf(init + last, s) == if DuplicateEligible(NineCharacters, s) then LocationsOf(SplitSlices, es, s) else []
  {
    var e := es[|es| - 1];
    ValuesOfAppend(init, last, s);
    assert LocationsOf(SplitSlices, es, s) ==
      LocationsOf(SplitSlices, es[..|es| - 1], s) + (if e.0 == s && Decode(SplitSlices, e.1).Some? then [e.1] else []);
    if last != [] {
      assert last[..0] == [];
      assert ValuesOf(last, s) == if e.0 == s then [e.1] else [];
    } else {
      assert ValuesOf(last, s) == [];
    }
  }

  /** `prepare_duplicate_skus_export`: one row per duplicate SKU, its bin
      locations sorted and joined, the rows sorted by SKU. Its SKUs are
      exactly the duplicates `analyze_data` finds under the same
      nine-character rule. */
  function DuplicateExport(es: seq<Entry>): (rows: seq<Pair>)
    ensures SortedBy(rows, First)
    ensures Distinct(RowKeys(rows))
    ensures forall s :: s in RowKeys(rows) <==> s in AnalyzeData(NineCharacters, BuildIndex(SplitSlices, es)).duplicateSkus
    ensures forall r :: r in rows ==> r.1 == Join(SortStrings(LocationsOf(SplitSlices, es, r.0)), ", ")
  {
    var kvs := DuplicatePairs(es);
    AnalyzeLoadedData(NineCharacters, SplitSlices, es);
    var rows := ExportRows(kvs, 2);
    forall s ensures HasKey(kvs, s) && |ValuesOf(kvs, s)| >= 2 <==>
                     DuplicateEligible(NineCharacters, s) && CountDecodable(SplitSlices, es, s) > 1 {}
    rows
  }

  /** The export has one row per duplicate SKU of the index. */
  lemma DuplicateExportRowCount(es: seq<Entry>)
    ensures |DuplicateExport(es)| == |AnalyzeData(NineCharacters, BuildIndex(SplitSlices, es)).duplicateSkus|
  {
    var rows := DuplicateExport(es);
    DistinctCardinality(RowKeys(rows));
    SetOfElements(RowKeys(rows), AnalyzeData(NineCharacters, BuildIndex(SplitSlices, es)).duplicateSkus);
  }

  // -------------------------------------------------- empty bins export

  /** The bin locations of the empty-bin scans indexed at cell `c`. */
  function EmptyLocationsIn(es: seq<Entry>, c: Cell): (locs: seq<string>)
    ensures locs != [] <==> EmptyScanIn(es, c)
  {
    if |es| == 0 then []
    else
      var e := es[|es| - 1];
      var init := es[..|es| - 1];
      EmptyScanStep(es, c);
      EmptyLocationsIn(init, c) + (if EmptyScanAt(e, c) then [e.1] else [])
  }

  /** `e` is an empty-bin scan indexed at cell `c`. */
  predicate EmptyScanAt(e: Entry, c: Cell) {
    IsEmptyBin(e.0) && Decode(SplitSlices, e.1) == Some(c)
  }

  /** Some empty-bin scan of `es` is indexed at cell `c`. */
  ghost predicate EmptyScanIn(es: seq<Entry>, c: Cell) {
    exists i :: 0 <= i < |es| && EmptyScanAt(es[i], c)
  }

  /** An empty-bin scan at `c` is among the records exactly when it is
      among all but the last, or is the last. */
  lemma EmptyScanStep(es: seq<Entry>, c: Cell)
    requires |es| > 0
    ensures EmptyScanIn(es, c) <==> EmptyScanIn(es[..|es| - 1], c) || EmptyScanAt(es[|es| - 1], c)
  {
    var init := es[..|es| - 1];
    assert forall i :: 0 <= i < |init| ==> init[i] == es[i];
  }

  /** The pair of an empty-bin scan: its grid-location key and its location. */
  function EmptyPair(e: Entry): Pair
    requires |e.1| >= 5
  {
    (EmptyBinKey(e.1), e.1)
  }

  /** The `(grid key, location)` pairs `prepare_empty_bins_export` groups:
      the empty-bin scans with a decodable location. */
  function EmptyPairs(es: seq<Entry>): (kvs: seq<Pair>)
    ensures forall c: Cell :: |c.0| == 2 && |c.1| == 2 ==> ValuesOf(kvs, c.0 + c.1) == EmptyLocationsIn(es, c)
    ensures forall k :: HasKey(kvs, k) ==> |k| == 4 && KeyCell(k) in FindEmptyBins(SplitSlices, es)
  {
    if |es| == 0 then []
    else
      var e := es[|es| - 1];
      var init := EmptyPairs(es[..|es| - 1]);
      var last := if IsEmptyBin(e.0) && Decode(SplitSlices, e.1).Some? then [EmptyPair(e)] else [];
      EmptyPairsStep(es, init, last);
      init + last
  }

  lemma EmptyPairsStep(es: seq<Entry>, init: seq<Pair>, last: seq<Pair>)
    requires |es| > 0
    requires forall c: Cell :: |c.0| == 2 && |c.1| == 2 ==> ValuesOf(init, c.0 + c.1) == EmptyLocationsIn(es[..|es| - 1], c)
    requires forall k :: HasKey(init, k) ==> |k| == 4 && KeyCell(k) in FindEmptyBins(SplitSlices, es[..|es| - 1])
    requires last == if IsEmptyBin(es[|es| - 1].0) && Decode(SplitSlices, es[|es| - 1].1).Some? then [EmptyPair(es[|es| - 1])] else []
    ensures forall c: Cell :: |c.0| == 2 && |c.1| == 2 ==> ValuesOf(init + last, c.0 + c.1) == EmptyLocationsIn(es, c)
    ensures forall k :: HasKey(init + last, k) ==> |k| == 4 && KeyCell(k) in FindEmptyBins(SplitSlices, es)
  {
    forall c: Cell | |c.0| == 2 && |c.1| == 2 ensures ValuesOf(init + last, c.0 + c.1) == EmptyLocationsIn(es, c) {
      EmptyValuesStep(es, init, last, c);
    }
    forall k | HasKey(init + last, k) ensures |k| == 4 && KeyCell(k) in FindEmptyBins(SplitSlices, es) {
      EmptyKeysStep(es, init, last, k);
    }
  }

  lemma EmptyValuesStep(es: seq<Entry>, init: seq<Pair>, last: seq<Pair>, c: Cell)
    requires |es| > 0 && |c.0| == 2 && |c.1| == 2
    requires ValuesOf(init, c.0 + c.1) == EmptyLocationsIn(es[..|es| - 1], c)
    requires last == if IsEmptyBin(es[|es| - 1].0) && Decode(SplitSlices, es[|es| - 1].1).Some? then [EmptyPair(es[|es| - 1])] else []
    ensures ValuesOf(init + last, c.0 + c.1) == EmptyLocationsIn(es, c)
  {
    var e := es[|es| - 1];
    ValuesOfAppend(init, last, c.0 + c.1);
    assert EmptyLocationsIn(es, c) == EmptyLocationsIn(es[..|es| - 1], c) + (if EmptyScanAt(e, c) then [e.1] else []);
    if last != [] {
      LastEmptyValues(e, c);
    } else {
      assert ValuesOf(last, c.0 + c.1) == [];
    }
  }

  /** The pair of one empty-bin scan gives its location to the key of its
      own cell and to no other. */
  lemma LastEmptyValues(e: Entry, c: Cell)
    requires IsEmptyBin(e.0) && Decode(SplitSlices, e.1).Some? && |c.0| == 2 && |c.1| == 2
    ensures ValuesOf([EmptyPair(e)], c.0 + c.1) == if EmptyScanAt(e, c) then [e.1] else []
  {
    var c' := Decode(SplitSlices, e.1).value;
    EmptyBinKeyIsCell(e.1, e.1);
    KeyOfCell(c);
    KeyOfCell(c');
    assert [EmptyPair(e)][..0] == [];
  }

  lemma EmptyKeysStep(es: seq<Entry>, init: seq<Pair>, last: seq<Pair>, k: string)
    requires |es| > 0
    requires forall k :: HasKey(init, k) ==> |k| == 4 && KeyCell(k) in FindEmptyBins(SplitSlices, es[..|es| - 1])
    requires last == if IsEmptyBin(es[|es| - 1].0) && Decode(SplitSlices, es[|es| - 1].1).Some? then [EmptyPair(es[|es| - 1])] else []
    requires HasKey(init + last, k)
    ensures |k| == 4 && KeyCell(k) in FindEmptyBins(SplitSlices, es)
  {
    HasKeyAppend(init, last, k);
    if HasKey(init, k) {
      EmptyBinsGrow(es);
    } else {
      LastEmptyKey(es, last, k);
    }
  }

  lemma LastEmptyKey(es: seq<Entry>, last: seq<Pair>, k: string)
    requires |es| > 0
    requires last == if IsEmptyBin(es[|es| - 1].0) && Decode(SplitSlices, es[|es| - 1].1).Some? then [EmptyPair(es[|es| - 1])] else []
    requires HasKey(last, k)
    ensures |k| == 4 && KeyCell(k) in FindEmptyBins(SplitSlices, es)
  {
    assert last != [] && k == last[0].0;
    LastEmptyCell(es);
  }

  lemma HasKeyAppend(a: seq<Pair>, b: seq<Pair>, k: string)
    ensures HasKey(a + b, k) <==> HasKey(a, k) || HasKey(b, k)
  {
    if HasKey(a + b, k) {
      var i :| 0 <= i < |a + b| && (a + b)[i].0 == k;
      if i >= |a| { assert b[i - |a|] == (a + b)[i]; }
    }
    if HasKey(a, k) {
      var i :| 0 <= i < |a| && a[i].0 == k;
      assert (a + b)[i] == a[i];
    }
    if HasKey(b, k) {
      var i :| 0 <= i < |b| && b[i].0 == k;
      assert (a + b)[|a| + i] == b[i];
    }
  }

  /** Scanning one more record can only add empty-bin cells. */
  lemma EmptyBinsGrow(es: seq<Entry>)
    requires |es| > 0
    ensures FindEmptyBins(SplitSlices, es[..|es| - 1]) <= FindEmptyBins(SplitSlices, es)
  {
    var pre := es[..|es| - 1];
    assert forall i :: 0 <= i < |pre| ==> pre[i] == es[i];
  }

  /** The cell an export key names: its first two characters are the
      column, the other two the row. */
  function KeyCell(k: string): (c: Cell)
    requires |k| == 4
    ensures c.0 + c.1 == k
  {
    (k[..2], k[2..])
  }

  /** The last record's cell is an empty-bin cell when it is an empty-bin
      scan, and its export key names that cell. */
  lemma LastEmptyCell(es: seq<Entry>)
    requires |es| > 0 && IsEmptyBin(es[|es| - 1].0) && Decode(SplitSlices, es[|es| - 1].1).Some?
    ensures KeyCell(EmptyBinKey(es[|es| - 1].1)) in FindEmptyBins(SplitSlices, es)
  {
    var loc := es[|es| - 1].1;
    var c := Decode(SplitSlices, loc).value;
    EmptyBinKeyIsCell(loc, loc);
    assert KeyCell(EmptyBinKey(loc)) == c;
    assert c in FindEmptyBins(SplitSlices, es);
  }

  /** `prepare_empty_bins_export`: one row per cell holding an empty-bin
      scan, keyed by the cell's column and row written together, listing the
      empty-bin locations of the cell sorted and joined, the rows sorted by
      key. Its keys are exactly the cells `find_empty_bins` reports. */
  function EmptyExport(es: seq<Entry>): (rows: seq<Pair>)
    ensures SortedBy(rows, First)
    ensures Distinct(RowKeys(rows))
    ensures forall k :: k in RowKeys(rows) <==> exists c :: c in FindEmptyBins(SplitSlices, es) && k == c.0 + c.1
    ensures forall c :: c in FindEmptyBins(SplitSlices, es) ==> FormatRow(c.0 + c.1, EmptyLocationsIn(es, c)) in rows
  {
    var rows := ExportRows(EmptyPairs(es), 1);
    forall c | c in FindEmptyBins(SplitSlices, es)
      ensures c.0 + c.1 in RowKeys(rows) && FormatRow(c.0 + c.1, EmptyLocationsIn(es, c)) in rows
    {
      EmptyCellHasRow(es, c);
    }
    forall k | k in RowKeys(rows) ensures exists c :: c in FindEmptyBins(SplitSlices, es) && k == c.0 + c.1 {
      assert KeyCell(k) in FindEmptyBins(SplitSlices, es);
    }
    rows
  }

  /** The empty-bin export has one row per cell `find_empty_bins` reports. */
  lemma EmptyExportRowCount(es: seq<Entry>)
    ensures |EmptyExport(es)| == |FindEmptyBins(SplitSlices, es)|
  {
    var rows := EmptyExport(es);
    var cells := FindEmptyBins(SplitSlices, es);
    DistinctCardinality(RowKeys(rows));
    SetOfElements(RowKeys(rows), set c | c in cells :: c.0 + c.1);
    forall c | c in cells ensures |c.0| == 2 && |c.1| == 2 {
      EmptyCellShape(es, c);
    }
    CellKeysCount(cells);
  }

  /** A reported empty-bin cell has a two-character column and row. */
  lemma EmptyCellShape(es: seq<Entry>, c: Cell)
    requires c in FindEmptyBins(SplitSlices, es)
    ensures |c.0| == 2 && |c.1| == 2
  {
    assert EmptyScanIn(es, c);
  }

  /** Writing column and row together loses nothing for two-character
      columns and rows: distinct cells get distinct keys. */
  lemma {:induction false} CellKeysCount(cells: set<Cell>)
    requires forall c :: c in cells ==> |c.0| == 2 && |c.1| == 2
    ensures |set c | c in cells :: c.0 + c.1| == |cells|
    decreases |cells|
  {
    if cells != {} {
      var x :| x in cells;
      var rest := cells - {x};
      CellKeysCount(rest);
      var keys := set c | c in cells :: c.0 + c.1;
      var restKeys := set c | c in rest :: c.0 + c.1;
      assert keys == restKeys + {x.0 + x.1};
      assert x.0 + x.1 !in restKeys by {
        forall c | c in rest ensures c.0 + c.1 != x.0 + x.1 {
          KeyOfCell(c);
          KeyOfCell(x);
        }
      }
    }
  }

  /** The cell a key names is the cell it was written from. */
  lemma KeyOfCell(c: Cell)
    requires |c.0| == 2 && |c.1| == 2
    ensures KeyCell(c.0 + c.1) == c
  {
    assert (c.0 + c.1)[..2] == c.0 && (c.0 + c.1)[2..] == c.1;
  }

  /** A cell holding an empty-bin scan has its row, listing its empty-bin
      locations. */
  lemma EmptyCellHasRow(es: seq<Entry>, c: Cell)
    requires c in FindEmptyBins(SplitSlices, es)
    ensures c.0 + c.1 in RowKeys(ExportRows(EmptyPairs(es), 1))
    ensures FormatRow(c.0 + c.1, EmptyLocationsIn(es, c)) in ExportRows(EmptyPairs(es), 1)
  {
    EmptyCellValues(es, c);
    RowOfKey(EmptyPairs(es), 1, c.0 + c.1);
  }

  /** A cell holding an empty-bin scan has the key of its cell among the
      pairs, with its empty-bin locations as values. */
  lemma EmptyCellValues(es: seq<Entry>, c: Cell)
    requires c in FindEmptyBins(SplitSlices, es)
    ensures ValuesOf(EmptyPairs(es), c.0 + c.1) == EmptyLocationsIn(es, c) != []
  {
    assert EmptyScanIn(es, c);
    assert |c.0| == 2 && |c.1| == 2;
  }

  /** A key with enough values has its formatted row in the export. */
  lemma RowOfKey(kvs: seq<Pair>, least: nat, k: string)
    requires HasKey(kvs, k) && |ValuesOf(kvs, k)| >= least
    ensures k in RowKeys(ExportRows(kvs, least))
    ensures FormatRow(k, ValuesOf(kvs, k)) in ExportRows(kvs, least)
  {
    var rows := ExportRows(kvs, least);
    assert k in RowKeys(rows);
    var j :| 0 <= j < |rows| && RowKeys(rows)[j] == k;
    assert rows[j] in rows;
  }
}

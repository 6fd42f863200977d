# Warehouse grid visualizer — a Dafny model of the scan-record pipeline

The warehouse grid visualizer reads CSV files of handheld bin scans. Each
scan is a timestamp, a garment SKU and a bin location such as
`R1S32-N-AT1`. The program places every scan on a grid whose column is the
rack level and aisle letter (`1S`) and whose row is the two-digit bay
(`32`). It then:

- colours the occupied cells;
- finds SKUs scanned in more than one place, and cells holding empty-bin
  scans;
- searches by SKU or location substring;
- lists the scans of one cell;
- exports the duplicate and empty-bin findings as sorted tables.

The same core exists in five variants:

- the Streamlit web dashboard (`warehouse_grid_visualizer_streamlit.py`);
- two dated Tkinter backups (`backup/…_20250422.py`, `backup/…_20250424.py`);
- two older Tkinter programs (`old/warehouse_grid_visualizer.py` and
  `old/warehouse_grid_visualizer_optimized.py`).

Two command-line tools sit beside them. `combine_csv.py` merges many scan
files into one file of unique (SKU, location) scans. `old/check_combined.py`
counts the rows and distinct pairs of such a file.

This project models that core as pure functions over immutable data and
proves what each operation computes. The modules follow the pipeline:

| module | file | what it models |
|---|---|---|
| `Wrappers` | `wrappers.dfy` | `Option` and `Result` |
| `Text` | `text.dfy` | `upper`, `lower`, `strip`, substring test, `", ".join`, string order |
| `Sorting` | `sorting.dfy` | `sorted` / `list.sort` by a string key (insertion sort, permutation + order proved) |
| `Seqs` | `seqs.dfy` | distinctness and cardinality facts |
| `Location` | `location.dfy` | the three bin-code decoders, the empty-bin export key, the drawn column/row labels |
| `GridIndex` | `grid_index.dfy` | the column → row → scans index and the status-bar occupied count |
| `Loading` | `loading.dfy` | the dashboard's named-column load and the desktop variants' positional load |
| `Analysis` | `analysis.dfy` | `analyze_data`, `find_duplicate_skus`, `find_empty_bins` |
| `Session` | `session.dfy` | the flat record list and grid kept between loads, and what a failed reload leaves behind |
| `Search` | `search.dfy` | the five search functions |
| `Details` | `details.dfy` | the cell-details view: listing, timestamp lookup, row highlighting; the view the dashboard's search handler acts on |
| `Export` | `export.dfy` | the duplicate-SKU and empty-bin exports |
| `Combine` | `combine.dfy` | `combine_csv_files` and `analyze_combined_csv` |

Decisions the model makes explicit:

- **Decoders.** There are three ways to turn a location into a cell.
  - The dashboard and the backups require the length to be at least 5 and
    the location to start with `R`, and slice the column in two one-character
    pieces (`SplitSlices`).
  - The optimized program has the same guard and slices the column in one
    piece (`JoinedSlice`).
  - The oldest program checks only the length (`Unguarded`).
  - `SplitSlices` and `JoinedSlice` are proved to build the same index.
- **Duplicates count occurrences.** `analyze_data` counts occurrences over
  the index, so a SKU scanned twice in one cell is a duplicate even though
  it occupies one cell (`Analysis.SameCellTwiceIsDuplicate`).
- **Two empty-bin tests.** `analyze_data` tests for empty bins with the
  untrimmed `not sku`. `find_empty_bins`, the details highlight and the
  export test `not sku.strip()`. Both tests are modelled, and their
  difference is proved to be exactly the whitespace-only SKUs.
- **Nine-character rule.** The dashboard requires duplicate SKUs to be
  exactly nine characters long; the 0424 backup does not. This is the
  `LengthPolicy` parameter.
- **Dashboard header.** The dashboard's header loop keeps overwriting the
  index it found, so the last header matching `garment_sku` or
  `location_id` (in any case) wins.

## Model

| member | source | states |
|---|---|---|
| Location.Decode | backup/warehouse_grid_visualizer_v0_20250424.py:121-130 | a location decodes exactly when it has at least five characters and, for the guarded decoders, starts with R; the cell is the four characters after the rack letter, split two and two |
| Location.DecodeBinCode | warehouse_grid_visualizer_streamlit.py:222-231 | `R` + a two-character column + a two-character row + any suffix decodes to that column and row, for every decoder |
| Location.SplitAndJoinedAgree | old/warehouse_grid_visualizer_optimized.py:55-58 | slicing the column as `[1:3]` decodes every location exactly as slicing it `[1:2] + [2:3]` does |
| Location.UnguardedExtendsGuarded | old/warehouse_grid_visualizer.py:51-57 | the oldest decoder agrees with the guarded one wherever the guarded one decodes, and additionally decodes long locations that do not start with R |
| Location.EmptyBinKeyIsCell | warehouse_grid_visualizer_streamlit.py:605-615 | the empty-bin export key of a decodable location is its cell's column followed by its row, and two decodable locations share a key exactly when they share a cell |
| Location.RowsDistinct | backup/warehouse_grid_visualizer_v0_20250424.py:18 | the 90 row labels `01`..`90` are pairwise distinct |
| GridIndex.Insert | backup/warehouse_grid_visualizer_v0_20250424.py:121-130 | inserting a scan appends it to its decoded cell's list (creating the cell), leaves every other cell unchanged, and ignores an undecodable location; the index stays well-formed |
| GridIndex.BuildIndexContents | backup/warehouse_grid_visualizer_v0_20250424.py:107-132 | after indexing a list, a cell is present exactly when some scan decodes to it, and its list is exactly those scans in input order |
| GridIndex.ListedScanSource | backup/warehouse_grid_visualizer_v0_20250424.py:121-130 | every position of a cell's list holds an input scan that decodes to that cell |
| GridIndex.ScanListedAt | backup/warehouse_grid_visualizer_v0_20250424.py:121-130 | every input scan that decodes to a cell holds some position of that cell's list |
| GridIndex.CellEntriesMembers | backup/warehouse_grid_visualizer_v0_20250424.py:121-130 | a scan is in a cell's list exactly when it is in the input and decodes to that cell |
| GridIndex.IndexedCells | warehouse_grid_visualizer_streamlit.py:209-231 | every decodable scan is found in its cell's list, and every indexed cell comes from some scan |
| GridIndex.SplitAndJoinedBuildSameIndex | old/warehouse_grid_visualizer_optimized.py:48-62 | the optimized program's index equals the backups' index for every list of scans |
| GridIndex.OccupiedCountIsWhitelistedCells | backup/warehouse_grid_visualizer_v0_20250424.py:64-66 | the status-bar count equals the number of occupied cells whose column and row labels are both drawn; occupied cells off the drawn grid are not counted |
| GridIndex.RowHitsCount | warehouse_grid_visualizer_streamlit.py:153-156 | for one column, the count is the number of distinct drawn rows whose cell is occupied |
| Loading.LastHeaderIndex | warehouse_grid_visualizer_streamlit.py:195-202 | the chosen index holds a header matching the name in any case and no later header matches; none is chosen only when no header matches |
| Loading.AcceptDashboardRowsInOrder | warehouse_grid_visualizer_streamlit.py:209-219 | the kept rows of two consecutive chunks are the kept rows of each, in order |
| Loading.AcceptDashboardRow | warehouse_grid_visualizer_streamlit.py:211-219 | a row no longer than the larger column index is skipped; any other row contributes its SKU and location cells |
| Loading.LoadDashboard | warehouse_grid_visualizer_streamlit.py:179-231 | a file with no rows fails; a file fails exactly when the header lacks `garment_sku` or `location_id`; otherwise the flat list is the kept rows at the last matching indices and the grid is the index built from it |
| Loading.LoadPositionalInOrder | backup/warehouse_grid_visualizer_v0_20250424.py:107-115 | loading two consecutive chunks is loading the first and, unless it failed, the second; a failure keeps every record appended before it |
| Loading.LoadPositionalRow | backup/warehouse_grid_visualizer_v0_20250424.py:109-115 | a row of three fields becomes one record; a shorter row is skipped (0424) or fatal (other variants); a longer row is fatal |
| Loading.LoadPositionalSucceeds | backup/warehouse_grid_visualizer_v0_20250422.py:70-73 | the load succeeds exactly when every row has three fields, or is short and skipped under the 0424 rule |
| Loading.LoadPositionalRecords | backup/warehouse_grid_visualizer_v0_20250422.py:70-73 | after a successful load every record is the three fields of some row of exactly three fields |
| Loading.LoadScanFile | backup/warehouse_grid_visualizer_v0_20250424.py:103-107 | a file without a header row fails; otherwise the header is skipped and the data rows are loaded |
| Analysis.CountSkuAppend | backup/warehouse_grid_visualizer_v0_20250424.py:79-83 | counting a SKU over two consecutive lists adds the counts |
| Analysis.CountDecodablePositive | backup/warehouse_grid_visualizer_v0_20250424.py:79-83 | a SKU has a positive count of decodable scans exactly when some decodable scan carries it |
| Analysis.GridEntriesCount | backup/warehouse_grid_visualizer_v0_20250424.py:79-83 | walking every cell's list of the index meets each SKU exactly as often as the input has decodable scans of it |
| Analysis.SkuCounts | backup/warehouse_grid_visualizer_v0_20250424.py:74-83 | the per-SKU tally holds exactly the SKUs that occur, each with its number of occurrences |
| Analysis.AnalyzeData | backup/warehouse_grid_visualizer_v0_20250424.py:72-93 | a SKU is a duplicate exactly when it occurs more than once in the index and is eligible; a cell is an empty-bin cell exactly when it holds a scan whose SKU is EMPTY in any case or the empty string |
| Analysis.AnalyzeLoadedData | warehouse_grid_visualizer_streamlit.py:236-256 | on an index built from a scan list, the duplicates are the eligible SKUs with more than one decodable scan, and the empty-bin cells are the cells of decodable scans with an EMPTY or empty SKU |
| Analysis.SkuCellsMembers | backup/warehouse_grid_visualizer_v0_20250424.py:702-715 | the cells collected for a SKU are exactly the cells of its decodable scans |
| Analysis.CandidateCells | backup/warehouse_grid_visualizer_v0_20250424.py:697-718 | the per-SKU cell lists hold exactly the eligible SKUs with a decodable scan, each with the cells of its scans |
| Analysis.FindDuplicateCells | warehouse_grid_visualizer_streamlit.py:498-526 | a cell is reported exactly when an eligible SKU with more than one decodable scan has a scan there |
| Analysis.FindEmptyBins | backup/warehouse_grid_visualizer_v0_20250424.py:753-776 | a cell is reported exactly when a decodable scan there has a SKU that is EMPTY in any case or blank after trimming |
| Analysis.DuplicateCellsHoldDuplicateSkus | warehouse_grid_visualizer_streamlit.py:485-526 | the cells `find_duplicate_skus` reports are exactly the indexed cells holding a SKU that `analyze_data` calls a duplicate |
| Analysis.EmptyRulesCompared | backup/warehouse_grid_visualizer_v0_20250424.py:86 | every cell `analyze_data` marks empty is also found by `find_empty_bins`, and the extra cells are exactly those of decodable scans whose SKU is non-empty but all whitespace |
| Analysis.WhitespaceSkuSplitsTheEmptyRules | backup/warehouse_grid_visualizer_v0_20250424.py:763 | a lone scan at a decodable location whose SKU is non-empty but all whitespace makes its cell an empty bin for `find_empty_bins` and no cell empty for `analyze_data` |
| Analysis.NineCharacterPolicyNarrows | warehouse_grid_visualizer_streamlit.py:255 | the dashboard's duplicates are exactly the 0424 backup's duplicates that are nine characters long, and its duplicate cells are a subset |
| Analysis.SameCellTwiceIsDuplicate | warehouse_grid_visualizer_streamlit.py:242-256 | an eligible SKU scanned at two locations of the same cell occupies that one cell only and is still a duplicate |
| Session.ReloadAsWritten | backup/warehouse_grid_visualizer_v0_20250424.py:51-70 | the flat list is exactly the records the load appended before it stopped, the grid is the index of that list when the load succeeds, and the grid is the previous grid when it fails |
| Session.ReloadAsWrittenDesynchronises | backup/warehouse_grid_visualizer_v0_20250422.py:44-73 | a file whose third data row is short leaves two new records in the flat list while the grid still shows the previous file |
| Session.PartialReloadDesynchronises | backup/warehouse_grid_visualizer_v0_20250424.py:51-70 | whenever a reload fails after appending a decodable record whose cell the old grid lacks, the grid is left as it was and no longer matches the flat list |
| Session.ReloadAtomic | backup/warehouse_grid_visualizer_v0_20250424.py:51-70 | the corrected reload keeps the grid the index of the flat list, leaves the session unchanged on failure, and holds exactly the loaded records on success |
| Session.ReloadsAgreeOnSuccess | backup/warehouse_grid_visualizer_v0_20250424.py:51-59 | the two reloads agree whenever the file loads |
| Search.MatchCells | backup/warehouse_grid_visualizer_v0_20250424.py:549-568 | a cell is matched exactly when a decodable scan there matches a non-empty query on its SKU or its location |
| Search.EmptyQueriesMatchNothing | backup/warehouse_grid_visualizer_v0_20250424.py:564-565 | with both queries empty no cell matches |
| Search.MatchedCellsAreOccupied | warehouse_grid_visualizer_streamlit.py:456-478 | every matched cell is an occupied cell of the index |
| Search.MatchingIsMonotone | warehouse_grid_visualizer_streamlit.py:471-475 | adding a second query never removes a match |
| Search.SearchDashboard | warehouse_grid_visualizer_streamlit.py:445-478 | with both raw queries empty the highlights are unchanged; otherwise a cell is highlighted exactly when a decodable scan there contains the upper-cased SKU query in its upper-cased SKU or the upper-cased location query in its upper-cased location |
| Search.Queries | backup/warehouse_grid_visualizer_v0_20250424.py:539-540 | a trimmed, upper-cased query is empty exactly when its field is blank |
| Search.SearchBackup | backup/warehouse_grid_visualizer_v0_20250424.py:534-572 | blank fields give no highlights; otherwise a cell is highlighted exactly when a decodable scan there matches the trimmed, upper-cased queries case-insensitively |
| Search.SearchOptimizedFixed | old/warehouse_grid_visualizer_optimized.py:290-315 | the optimized search, reading the fields before anything clears them, highlights the cells of decodable scans that match |
| Search.OptimizedAgreesWithBackup | old/warehouse_grid_visualizer_optimized.py:300-312 | the optimized search highlights exactly what the backups' search highlights |
| Search.SearchOldestRaw | old/warehouse_grid_visualizer.py:225-246 | the oldest matching loop, with the fields read before anything clears them, highlights the cells of length-decodable scans whose stored SKU or location contains the upper-cased query |
| Search.SearchOldestFolded | old/warehouse_grid_visualizer.py:225-246 | the corrected oldest search upper-cases the data too, and highlights the cells of length-decodable scans that match |
| Search.LowerCaseSkuMissedByRawSearch | old/warehouse_grid_visualizer.py:245 | a lower-case SKU searched for in lower case is not found by the oldest matching loop, while the corrected loop finds its cell |
| Search.RawSearchAgreesOnUpperCaseData | old/warehouse_grid_visualizer.py:245 | on data already in upper case the two oldest searches agree |
| Search.OldestFoldedExtendsBackup | old/warehouse_grid_visualizer.py:237-242 | every cell the backups' search highlights is highlighted by the corrected oldest search |
| Search.ClearFields | old/warehouse_grid_visualizer.py:257-261 | clearing leaves both search fields blank |
| Search.SearchClearingFirst | old/warehouse_grid_visualizer_optimized.py:285-295 | a search that clears the fields before reading them highlights nothing |
| Search.ClearingFirstLosesTheQuery | old/warehouse_grid_visualizer_optimized.py:330-335 | searching for a scanned SKU finds nothing as written, while the corrected search finds its cell |
| Details.CellListing | backup/warehouse_grid_visualizer_v0_20250424.py:391-393 | a cell lists scans exactly when the index holds it |
| Details.BuiltListing | warehouse_grid_visualizer_streamlit.py:403-410 | a cell's listing is the scans decoding to it, in input order |
| Details.FirstScan | backup/warehouse_grid_visualizer_v0_20250422.py:329-333 | the position found is the first record of that exact scan, or the end when there is none |
| Details.FirstTimestamp | backup/warehouse_grid_visualizer_v0_20250424.py:394-399 | the timestamp is that of the first record with the same SKU and bin location, and empty when no record matches |
| Details.DesktopDetail | backup/warehouse_grid_visualizer_v0_20250424.py:382-412 | one row per listed scan, in order, with its SKU, bin, looked-up timestamp and highlight |
| Details.DetailTimestampsComeFromRecords | backup/warehouse_grid_visualizer_v0_20250424.py:393-399 | when the index is built from the flat list, every row's timestamp comes from a record of that exact scan |
| Details.SearchHighlightsAgree | backup/warehouse_grid_visualizer_v0_20250424.py:386-412 | with no filter, a cell's details highlight some row exactly when the grid search highlights the cell |
| Details.ListingHighlightsAgree | backup/warehouse_grid_visualizer_v0_20250424.py:408-412 | the same agreement, stated on the listing |
| Details.HighlightedRowIsSearched | backup/warehouse_grid_visualizer_v0_20250424.py:408-412 | a highlighted row lies in a searched cell |
| Details.SearchedCellHasHighlightedRow | backup/warehouse_grid_visualizer_v0_20250424.py:551-568 | a searched cell shows a highlighted row |
| Details.DashboardSearch | warehouse_grid_visualizer_streamlit.py:445-478 | with both raw queries empty the view is unchanged; otherwise the highlights become the search result and the filter is reset, so no details row is highlighted by a filter |
| Details.DuplicateHighlightsAgree | backup/warehouse_grid_visualizer_v0_20250424.py:404-405 | under the duplicates filter, a cell's details give some row the filter's highlight exactly when `find_duplicate_skus` reports the cell; the desktop keeps that filter between button presses, while the dashboard's same rule (warehouse_grid_visualizer_streamlit.py:416-421) is never reached, as the next section says |
| Export.ValuesOf | warehouse_grid_visualizer_streamlit.py:569-578 | a key has values exactly when some pair carries it |
| Export.ValuesOfAppend | warehouse_grid_visualizer_streamlit.py:572-578 | the values of two consecutive lists of pairs are the values of each, in order |
| Export.Group | warehouse_grid_visualizer_streamlit.py:599-618 | the groups have distinct keys, exactly the keys of the pairs, each with its values in order |
| Export.KeptRows | warehouse_grid_visualizer_streamlit.py:583-589 | the kept rows are exactly the formatted groups with enough values, without repeats |
| Export.PermutedRowsKeepKeysDistinct | warehouse_grid_visualizer_streamlit.py:591-592 | sorting rows with distinct keys keeps the keys distinct |
| Export.ExportRows | warehouse_grid_visualizer_streamlit.py:580-594 | the rows are sorted by key, keys are distinct, each row joins its key's sorted values, and a key has a row exactly when it has at least the threshold of values |
| Export.ExportRowCount | warehouse_grid_visualizer_streamlit.py:591-594 | the export has one row per distinct key |
| Export.DuplicatePairs | warehouse_grid_visualizer_streamlit.py:572-578 | an eligible SKU collects the locations of its decodable scans, any other SKU collects nothing |
| Export.LocationsOf | warehouse_grid_visualizer_streamlit.py:577-578 | a SKU collects one location per decodable scan |
| Export.DuplicateExport | warehouse_grid_visualizer_streamlit.py:566-594 | the rows are sorted by SKU, one per SKU, exactly for the SKUs `analyze_data` calls duplicates, each listing that SKU's locations sorted and joined |
| Export.DuplicateExportRowCount | warehouse_grid_visualizer_streamlit.py:566-594 | the export has one row per duplicate SKU |
| Export.EmptyLocationsIn | warehouse_grid_visualizer_streamlit.py:602-615 | a cell collects locations exactly when an empty-bin scan decodes to it |
| Export.EmptyPairs | warehouse_grid_visualizer_streamlit.py:602-618 | each cell's key collects exactly its empty-bin locations, and every key names an empty-bin cell |
| Export.EmptyExportRowCount | warehouse_grid_visualizer_streamlit.py:596-633 | the empty-bin export has one row per cell `find_empty_bins` reports |
| Export.CellKeysCount | warehouse_grid_visualizer_streamlit.py:605-615 | distinct cells with two-character columns and rows get distinct export keys |
| Export.EmptyExport | warehouse_grid_visualizer_streamlit.py:596-633 | the rows are sorted by key, one per key, exactly for the cells `find_empty_bins` reports, each listing its empty-bin locations sorted and joined |
| Text.Upper | backup/warehouse_grid_visualizer_v0_20250424.py:539 | upper-casing keeps the length and maps each character independently |
| Text.Strip | backup/warehouse_grid_visualizer_v0_20250424.py:539 | the stripped string is the input with leading and trailing whitespace removed, and is empty exactly when the input is blank |
| Text.Contains | backup/warehouse_grid_visualizer_v0_20250424.py:564-565 | the substring test holds exactly when the needle occurs as a contiguous slice |
| Sorting.SortStrings | warehouse_grid_visualizer_streamlit.py:586 | the sorted list is a permutation of the input in non-decreasing order |
| Sorting.SortBy | warehouse_grid_visualizer_streamlit.py:592 | sorting by a key gives a permutation in non-decreasing key order |
| Combine.IndexOf | combine_csv.py:23-25 | the position found holds the name and no earlier position does |
| Combine.HeaderColumns | combine_csv.py:22-25 | an accepted header yields the positions of its three names, and the largest is at least 2 |
| Combine.RowsAsWritten | combine_csv.py:28-33 | as written, reading fails exactly when a row of at least three fields does not reach a header position, and otherwise reads the same records as the corrected guard |
| Combine.ReadableRows | combine_csv.py:28-33 | the records read are exactly those of the rows that have three fields and reach every header position |
| Combine.FileRecords | combine_csv.py:17-37 | a file with no header or a header lacking a name contributes nothing; otherwise its readable rows |
| Combine.FileRecordsAsWritten | combine_csv.py:17-37 | as written, a file fails exactly when it has a short row, and otherwise contributes what the corrected reader contributes |
| Combine.AllRecords | combine_csv.py:15-37 | the records of all files are each file's records in turn |
| Combine.AllRecordsAsWritten | combine_csv.py:15-37 | as written, the merge fails exactly when some file has a short row |
| Combine.FirstWithKey | combine_csv.py:35-37 | the position found is the first record with that SKU and location |
| Combine.Dedup | combine_csv.py:34-37 | the dictionary holds, for each (SKU, location) seen, its first record, in first-seen order, with no key twice |
| Combine.WriteMerged | combine_csv.py:43-48 | the written file is the header, then one three-field row per distinct (SKU, location), carrying the first timestamp, the rows in the order their (SKU, location) is first seen |
| Combine.CombineFiles | combine_csv.py:5-48 | every record read from any file has a row, every row carries its first timestamp, no (SKU, location) repeats, and the rows follow the order in which each (SKU, location) is first read |
| Combine.CombineAsWritten | combine_csv.py:5-48 | as written, the merge fails exactly when a file has a short row, and otherwise writes what the corrected merge writes |
| Combine.WiderHeaderStopsTheMerge | combine_csv.py:29-33 | a header with a column between SKU and Location and a three-field row stop the merge as written, while the corrected merge skips the row |
| Combine.PairList | old/check_combined.py:12-17 | pairs come from the second and third fields of rows of at least three fields, and there is one per row exactly when every row has three fields |
| Combine.AnalyzeCombined | old/check_combined.py:3-23 | an empty file fails; the row count excludes the header; the pairs are those of the long rows; all-unique holds exactly when every row is long and no pair repeats |
| Combine.CombinedFileIsAllUnique | old/check_combined.py:23 | `check_combined.py` reports all-unique on every file the corrected merge writes |
| Combine.DistinctRowsAreAllUnique | old/check_combined.py:12-23 | a file whose rows after the header have three fields and distinct pairs passes `check_combined.py` |

## Left out

- Drawing, colours, zoom, scrolling, window layout, clipboard copying, the
  status messages and `print` calls are left out. They are presentation only.
  So is the placeholder row `("No items found", "", "")` the desktop details
  view shows for a cell the index does not hold
  (backup/warehouse_grid_visualizer_v0_20250424.py:414-415,
  backup/warehouse_grid_visualizer_v0_20250422.py:337):
  `Details.DesktopDetail` gives no rows there.
- The dashboard reruns its script on every interaction, and while a file
  stays uploaded each rerun reloads it
  (warehouse_grid_visualizer_streamlit.py:58-61), which resets the
  highlighted cells and the current filter (lines 181-184). Search
  highlights therefore last one rerun, and the details panel, shown on the
  rerun of its own button, always sees no filter: its filter highlight
  (lines 416-421) is never reached. `Details.DashboardView` is the view a
  single rerun acts on; session persistence across reruns is not modelled.
- File dialogs, uploads, reading and writing files, `glob`, and CSV quoting
  are left out. A CSV file is modelled as the list of rows the reader
  yields. The list of files is the order `glob` returns, taken as given.
- The dashboard's reversed row order is left out. It only changes how rows
  are drawn.
- The desktop search counts matches through the drawn cell objects. That
  count only feeds a status message and is left out; the highlighted set
  is modelled.
- The cell-details CSV download on the dashboard is left out. It writes
  the listing that `Details.BuiltListing` describes.
- Text.Upper, Text.Lower, Text.Strip: only the ASCII letters and Python's
  ASCII whitespace are modelled. Non-ASCII case mappings and Unicode
  whitespace are not.
- Text.Join: the contract states only the empty and one-element cases. The
  general form is the definition, which is used as such by the exports.
- Loading.AcceptDashboardRows: its contract states only the length bound.
  The per-row content is stated by `Loading.AcceptDashboardRow` and
  `Loading.AcceptDashboardRowsInOrder`.
- Loading.LoadPositional: its contract gives the failure kind and a length
  bound. What it accepts and produces is stated by
  `Loading.LoadPositionalSucceeds`, `Loading.LoadPositionalRecords`,
  `Loading.LoadPositionalRow` and `Loading.LoadPositionalInOrder`.
- The nested `defaultdict` index is flattened to one map keyed by (column,
  row), with the order in which cells were first created. That is not the
  order the nested loops of `analyze_data` visit cells: they walk column by
  column, each column's rows in creation order, so scans at (1A,01),
  (1B,01), (1A,02) are visited (1A,01), (1A,02), (1B,01), while the model
  walks them in creation order. Only per-SKU counts and sets of cells are
  derived from the walk, and neither depends on the order.
- `Combine.AnalyzeCombined`'s report is computed but not printed.

## Findings

| source | as written | input that shows it | evidently intended | confidence | as-written member | corrected member |
|---|---|---|---|---|---|---|
| old/warehouse_grid_visualizer_optimized.py:285-295,330-335 (also old/warehouse_grid_visualizer.py:220-230,257-261) | `search_grid` calls `clear_search()` first, and that blanks both search fields; the queries are then read from the blanked fields, so the search returns before matching anything | SKU field `SKU000001` with one scan `("SKU000001", "R1S32-N-AT1")` | read the queries, then clear only the highlights (as the backups do with `keep_fields=True`) | not executed | Search.SearchClearingFirst (counterexample Search.ClearingFirstLosesTheQuery) | Search.SearchOptimizedFixed, Search.SearchOldestFolded |
| old/warehouse_grid_visualizer.py:225-226,245 | the queries are upper-cased but the SKU and location are compared as stored, so lower-case data is never found; as written this is masked by the previous row, because `clear_search()` at line 223 blanks both fields (lines 260-261) and the search returns at lines 228-229 before the comparison; it shows once that is fixed | SKU field `abc`, scan `("abc123456", "R1S32-N-AT1")` | compare case-insensitively, upper-casing the data as the later variants do | not executed | Search.SearchOldestRaw (counterexample Search.LowerCaseSkuMissedByRawSearch) | Search.SearchOldestFolded |
| combine_csv.py:22-33 | rows are guarded by `len(row) >= 3` but read at the header's positions, which can exceed 2; such a row raises `IndexError` and the whole merge stops without writing | header `Timestamp,SKU,Note,Location`, row `t1,SKU000001,n` | skip rows too short to reach every header position | not executed | Combine.CombineAsWritten (counterexample Combine.WiderHeaderStopsTheMerge) | Combine.CombineFiles |
| backup/warehouse_grid_visualizer_v0_20250424.py:51-70,107-115 (also backup/warehouse_grid_visualizer_v0_20250422.py:44-73) | `csv_data` is reset and filled while rows are read, but `grid_data` is assigned only when the whole file loads; a failing row leaves search on a partial new file and the grid on the old one | a file whose third data row is `t3` alone, loaded by the 0422 variant | replace both views together, or neither | not executed | Session.ReloadAsWritten (counterexample Session.ReloadAsWrittenDesynchronises) | Session.ReloadAtomic |

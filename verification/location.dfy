/** The bin-code decoder: a scanned location such as `R1S32-N-AT1` names the
    grid cell (column "1S", row "32"). Three decoders exist side by side in
    the visualizer variants; they differ in how the column is sliced and in
    whether the leading `R` is checked. */
module Location {
  import opened Wrappers
  import opened Seqs

  /** A grid coordinate `(column, row)`, e.g. `("1S", "32")`. */
  type Cell = (string, string)

  datatype Decoder =
    | SplitSlices  // column = location[1:2] + location[2:3]; needs len >= 5 and a leading 'R'
    | JoinedSlice  // column = location[1:3]; same guard
    | Unguarded    // column = location[1:3]; needs only len >= 5

  /** The location begins with the letter R. */
  predicate StartsWithR(loc: string) {
    |loc| > 0 && loc[0] == 'R'
  }

  /** The cell a location is indexed under, or `None` when the decoder's
      guard rejects it. A decoded cell is always the four characters that
      follow the rack letter, split two and two. */
  function Decode(d: Decoder, loc: string): (r: Option<Cell>)
    ensures r.Some? <==> |loc| >= 5 && (d != Unguarded ==> loc[0] == 'R')
    ensures r.Some? ==> |r.value.0| == 2 && |r.value.1| == 2 && r.value.0 + r.value.1 == loc[1..5]
  {
    match d
    case SplitSlices =>
      if |loc| >= 5 && StartsWithR(loc) then Some((loc[1..2] + loc[2..3], loc[3..5])) else None
    case JoinedSlice =>
      if |loc| >= 5 && StartsWithR(loc) then Some((loc[1..3], loc[3..5])) else None
    case Unguarded =>
      if |loc| >= 5 then Some((loc[1..3], loc[3..5])) else None
  }

  /** A bin code built as `R` + column + row + any suffix decodes back to
      that column and row, under every decoder. */
  lemma {:induction false} DecodeBinCode(d: Decoder, column: string, row: string, suffix: string)
    requires |column| == 2 && |row| == 2
    ensures Decode(d, "R" + column + row + suffix) == Some((column, row))
  {
    var loc := "R" + column + row + suffix;
    assert loc[1..3] == column && loc[3..5] == row;
    assert loc[1..2] + loc[2..3] == column;
  }

  /** The split-slice and joined-slice decoders agree on every location:
      the two one-character slices joined are the two-character slice. */
  lemma {:induction false} SplitAndJoinedAgree(loc: string)
    ensures Decode(SplitSlices, loc) == Decode(JoinedSlice, loc)
  {
    if |loc| >= 5 {
      assert loc[1..2] + loc[2..3] == loc[1..3];
    }
  }

  /** The unguarded decoder indexes every location the guarded ones do, at
      the same cell, and in addition every location of length at least 5
      that does not start with `R`. */
  lemma {:induction false} UnguardedExtendsGuarded(loc: string)
    ensures Decode(SplitSlices, loc).Some? ==> Decode(Unguarded, loc) == Decode(SplitSlices, loc)
    ensures |loc| >= 5 && !StartsWithR(loc) ==>
              Decode(SplitSlices, loc).None? && Decode(Unguarded, loc).Some?
  {
    SplitAndJoinedAgree(loc);
  }

  /** The sample bin code `R1S32-N-AT1` sits in cell (`1S`, `32`) under
      every decoder. */
  lemma SampleBinCode(d: Decoder)
    ensures Decode(d, "R1S32-N-AT1") == Some(("1S", "32"))
  {
    DecodeBinCode(d, "1S", "32", "-N-AT1");
    assert "R1S32-N-AT1" == "R" + "1S" + "32" + "-N-AT1";
  }

  /** The grid-location key of the empty-bin export,
      `f"{level}{column_letter}{row_num}"`. */
  function EmptyBinKey(loc: string): (k: string)
    requires |loc| >= 5
    ensures |k| == 4
  {
    loc[1..2] + loc[2..3] + loc[3..5]
  }

  /** The export key of a decodable location is its cell's column followed
      by its row, and it determines the cell. */
  lemma {:induction false} EmptyBinKeyIsCell(loc: string, other: string)
    requires Decode(SplitSlices, loc).Some? && Decode(SplitSlices, other).Some?
    ensures EmptyBinKey(loc) == Decode(SplitSlices, loc).value.0 + Decode(SplitSlices, loc).value.1
    ensures EmptyBinKey(loc) == EmptyBinKey(other) <==> Decode(SplitSlices, loc) == Decode(SplitSlices, other)
  {
    var c, c' := Decode(SplitSlices, loc).value, Decode(SplitSlices, other).value;
    if EmptyBinKey(loc) == EmptyBinKey(other) {
      assert c.0 == EmptyBinKey(loc)[..2] == c'.0;
      assert c.1 == EmptyBinKey(loc)[2..] == c'.1;
    }
  }

  /** The columns drawn by the desktop variants. */
  const DesktopColumns: seq<string> :=
    ["1A", "1B", "1C", "1D", "1E", "1F", "1G", "1H", "1I", "1J", "1K", "1L", "1M",
     "1N", "1O", "1P", "1Q", "1R", "1S", "1T", "1U", "1V", "1W", "1X", "1Y", "1Z",
     "2A", "2B", "2C", "2D", "2E", "2F", "2G", "2H", "2I", "2J", "2K", "2L", "2M",
     "2N", "2O", "2P", "2Q", "2R", "2S", "3A", "3B", "3C", "3D", "3E", "3F", "3G",
     "3H", "3I", "3J", "3K", "3L", "3M", "3N", "3P", "3Q", "3R"]

  /** The columns drawn by the web dashboard: the desktop set plus 3S-3Z. */
  const DashboardColumns: seq<string> :=
    DesktopColumns + ["3S", "3T", "3U", "3V", "3W", "3X", "3Y", "3Z"]

  /** The two-digit, zero-padded label of row n, for 1 <= n <= 99. */
  function RowLabel(n: nat): (s: string)
    requires 1 <= n <= 99
    ensures |s| == 2 && '0' <= s[0] <= '9' && '0' <= s[1] <= '9'
  {
    [(48 + n / 10) as char, (48 + n % 10) as char]
  }

  /** The row labels "01" to "90". */
  const Rows: seq<string> := seq(90, i requires 0 <= i < 90 => RowLabel(i + 1))

  /** Row labels are pairwise distinct: the label spells its number. */
  lemma RowsDistinct()
    ensures |Rows| == 90 && Distinct(Rows)
  {
    forall i, j | 0 <= i < j < 90 ensures Rows[i] != Rows[j] {
      var a, b := i + 1, j + 1;
      assert a == (Rows[i][0] as int - 48) * 10 + (Rows[i][1] as int - 48);
      assert b == (Rows[j][0] as int - 48) * 10 + (Rows[j][1] as int - 48);
    }
  }
}

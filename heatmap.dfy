/**
 * standalone/HeatMap_standalone.py: the output path, the interquartile-range
 * filter, the IGNORE_VALUES removal, the colour range, the well-position split
 * and the cells of the grouped pivot.
 */
module HeatMap {
  import opened Wrappers
  import opened Frames
  import opened OutputFile

  // ---------------------------------------------------------------------------
  // Output path

  /** `mySVGOut`: the input file's name in csv mode, the alternative title otherwise. */
  function SvgOut(cwd: string, formatBasedFilename: bool, filename: FileArg, altTitle: FileArg): (o: Outcome)
    ensures formatBasedFilename ==> (o.Exit? <==> filename.NoSplit?)
    ensures !formatBasedFilename ==> (o.Exit? <==> altTitle.NoSplit?)
    ensures o.Exit? ==> o.status == 1
    ensures !o.Exit? ==> o.Path? && cwd + "/" <= o.path
  {
    if formatBasedFilename then MyOutputFile(HeatMapCopy, cwd, filename, "Heatmap", "svg", true)
    else MyOutputFile(HeatMapCopy, cwd, altTitle, "Heatmap", "svg", false)
  }

  lemma HeatmapSuffix()
    ensures Allowed("svg") && '\\' !in "Heatmap"
    ensures ImageSuffix("Heatmap", "svg") == "_ImageHeatmap.svg"
    ensures HeatMapCopy.titleInfix + "Heatmap" + "." + "svg" == "_ImageHeatmap.svg"
  {
  }

  /** With the script's settings (FORMAT_BASED_FILENAME off) the figure is named after ALT_TITLE. */
  lemma AltTitleOutput(cwd: string)
    ensures SvgOut(cwd, false, Text("../datasets/combined_qPCR_kn.csv"), Text("MHVY_combined_reps"))
         == Path(cwd + "/" + "MHVY_combined_reps" + "_ImageHeatmap.svg")
  {
    HeatmapSuffix();
    TitleModeSuffix(HeatMapCopy, cwd, "MHVY_combined_reps", "Heatmap", "svg", "_ImageHeatmap.svg");
  }

  lemma DataCsvName()
    ensures IsLastComponent("x/data.csv", "data.csv") && '\n' !in "data.csv"
    ensures |"data.csv"| >= 4 && "data.csv"[|"data.csv"| - 3..] == "csv" && "data.csv"[..|"data.csv"| - 4] == "data"
  {
    var s, name := "x/data.csv", "data.csv";
    assert s[2..] == name && s[1] == '/';
    assert name[5..] == "csv";
  }

  /** In csv mode `x/data.csv` becomes `data_ImageHeatmap.svg` directly under the working directory. */
  lemma CsvNameOutput(cwd: string)
    ensures SvgOut(cwd, true, Text("x/data.csv"), Text("MHVY_combined_reps"))
         == Path(cwd + "/" + "data" + "_ImageHeatmap.svg")
  {
    HeatmapSuffix();
    DataCsvName();
    CsvSuffixRewritten(HeatMapCopy, cwd, "x/data.csv", "Heatmap", "svg", "data.csv");
  }

  lemma ResultsCsvName()
    ensures IsLastComponent("x/results_csv", "results_csv") && '\n' !in "results_csv"
    ensures |"results_csv"| >= 4 && "results_csv"[|"results_csv"| - 3..] == "csv"
    ensures "results_csv"[..|"results_csv"| - 4] == "results"
  {
    var s, name := "x/results_csv", "results_csv";
    assert s[2..] == name && s[1] == '/';
    assert name[8..] == "csv";
  }

  /** The unescaped dot: a name ending in `_csv` is rewritten as if it ended in `.csv`. */
  lemma UnescapedDotRewrites(cwd: string)
    ensures SvgOut(cwd, true, Text("x/results_csv"), Text("MHVY_combined_reps"))
         == Path(cwd + "/" + "results" + "_ImageHeatmap.svg")
  {
    HeatmapSuffix();
    ResultsCsvName();
    CsvSuffixRewritten(HeatMapCopy, cwd, "x/results_csv", "Heatmap", "svg", "results_csv");
  }

  // ---------------------------------------------------------------------------
  // STAT_FILTER: the interquartile-range bounds

  /** `(Q1 - 1.5 * IQR, Q3 + 1.5 * IQR)` with `IQR = Q3 - Q1`. */
  function TukeyBounds(q1: real, q3: real): (b: (real, real))
    ensures b.1 - b.0 == 4.0 * (q3 - q1)
    ensures b.0 + b.1 == q1 + q3
    ensures q1 <= q3 ==> b.0 <= q1 && q3 <= b.1
  {
    var iqr := q3 - q1;
    (q1 - 1.5 * iqr, q3 + 1.5 * iqr)
  }

  /** `heatmap_df[(heatmap_df[HEAT_VAL] >= low_bound) & (heatmap_df[HEAT_VAL] <= high_bound)]`. */
  function StatFilter<R(==)>(rows: seq<R>, heat: R -> real, q1: real, q3: real): (kept: seq<R>)
    ensures forall i :: 0 <= i < |kept| ==>
              kept[i] in rows && q1 - 1.5 * (q3 - q1) <= heat(kept[i]) <= q3 + 1.5 * (q3 - q1)
    ensures forall i :: 0 <= i < |rows| && q1 - 1.5 * (q3 - q1) <= heat(rows[i]) <= q3 + 1.5 * (q3 - q1) ==>
              rows[i] in kept
  {
    InRange(rows, heat, TukeyBounds(q1, q3))
  }

  /** The filter keeps exactly the rows with `Q1 - 1.5 * IQR <= v <= Q3 + 1.5 * IQR`, with all their copies, in order. */
  lemma StatFilterExact<R>(rows: seq<R>, heat: R -> real, q1: real, q3: real, r: R)
    ensures r in StatFilter(rows, heat, q1, q3)
        <==> r in rows && q1 - 1.5 * (q3 - q1) <= heat(r) <= q3 + 1.5 * (q3 - q1)
    ensures multiset(StatFilter(rows, heat, q1, q3))[r]
         == if Within(heat(r), TukeyBounds(q1, q3)) then multiset(rows)[r] else 0
    ensures IsSubsequence(StatFilter(rows, heat, q1, q3), rows)
  {
    InRangeExact(rows, heat, TukeyBounds(q1, q3), r);
  }

  /** Every row between the quartiles survives, and so does a row exactly on either bound. */
  lemma StatFilterKeepsInner<R>(rows: seq<R>, heat: R -> real, q1: real, q3: real, r: R)
    requires q1 <= q3 && r in rows
    requires q1 <= heat(r) <= q3 || heat(r) == TukeyBounds(q1, q3).0 || heat(r) == TukeyBounds(q1, q3).1
    ensures r in StatFilter(rows, heat, q1, q3)
  {
    StatFilterExact(rows, heat, q1, q3, r);
  }

  /** Applying the filter again with the same bounds removes nothing more. */
  lemma StatFilterIdempotent<R>(rows: seq<R>, heat: R -> real, q1: real, q3: real)
    ensures StatFilter(StatFilter(rows, heat, q1, q3), heat, q1, q3) == StatFilter(rows, heat, q1, q3)
  {
    InRangeIdempotent(rows, heat, TukeyBounds(q1, q3));
  }

  // ---------------------------------------------------------------------------
  // The rows the heatmap is drawn from

  /** `filtered_df` after the STAT_FILTER block and the IGNORE_VALUES loop on `Y_VAL`. */
  function HeatMapRows<R(==), K(==)>(rows: seq<R>, statFilter: bool, heat: R -> real, q1: real, q3: real,
                                     yKey: R -> K, ignore: seq<K>): (f: seq<R>)
    ensures forall i :: 0 <= i < |f| ==>
              && f[i] in rows && yKey(f[i]) !in ignore
              && (statFilter ==> Within(heat(f[i]), TukeyBounds(q1, q3)))
    ensures forall i :: 0 <= i < |rows| ==>
              ((statFilter ==> Within(heat(rows[i]), TukeyBounds(q1, q3))) && yKey(rows[i]) !in ignore) ==> rows[i] in f
  {
    WithoutIgnored(if statFilter then StatFilter(rows, heat, q1, q3) else rows, yKey, ignore)
  }

  /** The script's lines 102-116, statement by statement; `q1` and `q3` are the column's quartiles. */
  method FilterRows<R(==), K(==)>(heatmapDf: seq<R>, statFilter: bool, heat: R -> real, q1: real, q3: real,
                                  yKey: R -> K, ignore: seq<K>) returns (filteredDf: seq<R>)
    ensures filteredDf == HeatMapRows(heatmapDf, statFilter, heat, q1, q3, yKey, ignore)
  {
    if statFilter {
      filteredDf := StatFilter(heatmapDf, heat, q1, q3);
    } else {
      filteredDf := heatmapDf;
    }
    filteredDf := DropIgnored(filteredDf, yKey, ignore);
  }

  /** What survives both steps: in bounds (when filtering), not ignored, every copy, original order. */
  lemma HeatMapRowsExact<R, K>(rows: seq<R>, statFilter: bool, heat: R -> real, q1: real, q3: real,
                               yKey: R -> K, ignore: seq<K>, r: R)
    ensures var f := HeatMapRows(rows, statFilter, heat, q1, q3, yKey, ignore);
            && (r in f <==> r in rows && (statFilter ==> Within(heat(r), TukeyBounds(q1, q3))) && yKey(r) !in ignore)
            && multiset(f)[r] == (if (statFilter ==> Within(heat(r), TukeyBounds(q1, q3))) && yKey(r) !in ignore
                                  then multiset(rows)[r] else 0)
            && IsSubsequence(f, rows)
  {
    var stat := if statFilter then StatFilter(rows, heat, q1, q3) else rows;
    if statFilter {
      StatFilterExact(rows, heat, q1, q3, r);
    } else {
      SubsequenceReflexive(rows);
    }
    WithoutIgnoredExact(stat, yKey, ignore, r);
    SubsequenceTransitive(WithoutIgnored(stat, yKey, ignore), stat, rows);
  }

  // ---------------------------------------------------------------------------
  // Colour range

  datatype ColorRange = ColorRange(vmin: real, vmax: Option<real>)

  /**
   * `vmax_val = filtered_df[HEAT_VAL].max()` (NaN, here `None`, for no rows) and
   * `vmin_val`, 0 unless THRESHOLDING is set, then THRESHOLD.
   */
  function HeatColorRange<R(==)>(filtered: seq<R>, heat: R -> real, thresholding: bool, threshold: real): (c: ColorRange)
    ensures c.vmin == if thresholding then threshold else 0.0
    ensures c.vmax.None? <==> |filtered| == 0
    ensures c.vmax.Some? ==> exists i :: 0 <= i < |filtered| && heat(filtered[i]) == c.vmax.value
    ensures c.vmax.Some? ==> forall i :: 0 <= i < |filtered| ==> heat(filtered[i]) <= c.vmax.value
  {
    ColorRange(if !thresholding then 0.0 else threshold, MaxOf(filtered, heat))
  }

  /** With STAT_FILTER on, the top of the colour bar lies inside the interquartile-range bounds. */
  lemma VMaxWithinBounds<R, K>(rows: seq<R>, heat: R -> real, q1: real, q3: real, yKey: R -> K,
                               ignore: seq<K>, thresholding: bool, threshold: real)
    requires |HeatMapRows(rows, true, heat, q1, q3, yKey, ignore)| > 0
    ensures var c := HeatColorRange(HeatMapRows(rows, true, heat, q1, q3, yKey, ignore), heat, thresholding, threshold);
            c.vmax.Some? && Within(c.vmax.value, TukeyBounds(q1, q3))
  {
    var f := HeatMapRows(rows, true, heat, q1, q3, yKey, ignore);
    var c := HeatColorRange(f, heat, thresholding, threshold);
    var i :| 0 <= i < |f| && heat(f[i]) == c.vmax.value;
    HeatMapRowsExact(rows, true, heat, q1, q3, yKey, ignore, f[i]);
  }

  // ---------------------------------------------------------------------------
  // WELL_POSITIONS: splitting a well label such as "B7"

  datatype CharClass = Letters | Digits

  /** `[A-Za-z]` and `\d` (ASCII digits). */
  predicate InClass(c: char, cls: CharClass) {
    match cls
    case Letters => 'A' <= c <= 'Z' || 'a' <= c <= 'z'
    case Digits => '0' <= c <= '9'
  }

  /** `s[start..end]` is the leftmost longest run of the class, as a greedy regex match finds it. */
  ghost predicate IsFirstRun(s: string, cls: CharClass, start: nat, end: nat) {
    && start < end <= |s|
    && (forall i :: 0 <= i < start ==> !InClass(s[i], cls))
    && (forall i :: start <= i < end ==> InClass(s[i], cls))
    && (end == |s| || !InClass(s[end], cls))
  }

  lemma FirstRunUnique(s: string, cls: CharClass, a: nat, b: nat, c: nat, d: nat)
    requires IsFirstRun(s, cls, a, b) && IsFirstRun(s, cls, c, d)
    ensures a == c && b == d
  {
    assert InClass(s[a], cls) && InClass(s[c], cls);
    assert b < |s| ==> !InClass(s[b], cls);
    assert d < |s| ==> !InClass(s[d], cls);
  }

  /** Where the first character of the class is (`|s|` if none). */
  function RunStart(s: string, cls: CharClass, from: nat): (k: nat)
    requires from <= |s|
    ensures from <= k <= |s|
    ensures forall i :: from <= i < k ==> !InClass(s[i], cls)
    ensures k < |s| ==> InClass(s[k], cls)
    decreases |s| - from
  {
    if from == |s| || InClass(s[from], cls) then from else RunStart(s, cls, from + 1)
  }

  /** Where the run that begins at `from` ends. */
  function RunEnd(s: string, cls: CharClass, from: nat): (e: nat)
    requires from <= |s|
    ensures from <= e <= |s|
    ensures forall i :: from <= i < e ==> InClass(s[i], cls)
    ensures e < |s| ==> !InClass(s[e], cls)
    decreases |s| - from
  {
    if from == |s| || !InClass(s[from], cls) then from else RunEnd(s, cls, from + 1)
  }

  /** `Series.str.extract("(<class>+)")` on one cell: the first run, or NaN (`None`). */
  function Extract(s: string, cls: CharClass): (run: Option<string>)
    ensures run.None? <==> forall i :: 0 <= i < |s| ==> !InClass(s[i], cls)
    ensures run.Some? ==> exists a: nat, b: nat :: IsFirstRun(s, cls, a, b) && run.value == s[a..b]
  {
    var k := RunStart(s, cls, 0);
    if k == |s| then None
    else
      var e := RunEnd(s, cls, k);
      assert IsFirstRun(s, cls, k, e);
      Some(s[k..e])
  }

  function DigitValue(c: char): nat
    requires InClass(c, Digits)
  {
    c as int - '0' as int
  }

  /** `int(d)` for a string of ASCII digits; leading zeros are allowed. */
  function DecimalValue(d: string): nat
    requires forall i :: 0 <= i < |d| ==> InClass(d[i], Digits)
    decreases |d|
  {
    if |d| == 0 then 0 else 10 * DecimalValue(d[..|d| - 1]) + DigitValue(d[|d| - 1])
  }

  /** `str(n)`: the decimal digits of `n`, without leading zeros. */
  function Decimal(n: nat): (d: string)
    ensures |d| >= 1
    ensures forall i :: 0 <= i < |d| ==> InClass(d[i], Digits)
  {
    if n < 10 then [('0' as int + n) as char]
    else Decimal(n / 10) + [('0' as int + n % 10) as char]
  }

  lemma {:induction false} DecimalRoundTrip(n: nat)
    ensures DecimalValue(Decimal(n)) == n
  {
    if n >= 10 {
      DecimalRoundTrip(n / 10);
      var d := Decimal(n);
      assert d[..|d| - 1] == Decimal(n / 10);
    }
  }

  /** The two columns well mode adds: the letters (NaN when there are none) and the integer column. */
  datatype Well = Well(row: Option<string>, column: Option<nat>)

  /**
   * `str.extract(r"([A-Za-z]+)")` and `str.extract(r"(\d+)").astype(int)` on one
   * label; `column` is `None` where the cast fails on a label without digits.
   */
  function ParseWell(position: string): (w: Well)
    ensures w.row.None? <==> forall i :: 0 <= i < |position| ==> !InClass(position[i], Letters)
    ensures w.row.Some? ==> exists a: nat, b: nat :: IsFirstRun(position, Letters, a, b) && w.row.value == position[a..b]
    ensures w.column.None? <==> forall i :: 0 <= i < |position| ==> !InClass(position[i], Digits)
    ensures w.column.Some? ==> exists a: nat, b: nat :: IsFirstRun(position, Digits, a, b)
                                 && w.column.value == DecimalValue(position[a..b])
  {
    Well(Extract(position, Letters),
         match Extract(position, Digits)
         case None => None
         case Some(d) => Some(DecimalValue(d)))
  }

  /** A first run found by hand is the one `Extract` returns. */
  lemma ExtractFinds(s: string, cls: CharClass, a: nat, b: nat)
    requires IsFirstRun(s, cls, a, b)
    ensures Extract(s, cls) == Some(s[a..b])
  {
    var run := Extract(s, cls);
    assert InClass(s[a], cls);
    var c: nat, d: nat :| IsFirstRun(s, cls, c, d) && run.value == s[c..d];
    FirstRunUnique(s, cls, a, b, c, d);
  }

  /** A label written as its letters followed by its column number splits back into the two. */
  lemma ParseWellRoundTrip(letters: string, column: nat)
    requires |letters| > 0 && forall i :: 0 <= i < |letters| ==> InClass(letters[i], Letters)
    ensures ParseWell(letters + Decimal(column)) == Well(Some(letters), Some(column))
  {
    var digits := Decimal(column);
    var s := letters + digits;
    assert forall i :: |letters| <= i < |s| ==> s[i] == digits[i - |letters|];
    assert IsFirstRun(s, Letters, 0, |letters|);
    assert IsFirstRun(s, Digits, |letters|, |s|);
    ExtractFinds(s, Letters, 0, |letters|);
    ExtractFinds(s, Digits, |letters|, |s|);
    assert s[0..|letters|] == letters;
    assert s[|letters|..|s|] == digits;
    DecimalRoundTrip(column);
  }

  lemma WellB7()
    ensures ParseWell("B7") == Well(Some("B"), Some(7))
  {
    assert "B7" == "B" + Decimal(7);
    ParseWellRoundTrip("B", 7);
  }

  /** A row of `filtered_df` once well mode has added its `row` and `column` cells. */
  datatype WellRow<R> = WellRow(source: R, row: Option<string>, column: nat)

  /** The largest value of numpy's default integer type, int64. */
  const Int64Max: nat := 0x7FFF_FFFF_FFFF_FFFF

  /** `astype(int)` accepts a cell: its label has digits, and their value fits in an int64. */
  predicate CastsToInt64(w: Well) {
    w.column.Some? && w.column.value <= Int64Max
  }

  /**
   * Lines 124-125 over the whole frame: `None` when `astype(int)` raises on some
   * label, because the label has no digits (the cell is NaN) or because its
   * digits overflow an int64.
   */
  function AddWellColumns<R>(rows: seq<R>, well: R -> string): (annotated: Option<seq<WellRow<R>>>)
    ensures annotated.None? <==> exists i :: 0 <= i < |rows| && !CastsToInt64(ParseWell(well(rows[i])))
    ensures annotated.Some? ==> |annotated.value| == |rows|
    ensures annotated.Some? ==> forall i :: 0 <= i < |rows| ==>
              var w := ParseWell(well(rows[i]));
              && w.column.Some? && w.column.value <= Int64Max
              && annotated.value[i] == WellRow(rows[i], w.row, w.column.value)
    decreases |rows|
  {
    if |rows| == 0 then Some([])
    else
      var w := ParseWell(well(rows[0]));
      match AddWellColumns(rows[1..], well)
      case None => None
      case Some(rest) =>
        if !CastsToInt64(w) then None
        else Some([WellRow(rows[0], w.row, w.column.value)] + rest)
  }

  /** A one-row frame labelled `"B7"` gains row `"B"` and column 7. */
  lemma WellColumnsB7<R>(r: R, well: R -> string)
    requires well(r) == "B7"
    ensures AddWellColumns([r], well) == Some([WellRow(r, Some("B"), 7)])
  {
    WellB7();
    var annotated := AddWellColumns([r], well);
    assert CastsToInt64(ParseWell(well([r][0])));
    assert annotated.Some? && |annotated.value| == 1;
    assert annotated.value[0] == WellRow(r, Some("B"), 7);
    assert annotated.value == [WellRow(r, Some("B"), 7)];
    assert annotated == Some([WellRow(r, Some("B"), 7)]);
  }

  /** A label whose column number is one past the int64 range makes the cast fail. */
  lemma WellColumnOverflows<R>(r: R, well: R -> string)
    requires well(r) == "B" + Decimal(Int64Max + 1)
    ensures AddWellColumns([r], well).None?
  {
    ParseWellRoundTrip("B", Int64Max + 1);
    assert !CastsToInt64(ParseWell(well([r][0])));
  }

  // ---------------------------------------------------------------------------
  // Non-well mode: groupby([X_VAL, Y_VAL]) and pivot

  /** The rows of one (X, Y) group, in order. */
  function GroupOf<R(==), X(==), Y(==)>(rows: seq<R>, x: R -> X, y: R -> Y, k: (X, Y)): seq<R> {
    Filter(rows, r => (x(r), y(r)) == k)
  }

  /**
   * `filtered_df.groupby([X_VAL, Y_VAL])`: one group per distinct (X, Y) pair,
   * holding that pair's rows in order; its HEAT_VAL mean becomes the pivot's
   * cell at (X, Y).
   */
  function Groups<R(==), X(==), Y(==)>(rows: seq<R>, x: R -> X, y: R -> Y): (cells: map<(X, Y), seq<R>>)
    ensures forall i :: 0 <= i < |rows| ==> (x(rows[i]), y(rows[i])) in cells
  {
    var keys := Distinct(rows, r => (x(r), y(r)));
    assert forall i :: 0 <= i < |rows| ==> (x(rows[i]), y(rows[i])) in keys by {
      forall i | 0 <= i < |rows| ensures (x(rows[i]), y(rows[i])) in keys {
        assert rows[i] in rows;
      }
    }
    map k | k in keys :: GroupOf(rows, x, y, k)
  }

  /**
   * Exactly one cell per distinct (X, Y) pair, each holding every row with that
   * pair and no other, no more cells than rows, and every cell on the grid of
   * distinct X by distinct Y.
   */
  lemma GroupCells<R, X, Y>(rows: seq<R>, x: R -> X, y: R -> Y)
    ensures forall k :: k in Groups(rows, x, y) <==> exists i :: 0 <= i < |rows| && (x(rows[i]), y(rows[i])) == k
    ensures forall k, r :: k in Groups(rows, x, y) && r in rows ==> (r in Groups(rows, x, y)[k] <==> (x(r), y(r)) == k)
    ensures |Groups(rows, x, y)| <= |rows|
    ensures forall k :: k in Groups(rows, x, y) ==> k.0 in Distinct(rows, x) && k.1 in Distinct(rows, y)
  {
    var cells := Groups(rows, x, y);
    var key := r => (x(r), y(r));
    DistinctBound(rows, key);
    assert cells.Keys == Distinct(rows, key);
    forall k | k in cells ensures exists i :: 0 <= i < |rows| && (x(rows[i]), y(rows[i])) == k {
      var r :| r in rows && key(r) == k;
      var i :| 0 <= i < |rows| && rows[i] == r;
    }
    forall k, r | k in cells && r in rows ensures r in cells[k] <==> (x(r), y(r)) == k {
      assert cells[k] == Filter(rows, r => (x(r), y(r)) == k);
      var i :| 0 <= i < |rows| && rows[i] == r;
      if r in cells[k] {
        var j :| 0 <= j < |cells[k]| && cells[k][j] == r;
      }
    }
  }
}

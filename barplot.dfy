/**
 * standalone/qPCR_BarPlot_standalone.py: the optional equality filter, the
 * interquartile-range filter with its lower bound fixed at 0, the IGNORE_VALUES
 * removal, the white palette and the pairs handed to the significance annotator.
 */
module BarPlot {
  import opened Frames
  import opened Seqs

  // ---------------------------------------------------------------------------
  // Row filters

  /** `qPCR_load[qPCR_load[FILTER_COL] == FILTER_VAL]` when EXTRA_FILTER is set, the loaded rows otherwise. */
  function ExtraFilter<R(==), V(==)>(loaded: seq<R>, extraFilter: bool, filterCol: R -> V, filterVal: V): (df: seq<R>)
    ensures !extraFilter ==> df == loaded
    ensures forall i :: 0 <= i < |df| ==> df[i] in loaded && (extraFilter ==> filterCol(df[i]) == filterVal)
    ensures forall i :: 0 <= i < |loaded| && (extraFilter ==> filterCol(loaded[i]) == filterVal) ==> loaded[i] in df
  {
    if extraFilter then Filter(loaded, r => filterCol(r) == filterVal) else loaded
  }

  /** `(0, Q3 + 1.5 * IQR)`: the lower bound is 0 whatever Q1 is. */
  function ZeroBasedBounds(q1: real, q3: real): (b: (real, real))
    ensures b.0 == 0.0
    ensures q1 <= q3 ==> q3 <= b.1
    ensures b.1 - q3 == 1.5 * (q3 - q1)
  {
    var iqr := q3 - q1;
    (0.0, q3 + 1.5 * iqr)
  }

  /** `qPCR_df[(qPCR_df[Y_VALS] >= low_bound) & (qPCR_df[Y_VALS] <= high_bound)]`. */
  function StatFilter<R(==)>(rows: seq<R>, yv: R -> real, q1: real, q3: real): (kept: seq<R>)
    ensures forall i :: 0 <= i < |kept| ==> kept[i] in rows && 0.0 <= yv(kept[i]) <= q3 + 1.5 * (q3 - q1)
    ensures forall i :: 0 <= i < |rows| && 0.0 <= yv(rows[i]) <= q3 + 1.5 * (q3 - q1) ==> rows[i] in kept
  {
    InRange(rows, yv, ZeroBasedBounds(q1, q3))
  }

  /** The rows drawn: lines 65-86, Q1 and Q3 being the quartiles of `qPCR_df`. */
  function BarPlotRows<R(==), V(==), K(==)>(loaded: seq<R>, extraFilter: bool, filterCol: R -> V, filterVal: V,
                                           statFilter: bool, yv: R -> real, q1: real, q3: real,
                                           barSplit: R -> K, ignore: seq<K>): (f: seq<R>)
    ensures forall i :: 0 <= i < |f| ==>
              && f[i] in loaded && barSplit(f[i]) !in ignore
              && (extraFilter ==> filterCol(f[i]) == filterVal)
              && (statFilter ==> 0.0 <= yv(f[i]) <= q3 + 1.5 * (q3 - q1))
    ensures forall i :: 0 <= i < |loaded| ==>
              ((extraFilter ==> filterCol(loaded[i]) == filterVal)
               && (statFilter ==> 0.0 <= yv(loaded[i]) <= q3 + 1.5 * (q3 - q1))
               && barSplit(loaded[i]) !in ignore) ==> loaded[i] in f
  {
    var df := ExtraFilter(loaded, extraFilter, filterCol, filterVal);
    WithoutIgnored(if statFilter then StatFilter(df, yv, q1, q3) else df, barSplit, ignore)
  }

  /** The script's lines 65-86, statement by statement. */
  method FilterRows<R(==), V(==), K(==)>(loaded: seq<R>, extraFilter: bool, filterCol: R -> V, filterVal: V,
                                        statFilter: bool, yv: R -> real, q1: real, q3: real,
                                        barSplit: R -> K, ignore: seq<K>) returns (filteredDf: seq<R>)
    ensures filteredDf == BarPlotRows(loaded, extraFilter, filterCol, filterVal, statFilter, yv, q1, q3, barSplit, ignore)
  {
    var qPCRDf;
    if extraFilter {
      qPCRDf := Filter(loaded, r => filterCol(r) == filterVal);
    } else {
      qPCRDf := loaded;
    }
    if statFilter {
      filteredDf := StatFilter(qPCRDf, yv, q1, q3);
    } else {
      filteredDf := qPCRDf;
    }
    filteredDf := DropIgnored(filteredDf, barSplit, ignore);
  }

  /** With EXTRA_FILTER set exactly the rows whose FILTER_COL equals FILTER_VAL are kept, every copy, in order. */
  lemma ExtraFilterExact<R, V>(loaded: seq<R>, extraFilter: bool, filterCol: R -> V, filterVal: V, r: R)
    ensures var df := ExtraFilter(loaded, extraFilter, filterCol, filterVal);
            && (r in df <==> r in loaded && (extraFilter ==> filterCol(r) == filterVal))
            && multiset(df)[r] == (if extraFilter && filterCol(r) != filterVal then 0 else multiset(loaded)[r])
            && IsSubsequence(df, loaded)
  {
    if extraFilter {
      FilterCount(loaded, r => filterCol(r) == filterVal, r);
      FilterIsSubsequence(loaded, r => filterCol(r) == filterVal);
    } else {
      SubsequenceReflexive(loaded);
    }
  }

  /** A row survives exactly when it passes every enabled filter; copies and order are kept. */
  lemma BarPlotRowsExact<R, V, K>(loaded: seq<R>, extraFilter: bool, filterCol: R -> V, filterVal: V,
                                  statFilter: bool, yv: R -> real, q1: real, q3: real,
                                  barSplit: R -> K, ignore: seq<K>, r: R)
    ensures var f := BarPlotRows(loaded, extraFilter, filterCol, filterVal, statFilter, yv, q1, q3, barSplit, ignore);
            var passes := (extraFilter ==> filterCol(r) == filterVal)
                       && (statFilter ==> 0.0 <= yv(r) <= q3 + 1.5 * (q3 - q1))
                       && barSplit(r) !in ignore;
            && (r in f <==> r in loaded && passes)
            && multiset(f)[r] == (if passes then multiset(loaded)[r] else 0)
            && IsSubsequence(f, loaded)
  {
    var df := ExtraFilter(loaded, extraFilter, filterCol, filterVal);
    ExtraFilterExact(loaded, extraFilter, filterCol, filterVal, r);
    var stat := if statFilter then StatFilter(df, yv, q1, q3) else df;
    if statFilter {
      StatFilterExact(df, yv, q1, q3, r);
    } else {
      SubsequenceReflexive(df);
    }
    SubsequenceTransitive(stat, df, loaded);
    WithoutIgnoredExact(stat, barSplit, ignore, r);
    SubsequenceTransitive(WithoutIgnored(stat, barSplit, ignore), stat, loaded);
  }

  /** The stat filter keeps exactly the rows with `0 <= v <= Q3 + 1.5 * IQR`, every copy, in order. */
  lemma StatFilterExact<R>(rows: seq<R>, yv: R -> real, q1: real, q3: real, r: R)
    ensures r in StatFilter(rows, yv, q1, q3) <==> r in rows && 0.0 <= yv(r) <= q3 + 1.5 * (q3 - q1)
    ensures multiset(StatFilter(rows, yv, q1, q3))[r]
         == if 0.0 <= yv(r) <= q3 + 1.5 * (q3 - q1) then multiset(rows)[r] else 0
    ensures IsSubsequence(StatFilter(rows, yv, q1, q3), rows)
  {
    InRangeExact(rows, yv, ZeroBasedBounds(q1, q3), r);
  }

  /** A non-negative row at or below the third quartile is never dropped by the stat filter. */
  lemma StatFilterKeepsLowerHalf<R>(rows: seq<R>, yv: R -> real, q1: real, q3: real, r: R)
    requires q1 <= q3 && r in rows && 0.0 <= yv(r) <= q3
    ensures r in StatFilter(rows, yv, q1, q3)
  {
    StatFilterExact(rows, yv, q1, q3, r);
  }

  // ---------------------------------------------------------------------------
  // Significance pairs

  type Group<T, K> = (T, K)
  type Pair<T, K> = (Group<T, K>, Group<T, K>)

  /** The pairs of one tissue whose first treatment is `treatments[i]`, second treatment among the first `upTo`. */
  function PairsFrom<T, K>(t: T, treatments: seq<K>, i: nat, upTo: nat): seq<Pair<T, K>>
    requires i < |treatments| && upTo <= |treatments|
  {
    var len := if upTo > i then upTo - i - 1 else 0;
    seq(len, k requires 0 <= k < len => ((t, treatments[i]), (t, treatments[i + 1 + k])))
  }

  /** One more turn of the innermost loop appends the pair for `idx` when `i < idx`. */
  lemma PairsFromStep<T, K>(t: T, treatments: seq<K>, i: nat, idx: nat)
    requires i < |treatments| && idx < |treatments|
    ensures PairsFrom(t, treatments, i, idx + 1)
         == PairsFrom(t, treatments, i, idx) + (if i < idx then [((t, treatments[i]), (t, treatments[idx]))] else [])
  {
    var before := PairsFrom(t, treatments, i, idx);
    var after := PairsFrom(t, treatments, i, idx + 1);
    if i < idx {
      assert |after| == |before| + 1;
      assert forall k :: 0 <= k < |before| ==> after[k] == before[k];
      assert after[|before|] == ((t, treatments[i]), (t, treatments[idx]));
    }
  }

  /** The pairs of one tissue whose first treatment has index below `upTo`. */
  function TissuePairs<T, K>(t: T, treatments: seq<K>, upTo: nat): (pairs: seq<Pair<T, K>>)
    requires upTo <= |treatments|
    ensures forall k :: 0 <= k < |pairs| ==> pairs[k].0.0 == t && pairs[k].1.0 == t
  {
    if upTo == 0 then []
    else TissuePairs(t, treatments, upTo - 1) + PairsFrom(t, treatments, upTo - 1, |treatments|)
  }

  /** `range(0, len(TREATMENT_ORDER) - 1)` has this many elements. */
  function FirstIndices(n: nat): nat {
    if n >= 1 then n - 1 else 0
  }

  /** The `pairs` list, tissue after tissue. */
  function AllPairs<T, K>(tissues: seq<T>, treatments: seq<K>): (pairs: seq<Pair<T, K>>)
    ensures forall k :: 0 <= k < |pairs| ==> pairs[k].0.0 == pairs[k].1.0 && pairs[k].0.0 in tissues
    decreases |tissues|
  {
    if |tissues| == 0 then []
    else AllPairs(tissues[..|tissues| - 1], treatments)
         + TissuePairs(tissues[|tissues| - 1], treatments, FirstIndices(|treatments|))
  }

  lemma TissuePairsStep<T, K>(t: T, treatments: seq<K>, treat: nat)
    requires treat < |treatments|
    ensures TissuePairs(t, treatments, treat + 1)
         == TissuePairs(t, treatments, treat) + PairsFrom(t, treatments, treat, |treatments|)
  {
  }

  lemma AllPairsStep<T, K>(tissues: seq<T>, treatments: seq<K>, a: nat)
    requires a < |tissues|
    ensures AllPairs(tissues[..a + 1], treatments)
         == AllPairs(tissues[..a], treatments) + TissuePairs(tissues[a], treatments, FirstIndices(|treatments|))
  {
    assert tissues[..a + 1][..a] == tissues[..a];
  }

  /** Lines 131-140: three nested loops appending to `pairs`. */
  method SignificancePairs<T, K>(tissueOrder: seq<T>, treatmentOrder: seq<K>) returns (pairs: seq<Pair<T, K>>)
    ensures pairs == AllPairs(tissueOrder, treatmentOrder)
  {
    pairs := [];
    var n := |treatmentOrder|;
    for a := 0 to |tissueOrder|
      invariant pairs == AllPairs(tissueOrder[..a], treatmentOrder)
    {
      var tis := tissueOrder[a];
      ghost var before := AllPairs(tissueOrder[..a], treatmentOrder);
      for treat := 0 to FirstIndices(n)
        invariant pairs == before + TissuePairs(tis, treatmentOrder, treat)
      {
        ghost var upToTreat := before + TissuePairs(tis, treatmentOrder, treat);
        for idx := 0 to n
          invariant pairs == upToTreat + PairsFrom(tis, treatmentOrder, treat, idx)
        {
          var treat2 := treatmentOrder[idx];
          if treat < idx {
            var pair1 := treatmentOrder[treat];
            var pair2 := treat2;
            var newPair := ((tis, pair1), (tis, pair2));
            AppendAssociative(upToTreat, PairsFrom(tis, treatmentOrder, treat, idx), [newPair]);
            pairs := pairs + [newPair];
          }
          PairsFromStep(tis, treatmentOrder, treat, idx);
        }
        TissuePairsStep(tis, treatmentOrder, treat);
        AppendAssociative(before, TissuePairs(tis, treatmentOrder, treat), PairsFrom(tis, treatmentOrder, treat, n));
      }
      AllPairsStep(tissueOrder, treatmentOrder, a);
    }
    assert tissueOrder[..|tissueOrder|] == tissueOrder;
  }

  /** How many pairs have a first index below `i`: (n-1) + (n-2) + ... over `i` terms. */
  function PairsBefore(n: nat, i: nat): nat
    requires i <= n
  {
    if i == 0 then 0 else PairsBefore(n, i - 1) + (n - i)
  }

  /** The pairs one tissue contributes. */
  function PerTissue(n: nat): nat {
    PairsBefore(n, FirstIndices(n))
  }

  lemma {:induction false} PairsBeforeClosed(n: nat, i: nat)
    requires i <= n
    ensures 2 * PairsBefore(n, i) == i * (2 * n - i - 1)
  {
    if i > 0 {
      PairsBeforeClosed(n, i - 1);
      assert (i - 1) * (2 * n - i) + 2 * (n - i) == i * (2 * n - i - 1);
    }
  }

  /** `n * (n - 1) / 2` pairs per tissue. */
  lemma PerTissueClosed(n: nat)
    ensures 2 * PerTissue(n) == n * (n - 1)
  {
    if n >= 1 {
      PairsBeforeClosed(n, n - 1);
      assert (n - 1) * (2 * n - (n - 1) - 1) == n * (n - 1);
    }
  }

  lemma PairsFromLength<T, K>(t: T, treatments: seq<K>, i: nat, upTo: nat)
    requires i < |treatments| && upTo <= |treatments|
    ensures |PairsFrom(t, treatments, i, upTo)| == if upTo > i then upTo - i - 1 else 0
  {
  }

  lemma PairsFromAt<T, K>(t: T, treatments: seq<K>, i: nat, upTo: nat, j: nat)
    requires i < j < upTo <= |treatments|
    ensures j - i - 1 < |PairsFrom(t, treatments, i, upTo)|
    ensures PairsFrom(t, treatments, i, upTo)[j - i - 1] == ((t, treatments[i]), (t, treatments[j]))
  {
  }

  lemma {:induction false} TissuePairsLength<T, K>(t: T, treatments: seq<K>, upTo: nat)
    requires upTo <= |treatments|
    ensures |TissuePairs(t, treatments, upTo)| == PairsBefore(|treatments|, upTo)
  {
    var n := |treatments|;
    if upTo > 0 {
      var prefix := TissuePairs(t, treatments, upTo - 1);
      var last := PairsFrom(t, treatments, upTo - 1, n);
      TissuePairsLength(t, treatments, upTo - 1);
      PairsFromLength(t, treatments, upTo - 1, n);
      assert |last| == n - upTo;
      assert TissuePairs(t, treatments, upTo) == prefix + last;
      assert PairsBefore(n, upTo) == PairsBefore(n, upTo - 1) + (n - upTo);
    }
  }

  lemma {:induction false} TissuePairsAt<T, K>(t: T, treatments: seq<K>, upTo: nat, i: nat, j: nat)
    requires i < upTo <= |treatments| && i < j < |treatments|
    ensures PairsBefore(|treatments|, i) + (j - i - 1) < |TissuePairs(t, treatments, upTo)|
    ensures TissuePairs(t, treatments, upTo)[PairsBefore(|treatments|, i) + (j - i - 1)]
         == ((t, treatments[i]), (t, treatments[j]))
  {
    var n := |treatments|;
    var prefix := TissuePairs(t, treatments, upTo - 1);
    var last := PairsFrom(t, treatments, upTo - 1, n);
    var k := PairsBefore(n, i) + (j - i - 1);
    var want := ((t, treatments[i]), (t, treatments[j]));
    TissuePairsStep(t, treatments, upTo - 1);
    TissuePairsLength(t, treatments, upTo - 1);
    if i < upTo - 1 {
      assert k < |prefix| && prefix[k] == want by {
        TissuePairsAt(t, treatments, upTo - 1, i, j);
      }
      assert (prefix + last)[k] == want;
    } else {
      assert |prefix| == PairsBefore(n, i);
      assert j - i - 1 < |last| && last[j - i - 1] == want by {
        PairsFromAt(t, treatments, i, n, j);
      }
      assert (prefix + last)[k] == want;
    }
  }

  lemma {:induction false} MulStep(a: nat, m: nat, p: nat)
    requires a < m
    ensures a * p + p <= m * p
    decreases m
  {
    if a + 1 < m {
      MulStep(a, m - 1, p);
    }
  }

  /** |TISSUE_ORDER| * n(n-1)/2 pairs in all; none when there are fewer than two treatments. */
  lemma {:induction false} AllPairsCount<T, K>(tissues: seq<T>, treatments: seq<K>)
    ensures |AllPairs(tissues, treatments)| == |tissues| * PerTissue(|treatments|)
    ensures |treatments| <= 1 ==> AllPairs(tissues, treatments) == []
    decreases |tissues|
  {
    var p := PerTissue(|treatments|);
    if |tissues| > 0 {
      var m := |tissues| - 1;
      AllPairsCount(tissues[..m], treatments);
      TissuePairsLength(tissues[m], treatments, FirstIndices(|treatments|));
      assert m * p + p == |tissues| * p;
    }
  }

  /**
   * The pair of tissue `a` and treatments `i < j` sits at position
   * `a * n(n-1)/2 + PairsBefore(n, i) + (j - i - 1)`: tissues in TISSUE_ORDER,
   * then first index, then second index.
   */
  lemma {:induction false} AllPairsAt<T, K>(tissues: seq<T>, treatments: seq<K>, a: nat, i: nat, j: nat)
    requires a < |tissues| && i < j < |treatments|
    ensures a * PerTissue(|treatments|) + PairsBefore(|treatments|, i) + (j - i - 1) < |AllPairs(tissues, treatments)|
    ensures AllPairs(tissues, treatments)[a * PerTissue(|treatments|) + PairsBefore(|treatments|, i) + (j - i - 1)]
         == ((tissues[a], treatments[i]), (tissues[a], treatments[j]))
    decreases |tissues|
  {
    var n := |treatments|;
    var p := PerTissue(n);
    var m := |tissues| - 1;
    var init := tissues[..m];
    var off := PairsBefore(n, i) + (j - i - 1);
    AllPairsCount(init, treatments);
    TissuePairsAt(tissues[m], treatments, FirstIndices(n), i, j);
    TissuePairsLength(tissues[m], treatments, FirstIndices(n));
    if a < m {
      AllPairsAt(init, treatments, a, i, j);
      MulStep(a, m, p);
      assert init[a] == tissues[a];
    } else {
      assert a * p == |AllPairs(init, treatments)|;
    }
  }

  lemma {:induction false} TissueForm<T, K>(t: T, treatments: seq<K>, upTo: nat, k: nat)
    requires upTo <= |treatments| && k < |TissuePairs(t, treatments, upTo)|
    ensures exists i, j :: 0 <= i < j < |treatments|
              && TissuePairs(t, treatments, upTo)[k] == ((t, treatments[i]), (t, treatments[j]))
  {
    var n := |treatments|;
    var prefix := TissuePairs(t, treatments, upTo - 1);
    if k < |prefix| {
      TissueForm(t, treatments, upTo - 1, k);
    } else {
      var i := upTo - 1;
      PairsFromLength(t, treatments, i, n);
      var j := k - |prefix| + i + 1;
      PairsFromAt(t, treatments, i, n, j);
      assert 0 <= i < j < n && TissuePairs(t, treatments, upTo)[k] == ((t, treatments[i]), (t, treatments[j]));
    }
  }

  /** Every pair has one tissue on both sides and treatments in TREATMENT_ORDER order. */
  lemma {:induction false} AllPairsForm<T, K>(tissues: seq<T>, treatments: seq<K>, k: nat)
    requires k < |AllPairs(tissues, treatments)|
    ensures exists a, i, j :: 0 <= a < |tissues| && 0 <= i < j < |treatments|
              && AllPairs(tissues, treatments)[k] == ((tissues[a], treatments[i]), (tissues[a], treatments[j]))
    decreases |tissues|
  {
    var n := |treatments|;
    var m := |tissues| - 1;
    var init := tissues[..m];
    var prefix := AllPairs(init, treatments);
    if k < |prefix| {
      AllPairsForm(init, treatments, k);
      var a, i, j :| 0 <= a < |init| && 0 <= i < j < n && prefix[k] == ((init[a], treatments[i]), (init[a], treatments[j]));
      assert 0 <= a < |tissues| && AllPairs(tissues, treatments)[k] == ((tissues[a], treatments[i]), (tissues[a], treatments[j]));
    } else {
      TissueForm(tissues[m], treatments, FirstIndices(n), k - |prefix|);
      var i, j :| 0 <= i < j < n && TissuePairs(tissues[m], treatments, FirstIndices(n))[k - |prefix|]
                                    == ((tissues[m], treatments[i]), (tissues[m], treatments[j]));
      assert 0 <= m < |tissues| && AllPairs(tissues, treatments)[k] == ((tissues[m], treatments[i]), (tissues[m], treatments[j]));
    }
  }

  /** With TREATMENT_ORDER = ["WT", "KO"] every tissue contributes exactly ((t, "WT"), (t, "KO")). */
  lemma {:induction false} TwoTreatments<T>(tissues: seq<T>)
    ensures AllPairs(tissues, ["WT", "KO"]) == seq(|tissues|, a requires 0 <= a < |tissues| => ((tissues[a], "WT"), (tissues[a], "KO")))
    decreases |tissues|
  {
    if |tissues| > 0 {
      var m := |tissues| - 1;
      TwoTreatments(tissues[..m]);
      var treatments := ["WT", "KO"];
      assert PairsFrom(tissues[m], treatments, 0, 2) == [((tissues[m], "WT"), (tissues[m], "KO"))];
      assert TissuePairs(tissues[m], treatments, 1) == PairsFrom(tissues[m], treatments, 0, 2);
    }
  }
}

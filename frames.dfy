/**
 * The table operations the scripts apply to a loaded data frame. A frame is
 * its sequence of rows, in file order; a column is a function from a row to
 * that row's cell, so `df[col]` on a row `r` is `col(r)`.
 */
module Frames {
  import opened Wrappers

  // ---------------------------------------------------------------------------
  // Boolean-mask selection: df[mask]

  /** `df[mask]`: the rows for which `keep` holds, in their original order. */
  function Filter<R(==)>(rows: seq<R>, keep: R -> bool): (kept: seq<R>)
    ensures |kept| <= |rows|
    ensures forall i :: 0 <= i < |kept| ==> kept[i] in rows && keep(kept[i])
    ensures forall i :: 0 <= i < |rows| && keep(rows[i]) ==> rows[i] in kept
  {
    if |rows| == 0 then []
    else (if keep(rows[0]) then [rows[0]] else []) + Filter(rows[1..], keep)
  }

  /** `idx` picks `sub` out of `s` at strictly increasing positions. */
  ghost predicate Embeds<R>(sub: seq<R>, s: seq<R>, idx: seq<nat>) {
    && |idx| == |sub|
    && (forall i :: 0 <= i < |idx| ==> idx[i] < |s| && s[idx[i]] == sub[i])
    && (forall i, j :: 0 <= i < j < |idx| ==> idx[i] < idx[j])
  }

  /** `sub` is `s` with some rows left out and the rest in their order. */
  ghost predicate IsSubsequence<R>(sub: seq<R>, s: seq<R>) {
    exists idx :: Embeds(sub, s, idx)
  }

  /** Selection keeps every row it keeps with all its copies, and drops every copy of the others. */
  lemma {:induction false} FilterCount<R>(rows: seq<R>, keep: R -> bool, r: R)
    ensures multiset(Filter(rows, keep))[r] == if keep(r) then multiset(rows)[r] else 0
  {
    if |rows| > 0 {
      FilterCount(rows[1..], keep, r);
      assert rows == [rows[0]] + rows[1..];
    }
  }

  /** Every index moved one place to the right. */
  function Shift(idx: seq<nat>): (shifted: seq<nat>)
    ensures |shifted| == |idx|
    ensures forall i :: 0 <= i < |idx| ==> shifted[i] == idx[i] + 1
  {
    seq(|idx|, i requires 0 <= i < |idx| => idx[i] + 1)
  }

  lemma EmbedsShift<R>(sub: seq<R>, s: seq<R>, idx: seq<nat>)
    requires |s| > 0 && Embeds(sub, s[1..], idx)
    ensures Embeds(sub, s, Shift(idx))
  {
    forall i | 0 <= i < |idx|
      ensures Shift(idx)[i] < |s| && s[Shift(idx)[i]] == sub[i]
    {
      assert s[1..][idx[i]] == sub[i];
    }
  }

  lemma EmbedsCons<R>(sub: seq<R>, s: seq<R>, idx: seq<nat>)
    requires |s| > 0 && Embeds(sub, s, idx) && forall i :: 0 <= i < |idx| ==> 0 < idx[i]
    ensures Embeds([s[0]] + sub, s, [0] + idx)
  {
    var full := [0] + idx;
    forall i | 0 < i < |full| ensures full[i] == idx[i - 1] {}
  }

  /** Selection keeps the order of the rows it keeps. */
  lemma {:induction false} FilterIsSubsequence<R>(rows: seq<R>, keep: R -> bool)
    ensures IsSubsequence(Filter(rows, keep), rows)
  {
    if |rows| == 0 {
      assert Embeds([], rows, []);
    } else {
      FilterIsSubsequence(rows[1..], keep);
      var tail := Filter(rows[1..], keep);
      var t :| Embeds(tail, rows[1..], t);
      EmbedsShift(tail, rows, t);
      if keep(rows[0]) {
        EmbedsCons(tail, rows, Shift(t));
        assert Filter(rows, keep) == [rows[0]] + tail;
      } else {
        assert Filter(rows, keep) == tail;
      }
    }
  }

  lemma SubsequenceReflexive<R>(s: seq<R>)
    ensures IsSubsequence(s, s)
  {
    assert Embeds(s, s, seq(|s|, i => i));
  }

  lemma SubsequenceTransitive<R>(a: seq<R>, b: seq<R>, c: seq<R>)
    requires IsSubsequence(a, b) && IsSubsequence(b, c)
    ensures IsSubsequence(a, c)
  {
    var ab :| Embeds(a, b, ab);
    var bc :| Embeds(b, c, bc);
    var ac := seq(|ab|, i requires 0 <= i < |ab| => bc[ab[i]]);
    assert Embeds(a, c, ac);
  }

  /** Two masks that agree on every row select the same rows. */
  lemma {:induction false} FilterExtensional<R>(rows: seq<R>, p: R -> bool, q: R -> bool)
    requires forall r :: r in rows ==> p(r) == q(r)
    ensures Filter(rows, p) == Filter(rows, q)
  {
    if |rows| > 0 {
      FilterExtensional(rows[1..], p, q);
    }
  }

  /** A mask that holds of every row selects the whole frame. */
  lemma {:induction false} FilterKeepsAll<R>(rows: seq<R>, keep: R -> bool)
    requires forall r :: r in rows ==> keep(r)
    ensures Filter(rows, keep) == rows
  {
    if |rows| > 0 {
      FilterKeepsAll(rows[1..], keep);
    }
  }

  /** Selecting twice is selecting by both masks at once. */
  lemma {:induction false} FilterTwice<R>(rows: seq<R>, p: R -> bool, q: R -> bool)
    ensures Filter(Filter(rows, p), q) == Filter(rows, r => p(r) && q(r))
  {
    if |rows| > 0 {
      FilterTwice(rows[1..], p, q);
      var both := r => p(r) && q(r);
      assert Filter(rows, both) == (if both(rows[0]) then [rows[0]] else []) + Filter(rows[1..], both);
      if p(rows[0]) {
        assert Filter(rows, p) == [rows[0]] + Filter(rows[1..], p);
        assert Filter(rows, p)[1..] == Filter(rows[1..], p);
      } else {
        assert Filter(rows, p) == Filter(rows[1..], p);
      }
    }
  }

  /** Selecting again by the same mask changes nothing. */
  lemma FilterIdempotent<R>(rows: seq<R>, keep: R -> bool)
    ensures Filter(Filter(rows, keep), keep) == Filter(rows, keep)
  {
    FilterKeepsAll(Filter(rows, keep), keep);
  }

  // ---------------------------------------------------------------------------
  // A mask on one numeric column between inclusive bounds

  predicate Within(x: real, bounds: (real, real)) {
    bounds.0 <= x && x <= bounds.1
  }

  /** `df[(df[col] >= low) & (df[col] <= high)]` with `bounds == (low, high)`. */
  function InRange<R(==)>(rows: seq<R>, v: R -> real, bounds: (real, real)): (kept: seq<R>)
    ensures forall i :: 0 <= i < |kept| ==> kept[i] in rows && bounds.0 <= v(kept[i]) <= bounds.1
    ensures forall i :: 0 <= i < |rows| && bounds.0 <= v(rows[i]) <= bounds.1 ==> rows[i] in kept
  {
    Filter(rows, r => Within(v(r), bounds))
  }

  /** The mask keeps exactly the rows inside the inclusive bounds, with all their copies, in order. */
  lemma InRangeExact<R>(rows: seq<R>, v: R -> real, bounds: (real, real), r: R)
    ensures r in InRange(rows, v, bounds) <==> r in rows && bounds.0 <= v(r) <= bounds.1
    ensures multiset(InRange(rows, v, bounds))[r] == if Within(v(r), bounds) then multiset(rows)[r] else 0
    ensures IsSubsequence(InRange(rows, v, bounds), rows)
  {
    FilterCount(rows, r => Within(v(r), bounds), r);
    FilterIsSubsequence(rows, r => Within(v(r), bounds));
  }

  /** Masking again with the same bounds removes nothing more. */
  lemma InRangeIdempotent<R>(rows: seq<R>, v: R -> real, bounds: (real, real))
    ensures InRange(InRange(rows, v, bounds), v, bounds) == InRange(rows, v, bounds)
  {
    FilterIdempotent(rows, r => Within(v(r), bounds));
  }

  // ---------------------------------------------------------------------------
  // The IGNORE_VALUES loop

  /** The rows whose `key` cell is none of `ignore`, in order: what the loop leaves. */
  function WithoutIgnored<R(==), K(==)>(rows: seq<R>, key: R -> K, ignore: seq<K>): (kept: seq<R>)
    ensures forall i :: 0 <= i < |kept| ==> kept[i] in rows && key(kept[i]) !in ignore
    ensures forall i :: 0 <= i < |rows| && key(rows[i]) !in ignore ==> rows[i] in kept
  {
    Filter(rows, r => key(r) !in ignore)
  }

  /** One pass of the loop: `filtered_df[filtered_df[col] != rem]`. */
  function DropValue<R(==), K(==)>(rows: seq<R>, key: R -> K, rem: K): (kept: seq<R>)
    ensures forall i :: 0 <= i < |kept| ==> kept[i] in rows && key(kept[i]) != rem
    ensures forall i :: 0 <= i < |rows| && key(rows[i]) != rem ==> rows[i] in kept
  {
    Filter(rows, r => key(r) != rem)
  }

  lemma DropValueExtends<R, K>(rows: seq<R>, key: R -> K, ignore: seq<K>, rem: K)
    ensures DropValue(WithoutIgnored(rows, key, ignore), key, rem) == WithoutIgnored(rows, key, ignore + [rem])
  {
    var kept := r => key(r) !in ignore;
    var other := r => key(r) != rem;
    assert A: WithoutIgnored(rows, key, ignore) == Filter(rows, kept);
    assert B: DropValue(Filter(rows, kept), key, rem) == Filter(Filter(rows, kept), other);
    FilterTwice(rows, kept, other);
    FilterExtensional(rows, r => kept(r) && other(r), r => key(r) !in ignore + [rem]);
    assert C: WithoutIgnored(rows, key, ignore + [rem]) == Filter(rows, r => key(r) !in ignore + [rem]);
  }

  /**
   * `for rem in IGNORE_VALUES: filtered_df = filtered_df[filtered_df[col] != rem]`,
   * guarded by `len(IGNORE_VALUES) > 0`.
   */
  method DropIgnored<R(==), K(==)>(rows: seq<R>, key: R -> K, ignore: seq<K>)
    returns (filtered: seq<R>)
    ensures filtered == WithoutIgnored(rows, key, ignore)
  {
    filtered := rows;
    WithoutNothing(rows, key);
    if |ignore| > 0 {
      for i := 0 to |ignore|
        invariant filtered == WithoutIgnored(rows, key, ignore[..i])
      {
        var rem := ignore[i];
        DropValueExtends(rows, key, ignore[..i], rem);
        filtered := DropValue(filtered, key, rem);
        assert ignore[..i + 1] == ignore[..i] + [rem];
      }
      assert ignore[..|ignore|] == ignore;
    }
  }

  /** Exactly the rows with an ignored value go, every copy of every other row stays, in order. */
  lemma WithoutIgnoredExact<R, K>(rows: seq<R>, key: R -> K, ignore: seq<K>, r: R)
    ensures r in WithoutIgnored(rows, key, ignore) <==> r in rows && key(r) !in ignore
    ensures multiset(WithoutIgnored(rows, key, ignore))[r]
         == if key(r) in ignore then 0 else multiset(rows)[r]
    ensures IsSubsequence(WithoutIgnored(rows, key, ignore), rows)
  {
    FilterCount(rows, r => key(r) !in ignore, r);
    FilterIsSubsequence(rows, r => key(r) !in ignore);
  }

  /** An empty ignore list leaves the frame as it is. */
  lemma WithoutNothing<R, K>(rows: seq<R>, key: R -> K)
    ensures WithoutIgnored(rows, key, []) == rows
  {
    FilterKeepsAll(rows, r => key(r) !in []);
  }

  /** Only the set of ignored values matters, not their order or repetition. */
  lemma IgnoreOrderIrrelevant<R, K>(rows: seq<R>, key: R -> K, a: seq<K>, b: seq<K>)
    requires forall k :: k in a <==> k in b
    ensures WithoutIgnored(rows, key, a) == WithoutIgnored(rows, key, b)
  {
    FilterExtensional(rows, r => key(r) !in a, r => key(r) !in b);
  }

  // ---------------------------------------------------------------------------
  // Distinct values, maximum, white palette

  /** `set(df[col])`: the distinct cells of a column. */
  function Distinct<R(==), K(==)>(rows: seq<R>, key: R -> K): (values: set<K>)
    ensures forall i :: 0 <= i < |rows| ==> key(rows[i]) in values
    ensures forall k :: k in values ==> exists i :: 0 <= i < |rows| && key(rows[i]) == k
  {
    set r | r in rows :: key(r)
  }

  /** A column has no more distinct values than rows, and none exactly when there are no rows. */
  lemma {:induction false} DistinctBound<R, K>(rows: seq<R>, key: R -> K)
    ensures |Distinct(rows, key)| <= |rows|
    ensures |Distinct(rows, key)| == 0 <==> |rows| == 0
  {
    if |rows| > 0 {
      DistinctBound(rows[1..], key);
      assert Distinct(rows, key) == Distinct(rows[1..], key) + {key(rows[0])} by {
        assert forall r :: r in rows <==> r == rows[0] || r in rows[1..];
      }
      assert key(rows[0]) in Distinct(rows, key);
    }
  }

  const White := "#FFFFFF"

  /** `["#FFFFFF"] * len(list(set(df[col])))`: one white entry per distinct value of the column. */
  function WhiteWheel<R(==), K(==)>(rows: seq<R>, key: R -> K): (wheel: seq<string>)
    ensures |wheel| == |Distinct(rows, key)|
    ensures forall i :: 0 <= i < |wheel| ==> wheel[i] == White
  {
    seq(|Distinct(rows, key)|, _ => White)
  }

  /** The palette has an entry for every hue level, and is empty only for an empty frame. */
  lemma WhiteWheelSize<R, K>(rows: seq<R>, key: R -> K)
    ensures |WhiteWheel(rows, key)| <= |rows|
    ensures |rows| > 0 ==> |WhiteWheel(rows, key)| >= 1
    ensures forall k :: k in Distinct(rows, key) <==> exists r :: r in rows && key(r) == k
  {
    DistinctBound(rows, key);
  }

  /** `df[col].max()`, `None` standing for the NaN of an empty column. */
  function MaxOf<R(==)>(rows: seq<R>, v: R -> real): (m: Option<real>)
    ensures m.None? <==> |rows| == 0
    ensures m.Some? ==> exists i :: 0 <= i < |rows| && v(rows[i]) == m.value
    ensures m.Some? ==> forall i :: 0 <= i < |rows| ==> v(rows[i]) <= m.value
  {
    if |rows| == 0 then None
    else match MaxOf(rows[1..], v)
      case None => Some(v(rows[0]))
      case Some(rest) => Some(if v(rows[0]) >= rest then v(rows[0]) else rest)
  }
}

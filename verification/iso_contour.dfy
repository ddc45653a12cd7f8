/** The cumulative-probability contour thresholds of 12_denggaoxian.py.
    The density grid is given (the kernel density estimate that produces
    it is not modelled). Its cells are sorted from densest to sparsest and
    accumulated times the cell area; the threshold for a level `p` is the
    density of the first cell at which the accumulated mass reaches `p`,
    so the cells at least that dense carry mass at least `p`. */
module IsoContour {
  import opened Wrappers
  import opened Reals
  import opened Sorting

  /** The density grid `PDF[j][i]`: row `j` is the stress value `S[j]`,
      column `i` the temperature `T[i]`. */
  predicate Rectangular(grid: seq<seq<real>>, width: nat)
  {
    forall j :: 0 <= j < |grid| ==> |grid[j]| == width
  }

  predicate Nonnegative(s: seq<real>)
  {
    forall i :: 0 <= i < |s| ==> 0.0 <= s[i]
  }

  predicate Descending(s: seq<real>)
  {
    forall i, j :: 0 <= i < j < |s| ==> s[i] >= s[j]
  }

  /** `PDF.ravel()`: the rows one after the other. */
  function Flatten(grid: seq<seq<real>>): (flat: seq<real>)
    ensures forall x :: x in flat <==> exists j :: 0 <= j < |grid| && x in grid[j]
  {
    if |grid| == 0 then []
    else
      var n := |grid| - 1;
      var front := Flatten(grid[..n]);
      assert forall j :: 0 <= j < n ==> grid[..n][j] == grid[j];
      front + grid[n]
  }

  function Neg(x: real): real { -x }

  /** `pdf_flat[np.argsort(pdf_flat)[::-1]]`: the same values from the
      largest to the smallest. Which of equal values comes first does not
      matter, since only the values are kept. */
  function SortDescending(s: seq<real>): (r: seq<real>)
    ensures |r| == |s| && multiset(r) == multiset(s)
    ensures Descending(r)
    ensures Nonnegative(s) ==> Nonnegative(r)
  {
    var r := SortBy(s, Neg);
    assert Nonnegative(s) ==> Nonnegative(r) by {
      if Nonnegative(s) {
        forall i | 0 <= i < |r|
          ensures 0.0 <= r[i]
        {
          assert r[i] in multiset(s);
        }
      }
    }
    assert SortedBy(r, Neg);
    assert forall i, j :: 0 <= i < j < |r| ==> Neg(r[i]) <= Neg(r[j]);
    r
  }

  /** `np.cumsum(pdf_sort) * area`: entry `k` is the mass of the first
      `k + 1` cells. */
  function Cumulative(s: seq<real>, area: real): (cdf: seq<real>)
    ensures |cdf| == |s|
    ensures forall k :: 0 <= k < |s| ==> cdf[k] == Sum(s[..k + 1]) * area
  {
    seq(|s|, k requires 0 <= k < |s| => Sum(s[..k + 1]) * area)
  }

  /** With nonnegative densities and area, the accumulated mass never
      decreases. */
  lemma CumulativeAscending(s: seq<real>, area: real)
    requires Nonnegative(s) && area >= 0.0
    ensures Ascending(Cumulative(s, area))
  {
    var cdf := Cumulative(s, area);
    forall i, j | 0 <= i < j < |s|
      ensures cdf[i] <= cdf[j]
    {
      assert s[..j + 1] == s[..i + 1] + s[i + 1..j + 1];
      SumAppend(s[..i + 1], s[i + 1..j + 1]);
      SumNonneg(s[i + 1..j + 1]);
      MulMonotone(Sum(s[..i + 1]), Sum(s[..j + 1]), area);
    }
  }

  lemma MulMonotone(a: real, b: real, c: real)
    requires a <= b && c >= 0.0
    ensures a * c <= b * c
  {
  }

  /** `np.searchsorted(cdf, p)` (side `left`) on an ascending array: the
      first index whose value is at least `p`, or the length. */
  function SearchLeft(cdf: seq<real>, p: real): (k: nat)
    requires Ascending(cdf)
    ensures k <= |cdf|
    ensures forall i :: 0 <= i < k ==> cdf[i] < p
    ensures forall i :: k <= i < |cdf| ==> cdf[i] >= p
  {
    if |cdf| == 0 || cdf[|cdf| - 1] < p then |cdf|
    else SearchLeft(cdf[..|cdf| - 1], p)
  }

  /** A higher level is found no earlier. */
  lemma SearchLeftMonotone(cdf: seq<real>, p: real, q: real)
    requires Ascending(cdf) && p <= q
    ensures SearchLeft(cdf, p) <= SearchLeft(cdf, q)
  {
  }

  /** `k` is the first position whose cumulative mass reaches `p`. */
  predicate FirstReaching(sorted: seq<real>, area: real, p: real, k: nat)
  {
    k < |sorted| && Cumulative(sorted, area)[k] >= p
    && forall i :: 0 <= i < k ==> Cumulative(sorted, area)[i] < p
  }

  /** `pdf_sort[np.searchsorted(cdf_sort, p)]`: the density at the first
      position whose cumulative mass reaches `p`; an `IndexError` when `p`
      exceeds the whole mass. */
  function Threshold(sorted: seq<real>, area: real, p: real): (r: Result<real>)
    requires Nonnegative(sorted) && area >= 0.0
    ensures r.Failure? <==> |sorted| == 0 || Sum(sorted) * area < p
    ensures r.Success? ==> exists k :: 0 <= k < |sorted| && r.value == sorted[k]
                                        && Sum(sorted[..k + 1]) * area >= p
    ensures r.Success? ==> exists k :: 0 <= k < |sorted| && FirstReaching(sorted, area, p, k) && r.value == sorted[k]
  {
    var cdf := Cumulative(sorted, area);
    CumulativeAscending(sorted, area);
    var k := SearchLeft(cdf, p);
    SearchLeftPastEnd(sorted, area, p);
    if k == |sorted| then Failure("IndexError: level above the total mass")
    else
      SearchLeftReaches(sorted, area, p, k);
      Success(sorted[k])
  }

  /** `searchsorted` runs off the end exactly when the whole mass stays
      below the level. */
  lemma SearchLeftPastEnd(sorted: seq<real>, area: real, p: real)
    requires Ascending(Cumulative(sorted, area))
    ensures SearchLeft(Cumulative(sorted, area), p) == |sorted| <==> |sorted| == 0 || Sum(sorted) * area < p
  {
    var cdf := Cumulative(sorted, area);
    if |sorted| > 0 {
      var n := |sorted| - 1;
      assert sorted[..n + 1] == sorted;
      assert cdf[n] == Sum(sorted) * area;
      if cdf[n] >= p {
        assert SearchLeft(cdf, p) == SearchLeft(cdf[..n], p) <= n;
      }
    }
  }

  /** The position `searchsorted` finds in the cumulative mass is the first
      one reaching the level. */
  lemma SearchLeftReaches(sorted: seq<real>, area: real, p: real, k: nat)
    requires Ascending(Cumulative(sorted, area))
    requires k == SearchLeft(Cumulative(sorted, area), p) && k < |sorted|
    ensures FirstReaching(sorted, area, p, k)
    ensures Sum(sorted[..k + 1]) * area >= p
  {
    var cdf := Cumulative(sorted, area);
    assert cdf[k] >= p;
    assert forall i :: 0 <= i < k ==> cdf[i] < p;
    assert FirstReaching(sorted, area, p, k);
    assert cdf[k] == Sum(sorted[..k + 1]) * area;
  }

  /** Sum of the values at least `t`. */
  function MassAbove(s: seq<real>, t: real): real
  {
    if |s| == 0 then 0.0
    else MassAbove(s[..|s| - 1], t) + (if s[|s| - 1] >= t then s[|s| - 1] else 0.0)
  }

  lemma {:induction false} MassAboveAppend(a: seq<real>, b: seq<real>, t: real)
    ensures MassAbove(a + b, t) == MassAbove(a, t) + MassAbove(b, t)
    decreases |b|
  {
    if |b| > 0 {
      var n := |b| - 1;
      assert (a + b)[..|a + b| - 1] == a + b[..n];
      assert (a + b)[|a + b| - 1] == b[n];
      MassAboveAppend(a, b[..n], t);
    } else {
      assert a + b == a;
    }
  }

  lemma {:induction false} MassAboveNonneg(s: seq<real>, t: real)
    requires Nonnegative(s)
    ensures MassAbove(s, t) >= 0.0
  {
    if |s| > 0 {
      MassAboveNonneg(s[..|s| - 1], t);
    }
  }

  /** When every value reaches `t`, all of them count. */
  lemma {:induction false} MassAboveAll(s: seq<real>, t: real)
    requires forall i :: 0 <= i < |s| ==> s[i] >= t
    ensures MassAbove(s, t) == Sum(s)
  {
    if |s| > 0 {
      MassAboveAll(s[..|s| - 1], t);
    }
  }

  /** The mass above a threshold does not depend on the order of the
      cells. */
  lemma {:induction false} MassAbovePermutation(a: seq<real>, b: seq<real>, t: real)
    requires multiset(a) == multiset(b)
    ensures MassAbove(a, t) == MassAbove(b, t)
    decreases |a|
  {
    if |a| > 0 {
      var x := a[|a| - 1];
      assert x in multiset(b);
      var i :| 0 <= i < |b| && b[i] == x;
      var rest := b[..i] + b[i + 1..];
      assert b == b[..i] + [x] + b[i + 1..];
      assert a == a[..|a| - 1] + [x];
      assert multiset(b) == multiset(b[..i]) + multiset{x} + multiset(b[i + 1..]);
      assert multiset(a) == multiset(a[..|a| - 1]) + multiset{x};
      assert multiset(rest) == multiset(b[..i]) + multiset(b[i + 1..]);
      assert multiset(a[..|a| - 1]) == multiset(a) - multiset{x};
      assert multiset(rest) == multiset(b) - multiset{x};
      MassAbovePermutation(a[..|a| - 1], rest, t);
      MassAboveAppend(b[..i] + [x], b[i + 1..], t);
      MassAboveAppend(b[..i], [x], t);
      MassAboveAppend(b[..i], b[i + 1..], t);
      assert [x][..0] == [];
    } else {
      assert |b| == 0;
    }
  }

  /** The cells at least `t` carry mass at least `p`. */
  predicate Encloses(flat: seq<real>, t: real, area: real, p: real)
  {
    MassAbove(flat, t) * area >= p
  }

  /** The cells whose density reaches the threshold of level `p` carry
      mass at least `p`: the contour encloses at least that probability. */
  lemma ThresholdEnclosesLevel(flat: seq<real>, area: real, p: real)
    requires Nonnegative(flat) && area >= 0.0
    requires Threshold(SortDescending(flat), area, p).Success?
    ensures Encloses(flat, Threshold(SortDescending(flat), area, p).value, area, p)
  {
    var sorted := SortDescending(flat);
    EnclosesLevel(flat, sorted, area, p);
  }

  lemma EnclosesLevel(flat: seq<real>, sorted: seq<real>, area: real, p: real)
    requires multiset(flat) == multiset(sorted) && Descending(sorted)
    requires Nonnegative(sorted) && area >= 0.0
    requires Threshold(sorted, area, p).Success?
    ensures Encloses(flat, Threshold(sorted, area, p).value, area, p)
  {
    var k := ThresholdIndex(sorted, area, p);
    EnclosesAt(flat, sorted, area, p, k);
  }

  /** The position in the sorted cells that the threshold is read from. */
  lemma ThresholdIndex(sorted: seq<real>, area: real, p: real) returns (k: nat)
    requires Nonnegative(sorted) && area >= 0.0
    requires Threshold(sorted, area, p).Success?
    ensures k < |sorted| && Threshold(sorted, area, p).value == sorted[k]
    ensures Sum(sorted[..k + 1]) * area >= p
    ensures FirstReaching(sorted, area, p, k)
  {
    CumulativeAscending(sorted, area);
    k := SearchLeft(Cumulative(sorted, area), p);
    SearchLeftPastEnd(sorted, area, p);
    SearchLeftReaches(sorted, area, p, k);
  }

  /** When the first `k + 1` sorted cells carry mass `p`, so do all the
      cells at least the `k`-th. */
  lemma EnclosesAt(flat: seq<real>, sorted: seq<real>, area: real, p: real, k: nat)
    requires multiset(flat) == multiset(sorted) && Descending(sorted)
    requires Nonnegative(sorted) && area >= 0.0
    requires k < |sorted| && Sum(sorted[..k + 1]) * area >= p
    ensures Encloses(flat, sorted[k], area, p)
  {
    var t := sorted[k];
    MassAbovePrefix(sorted, k);
    MassAbovePermutation(flat, sorted, t);
    ScaledAtLeast(Sum(sorted[..k + 1]), MassAbove(flat, t), area, p);
  }

  lemma ScaledAtLeast(a: real, b: real, c: real, p: real)
    requires a <= b && c >= 0.0 && a * c >= p
    ensures b * c >= p
  {
    MulMonotone(a, b, c);
  }

  /** In a descending sequence the values at least `s[k]` include the
      first `k + 1`. */
  lemma MassAbovePrefix(s: seq<real>, k: nat)
    requires Nonnegative(s) && Descending(s) && k < |s|
    ensures MassAbove(s, s[k]) >= Sum(s[..k + 1])
  {
    var t := s[k];
    var front, back := s[..k + 1], s[k + 1..];
    assert s == front + back;
    MassAboveAppend(front, back, t);
    assert forall i :: 0 <= i < |front| ==> front[i] >= t by {
      forall i | 0 <= i < |front| ensures front[i] >= t {
        assert front[i] == s[i];
        assert i == k || s[i] >= s[k];
      }
    }
    MassAboveAll(front, t);
    assert Nonnegative(back) by {
      forall i | 0 <= i < |back| ensures back[i] >= 0.0 {
        assert back[i] == s[k + 1 + i];
      }
    }
    MassAboveNonneg(back, t);
  }

  /** A higher level never gets a higher threshold. */
  lemma ThresholdMonotone(sorted: seq<real>, area: real, p: real, q: real)
    requires Nonnegative(sorted) && Descending(sorted) && area >= 0.0 && p <= q
    requires Threshold(sorted, area, p).Success? && Threshold(sorted, area, q).Success?
    ensures Threshold(sorted, area, q).value <= Threshold(sorted, area, p).value
  {
    var cdf := Cumulative(sorted, area);
    CumulativeAscending(sorted, area);
    SearchLeftMonotone(cdf, p, q);
  }

  // ---------------------------------------------------------------------
  // Pairing thresholds with levels

  /** Python's tuple order on `(threshold, level)`. */
  predicate PairLe(a: (real, real), b: (real, real))
  {
    a.0 < b.0 || (a.0 == b.0 && a.1 <= b.1)
  }

  predicate PairsSorted(s: seq<(real, real)>)
  {
    forall i, j :: 0 <= i < j < |s| ==> PairLe(s[i], s[j])
  }

  function InsertPair(x: (real, real), s: seq<(real, real)>): (r: seq<(real, real)>)
    requires PairsSorted(s)
    ensures PairsSorted(r)
    ensures |r| == |s| + 1 && multiset(r) == multiset(s) + multiset{x}
  {
    if |s| == 0 then [x]
    else if PairLe(s[|s| - 1], x) then
      assert forall i :: 0 <= i < |s| ==> PairLe(s[i], x) by {
        forall i | 0 <= i < |s|
          ensures PairLe(s[i], x)
        {
          assert PairLe(s[i], s[|s| - 1]) || i == |s| - 1;
        }
      }
      s + [x]
    else
      var init := s[..|s| - 1];
      var front := InsertPair(x, init);
      assert s == init + [s[|s| - 1]];
      assert forall i :: 0 <= i < |front| ==> PairLe(front[i], s[|s| - 1]) by {
        forall i | 0 <= i < |front|
          ensures PairLe(front[i], s[|s| - 1])
        {
          assert front[i] in multiset(front);
          assert front[i] == x || front[i] in multiset(init);
          if front[i] != x {
            var j :| 0 <= j < |init| && init[j] == front[i];
            assert PairLe(s[j], s[|s| - 1]);
          }
        }
      }
      front + [s[|s| - 1]]
  }

  /** `sorted(zip(thr_raw, LEVELS_CDF))`: the same pairs, in tuple order,
      so every level stays with its own threshold. */
  function SortPairs(s: seq<(real, real)>): (r: seq<(real, real)>)
    ensures |r| == |s| && multiset(r) == multiset(s)
    ensures PairsSorted(r)
    ensures forall i, j :: 0 <= i < j < |r| ==> r[i].0 <= r[j].0
  {
    if |s| == 0 then []
    else
      assert s == s[..|s| - 1] + [s[|s| - 1]];
      InsertPair(s[|s| - 1], SortPairs(s[..|s| - 1]))
  }

  /** The thresholds of all levels, or the first `IndexError`. */
  function Thresholds(sorted: seq<real>, area: real, levels: seq<real>): (r: Result<seq<real>>)
    requires Nonnegative(sorted) && area >= 0.0
    ensures r.Failure? <==> exists i :: 0 <= i < |levels| && Threshold(sorted, area, levels[i]).Failure?
    ensures r.Success? ==> |r.value| == |levels|
    ensures r.Success? ==> forall i :: 0 <= i < |levels| ==>
              r.value[i] == Threshold(sorted, area, levels[i]).value
  {
    if |levels| == 0 then Success([])
    else
      var n := |levels| - 1;
      var front := Thresholds(sorted, area, levels[..n]);
      var last := Threshold(sorted, area, levels[n]);
      assert forall i :: 0 <= i < n ==> levels[..n][i] == levels[i];
      if front.Failure? then front
      else if last.Failure? then Failure(last.error)
      else Success(front.value + [last.value])
  }

  // ---------------------------------------------------------------------
  // Bounding ranges

  /** `mask.any(0)`: column `i` has a cell at least `lev`. */
  predicate ColumnHits(grid: seq<seq<real>>, width: nat, i: nat, lev: real)
    requires Rectangular(grid, width) && i < width
  {
    exists j :: 0 <= j < |grid| && grid[j][i] >= lev
  }

  /** `mask.any(1)`: row `j` has a cell at least `lev`. */
  predicate RowHits(grid: seq<seq<real>>, j: nat, lev: real)
    requires j < |grid|
  {
    exists i :: 0 <= i < |grid[j]| && grid[j][i] >= lev
  }

  /** The axis values whose flag is set, in order. */
  function Marked(axis: seq<real>, flags: seq<bool>): (r: seq<real>)
    requires |flags| == |axis|
    ensures forall x :: x in r ==> exists i :: 0 <= i < |axis| && flags[i] && axis[i] == x
    ensures forall i :: 0 <= i < |axis| && flags[i] ==> axis[i] in r
  {
    if |axis| == 0 then []
    else
      var n := |axis| - 1;
      var front := Marked(axis[..n], flags[..n]);
      assert forall i :: 0 <= i < n ==> axis[..n][i] == axis[i] && flags[..n][i] == flags[i];
      if flags[n] then front + [axis[n]] else front
  }

  /** `axis[flags].min(), axis[flags].max()`: `None` when no flag is set. */
  function Range(axis: seq<real>, flags: seq<bool>): (r: Option<(real, real)>)
    requires |flags| == |axis|
    ensures r.None? <==> forall i :: 0 <= i < |axis| ==> !flags[i]
    ensures r.Some? ==> r.value.0 <= r.value.1
    ensures r.Some? ==> forall i :: 0 <= i < |axis| && flags[i] ==> r.value.0 <= axis[i] <= r.value.1
    ensures r.Some? ==> exists i :: 0 <= i < |axis| && flags[i] && axis[i] == r.value.0
    ensures r.Some? ==> exists i :: 0 <= i < |axis| && flags[i] && axis[i] == r.value.1
  {
    var m := Marked(axis, flags);
    if |m| == 0 then
      None
    else
      var lo := MinOf(m);
      var hi := MaxOf(m);
      assert forall i :: 0 <= i < |axis| && flags[i] ==> lo <= axis[i] <= hi by {
        forall i | 0 <= i < |axis| && flags[i]
          ensures lo <= axis[i] <= hi
        {
          var k :| 0 <= k < |m| && m[k] == axis[i];
        }
      }
      Some((lo, hi))
  }

  function ColumnFlags(grid: seq<seq<real>>, width: nat, lev: real): (f: seq<bool>)
    requires Rectangular(grid, width)
    ensures |f| == width
    ensures forall i :: 0 <= i < width ==> (f[i] <==> ColumnHits(grid, width, i, lev))
  {
    seq(width, i requires 0 <= i < width => ColumnHits(grid, width, i, lev))
  }

  function RowFlags(grid: seq<seq<real>>, lev: real): (f: seq<bool>)
    ensures |f| == |grid|
    ensures forall j :: 0 <= j < |grid| ==> (f[j] <==> RowHits(grid, j, lev))
  {
    seq(|grid|, j requires 0 <= j < |grid| => RowHits(grid, j, lev))
  }

  /** `mask.any()`: some cell reaches `lev`. */
  predicate AnyHit(grid: seq<seq<real>>, width: nat, lev: real)
    requires Rectangular(grid, width)
  {
    exists j, i :: 0 <= j < |grid| && 0 <= i < width && grid[j][i] >= lev
  }

  /** One line of the range file: the level and its `T` and `σ` ranges. */
  datatype LevelRange = LevelRange(p: real, tMin: real, tMax: real, sMin: real, sMax: real)

  /** The range line of one level, or `None` when no cell reaches it. The
      temperature range runs over the columns that hold such a cell, the
      stress range over the rows. */
  function LevelBox(grid: seq<seq<real>>, tAxis: seq<real>, sAxis: seq<real>, lev: real, p: real)
    : (r: Option<LevelRange>)
    requires Rectangular(grid, |tAxis|) && |grid| == |sAxis|
    ensures r.None? <==> forall j, i :: 0 <= j < |grid| && 0 <= i < |tAxis| ==> grid[j][i] < lev
    ensures r.Some? <==> AnyHit(grid, |tAxis|, lev)
    ensures r.Some? ==> r.value.p == p && r.value.tMin <= r.value.tMax && r.value.sMin <= r.value.sMax
    ensures r.Some? ==> forall j, i :: 0 <= j < |grid| && 0 <= i < |tAxis| && grid[j][i] >= lev ==>
              r.value.tMin <= tAxis[i] <= r.value.tMax && r.value.sMin <= sAxis[j] <= r.value.sMax
  {
    var cols := ColumnFlags(grid, |tAxis|, lev);
    var rows := RowFlags(grid, lev);
    if !AnyHit(grid, |tAxis|, lev) then None
    else
      var j0, i0 :| 0 <= j0 < |grid| && 0 <= i0 < |tAxis| && grid[j0][i0] >= lev;
      assert cols[i0] && rows[j0];
      var tr := Range(tAxis, cols);
      var sr := Range(sAxis, rows);
      assert forall j, i :: 0 <= j < |grid| && 0 <= i < |tAxis| && grid[j][i] >= lev ==> cols[i] && rows[j];
      Some(LevelRange(p, tr.value.0, tr.value.1, sr.value.0, sr.value.1))
  }

  /** `box` is the range line of the `(threshold, level)` pair. */
  predicate BoxOf(grid: seq<seq<real>>, tAxis: seq<real>, sAxis: seq<real>, pair: (real, real), box: LevelRange)
    requires Rectangular(grid, |tAxis|) && |grid| == |sAxis|
  {
    LevelBox(grid, tAxis, sAxis, pair.0, pair.1) == Some(box)
  }

  /** The range line of every pair, `None` where the mask is empty. */
  function Boxes(grid: seq<seq<real>>, tAxis: seq<real>, sAxis: seq<real>, pairs: seq<(real, real)>)
    : (bs: seq<Option<LevelRange>>)
    requires Rectangular(grid, |tAxis|) && |grid| == |sAxis|
    ensures |bs| == |pairs|
    ensures forall i :: 0 <= i < |pairs| ==> bs[i] == LevelBox(grid, tAxis, sAxis, pairs[i].0, pairs[i].1)
  {
    seq(|pairs|, i requires 0 <= i < |pairs| => LevelBox(grid, tAxis, sAxis, pairs[i].0, pairs[i].1))
  }

  /** The range file: one line per `(level, threshold)` pair whose mask is
      not empty, in pair order. */
  function Ranges(grid: seq<seq<real>>, tAxis: seq<real>, sAxis: seq<real>, pairs: seq<(real, real)>)
    : (out: seq<LevelRange>)
    requires Rectangular(grid, |tAxis|) && |grid| == |sAxis|
    ensures |out| <= |pairs|
    ensures forall b :: b in out ==> exists i :: 0 <= i < |pairs| && BoxOf(grid, tAxis, sAxis, pairs[i], b)
  {
    var bs := Boxes(grid, tAxis, sAxis, pairs);
    var out := Somes(bs);
    forall b | b in out
      ensures exists i :: 0 <= i < |pairs| && BoxOf(grid, tAxis, sAxis, pairs[i], b)
    {
      var i :| 0 <= i < |bs| && bs[i] == Some(b);
      assert BoxOf(grid, tAxis, sAxis, pairs[i], b);
    }
    out
  }

  /** Every pair whose mask is not empty gets its line. */
  lemma RangesComplete(grid: seq<seq<real>>, tAxis: seq<real>, sAxis: seq<real>,
                       pairs: seq<(real, real)>, i: nat)
    requires Rectangular(grid, |tAxis|) && |grid| == |sAxis|
    requires i < |pairs| && AnyHit(grid, |tAxis|, pairs[i].0)
    ensures LevelBox(grid, tAxis, sAxis, pairs[i].0, pairs[i].1).Some?
    ensures LevelBox(grid, tAxis, sAxis, pairs[i].0, pairs[i].1).value in Ranges(grid, tAxis, sAxis, pairs)
  {
    var bs := Boxes(grid, tAxis, sAxis, pairs);
    assert bs[i] in bs;
  }
}

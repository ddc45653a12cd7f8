/** `time_bin_aggregate` of stress.py: the escape rows and the species
    rows are cut into common half-open time bins `[tmin + k·bin, ...)`,
    counted and averaged per bin, and the bins holding at least the
    required number of escapes and at least one rate sample are returned in
    ascending order of their centres. */
module TimeBins {
  import opened Wrappers
  import opened Reals
  import opened Sorting
  import opened Species

  /** One escape row as the aggregation sees it: the escape time and the
      two von Mises magnitudes (stress in GPa, virial in kcal/mol). */
  datatype EscPoint = EscPoint(time: real, sigmaGpa: real, virialKcal: real)

  /** One output row: the bin, its escape count and means, its rate count
      and mean. A mean over an empty bin is missing. */
  datatype BinRow = BinRow(
    start: real, end: real, centre: real,
    nEscaped: nat, sigmaMean: Option<real>, virialMean: Option<real>,
    nRate: nat, rateMean: Option<real>)

  /** The optional crop of the final table; both bounds are switched off. */
  const TMinPs: Option<real> := None
  const TMaxPs: Option<real> := None

  // ---------------------------------------------------------------------
  // np.arange

  /** `ceil(x)` for a real `x`. */
  function Ceil(x: real): (c: int)
    ensures x <= c as real < x + 1.0
  {
    -((-x).Floor)
  }

  /** The length of `np.arange(start, stop, step)`: `max(0, ceil((stop - start) / step))`. */
  function ArangeLength(start: real, stop: real, step: real): (n: nat)
    requires step != 0.0
  {
    var c := Ceil((stop - start) / step);
    if c < 0 then 0 else c
  }

  /** With a positive step, every point before the length lies strictly below
      `stop`, and the point at the length does not. */
  lemma ArangeBounds(start: real, stop: real, step: real, k: nat)
    requires step > 0.0
    ensures k < ArangeLength(start, stop, step) ==> start + k as real * step < stop
    ensures start + ArangeLength(start, stop, step) as real * step >= stop
  {
    var x := (stop - start) / step;
    DivMul(stop - start, step);
    if k < ArangeLength(start, stop, step) {
      MulBelow(k as real, x, step);
    }
    var n := ArangeLength(start, stop, step);
    if Ceil(x) < 0 {
      assert x < 0.0;
      MulBelow(x, 0.0, step);
    } else {
      MulAtLeast(n as real, x, step);
    }
  }

  lemma DivMul(a: real, b: real)
    requires b != 0.0
    ensures a / b * b == a
  {
  }

  lemma MulBelow(a: real, b: real, c: real)
    requires a < b && c > 0.0
    ensures a * c < b * c
  {
  }

  lemma MulAtLeast(a: real, b: real, c: real)
    requires a >= b && c > 0.0
    ensures a * c >= b * c
  {
  }

  /** `np.arange(start, stop, step)` computed exactly; a zero step raises. */
  function Arange(start: real, stop: real, step: real): (r: Option<seq<real>>)
    ensures r.None? <==> step == 0.0
    ensures r.Some? ==> |r.value| == ArangeLength(start, stop, step)
    ensures r.Some? ==> forall k :: 0 <= k < |r.value| ==> r.value[k] == start + k as real * step
    ensures step > 0.0 ==> forall k :: 0 <= k < |r.value| ==> r.value[k] < stop
  {
    if step == 0.0 then None
    else
      var n := ArangeLength(start, stop, step);
      var e := seq(n, k requires 0 <= k < n => start + k as real * step);
      assert step > 0.0 ==> forall k :: 0 <= k < n ==> e[k] < stop by {
        if step > 0.0 {
          forall k | 0 <= k < n ensures e[k] < stop {
            ArangeBounds(start, stop, step, k);
          }
        }
      }
      Some(e)
  }

  /** Points a positive step apart ascend strictly. */
  lemma StepsAscending(e: seq<real>, start: real, step: real)
    requires step > 0.0 && forall k :: 0 <= k < |e| ==> e[k] == start + k as real * step
    ensures StrictlyAscending(e)
  {
    forall i, j | 0 <= i < j < |e| ensures e[i] < e[j] {
      StepBelow(i as real, j as real, step);
    }
  }

  lemma StepBelow(a: real, b: real, c: real)
    requires a < b && c > 0.0
    ensures a * c < b * c
  {
  }

  // ---------------------------------------------------------------------
  // Bin edges

  /** A negative step leaves `np.arange(tmin, tmax + step/2, step)` with
      fewer than two points, since its stop lies below `tmin + step`. */
  lemma NegativeStepShort(tmin: real, tmax: real, bin: real)
    requires tmin < tmax && bin < 0.0
    ensures ArangeLength(tmin, tmax + bin * 0.5, bin) < 2
  {
    HalfStepQuotient(tmax - tmin, bin);
    assert tmax + bin * 0.5 - tmin == tmax - tmin + bin * 0.5;
    NegativeQuotient(tmax - tmin, bin);
  }

  lemma HalfStepQuotient(d: real, b: real)
    requires b != 0.0
    ensures (d + b * 0.5) / b == d / b + 0.5
  {
    DivMul(d, b);
    assert (d / b + 0.5) * b == d + b * 0.5;
    DivUnique(d + b * 0.5, b, d / b + 0.5);
  }

  lemma DivUnique(w: real, b: real, z: real)
    requires b != 0.0 && z * b == w
    ensures w / b == z
  {
  }

  lemma NegativeQuotient(a: real, b: real)
    requires a > 0.0 && b < 0.0
    ensures a / b < 0.0
  {
  }

  /** `edges = np.arange(tmin, tmax + bin/2, bin)`, replaced by
      `[tmin, tmax]` when it has fewer than two points; a zero width raises. */
  function Edges(tmin: real, tmax: real, bin: real): (r: Option<seq<real>>)
    requires tmin < tmax
    ensures r.None? <==> bin == 0.0
    ensures r.Some? ==> |r.value| >= 2 && r.value[0] == tmin && StrictlyAscending(r.value)
    ensures bin < 0.0 ==> r == Some([tmin, tmax])
    ensures bin > 0.0 && ArangeLength(tmin, tmax + bin * 0.5, bin) < 2 ==> r == Some([tmin, tmax])
    ensures bin > 0.0 && ArangeLength(tmin, tmax + bin * 0.5, bin) >= 2 ==>
      && |r.value| == ArangeLength(tmin, tmax + bin * 0.5, bin)
      && (forall k :: 0 <= k < |r.value| ==> r.value[k] == tmin + k as real * bin)
      && (forall k :: 0 <= k < |r.value| ==> r.value[k] < tmax + bin * 0.5)
  {
    var a := Arange(tmin, tmax + bin * 0.5, bin);
    if a.None? then None
    else if |a.value| < 2 then Some([tmin, tmax])
    else
      var e := a.value;
      assert bin < 0.0 ==> false by {
        if bin < 0.0 {
          NegativeStepShort(tmin, tmax, bin);
        }
      }
      StepsAscending(e, tmin, bin);
      Some(e)
  }

  /** The last time of the span need not reach a bin: with `tmin = 0`,
      `tmax = 3` and a width of 2 the edges are `[0, 2]`, so every time in
      `[2, 3]`, the latest included, is dropped. */
  lemma LatestTimeMayBeUnbinned()
    ensures Edges(0.0, 3.0, 2.0) == Some([0.0, 2.0])
  {
    assert Ceil(2.0) == 2;
    assert ArangeLength(0.0, 3.0 + 2.0 * 0.5, 2.0) == 2;
    var a := Arange(0.0, 3.0 + 2.0 * 0.5, 2.0).value;
    assert a[0] == 0.0 && a[1] == 2.0;
    assert a == [0.0, 2.0];
  }

  // ---------------------------------------------------------------------
  // Half-open bins

  function EscTime(p: EscPoint): real { p.time }
  function EscSigma(p: EscPoint): real { p.sigmaGpa }
  function EscVirial(p: EscPoint): real { p.virialKcal }
  function RateTime(r: SpeciesRow): real { r.timePs }
  function RateValue(r: SpeciesRow): real { r.rate }
  function Centre(b: BinRow): real { b.centre }

  /** The rows whose time lies in `[lo, hi)`, in order: `pd.cut(...,
      right=False)` followed by selecting one category. */
  function InBin<T(!new)>(s: seq<T>, time: T -> real, lo: real, hi: real): (r: seq<T>)
    ensures |r| <= |s|
    ensures forall x :: x in r <==> x in s && lo <= time(x) < hi
  {
    if |s| == 0 then []
    else
      var rest := InBin(s[..|s| - 1], time, lo, hi);
      var x := s[|s| - 1];
      assert forall y :: y in s <==> y in s[..|s| - 1] || y == x by {
        assert s == s[..|s| - 1] + [x];
      }
      if lo <= time(x) < hi then rest + [x] else rest
  }

  /** An empty or reversed interval holds nothing. */
  lemma EmptyBin<T(!new)>(s: seq<T>, time: T -> real, lo: real, hi: real)
    requires hi <= lo
    ensures |InBin(s, time, lo, hi)| == 0
  {
  }

  /** Splitting `[lo, hi)` at `mid` splits its count. */
  lemma {:induction false} SplitBin<T(!new)>(s: seq<T>, time: T -> real, lo: real, mid: real, hi: real)
    requires lo <= mid <= hi
    ensures |InBin(s, time, lo, mid)| + |InBin(s, time, mid, hi)| == |InBin(s, time, lo, hi)|
  {
    if |s| > 0 {
      SplitBin(s[..|s| - 1], time, lo, mid, hi);
    }
  }

  /** Bin `j` of the edges holds the time `t`. */
  predicate InBinAt(edges: seq<real>, j: int, t: real)
  {
    0 <= j < |edges| - 1 && edges[j] <= t < edges[j + 1]
  }

  /** A time lies in some bin exactly when it is at least the first edge
      and below the last one. */
  lemma {:induction false} SomeBin(edges: seq<real>, t: real)
    requires |edges| >= 2 && StrictlyAscending(edges)
    ensures (exists j :: InBinAt(edges, j, t)) <==> edges[0] <= t < edges[|edges| - 1]
  {
    var n := |edges|;
    if edges[0] <= t < edges[n - 1] {
      if n > 2 && edges[n - 2] > t {
        var init := edges[..n - 1];
        SomeBin(init, t);
        var j :| InBinAt(init, j, t);
        assert InBinAt(edges, j, t);
      } else {
        assert InBinAt(edges, n - 2, t);
      }
    } else {
      forall j | 0 <= j < n - 1 ensures !InBinAt(edges, j, t) {
        assert edges[0] <= edges[j] && edges[j + 1] <= edges[n - 1];
      }
    }
  }

  /** With strictly ascending edges, no time lies in two bins. */
  lemma OneBin(edges: seq<real>, t: real, i: int, j: int)
    requires StrictlyAscending(edges)
    requires InBinAt(edges, i, t) && InBinAt(edges, j, t)
    ensures i == j
  {
  }

  // ---------------------------------------------------------------------
  // Per-bin statistics

  /** pandas `mean` of a column over some rows: missing for no rows. */
  function MeanOf<T>(s: seq<T>, f: T -> real): (m: Option<real>)
    ensures m.None? <==> |s| == 0
  {
    if |s| == 0 then None else Some(Mean(seq(|s|, i requires 0 <= i < |s| => f(s[i]))))
  }

  /** A present mean lies between the smallest and largest value averaged. */
  lemma MeanOfWithin<T>(s: seq<T>, f: T -> real, lo: real, hi: real)
    requires forall x :: x in s ==> lo <= f(x) <= hi
    ensures MeanOf(s, f).Some? ==> lo <= MeanOf(s, f).value <= hi
  {
    if |s| > 0 {
      var v := seq(|s|, i requires 0 <= i < |s| => f(s[i]));
      assert forall i :: 0 <= i < |v| ==> lo <= v[i] <= hi by {
        forall i | 0 <= i < |v| ensures lo <= v[i] <= hi {
          assert s[i] in s;
        }
      }
      MeanBounds(v, lo, hi);
    }
  }

  /** The joined row of one bin `[lo, hi)`. */
  function BinOf(esc: seq<EscPoint>, sp: seq<SpeciesRow>, lo: real, hi: real): (b: BinRow)
    ensures b.start == lo && b.end == hi
    ensures lo <= hi ==> lo <= b.centre <= hi
    ensures b.nEscaped == |InBin(esc, EscTime, lo, hi)| && b.nRate == |InBin(sp, RateTime, lo, hi)|
    ensures b.sigmaMean == MeanOf(InBin(esc, EscTime, lo, hi), EscSigma)
    ensures b.virialMean == MeanOf(InBin(esc, EscTime, lo, hi), EscVirial)
    ensures b.rateMean == MeanOf(InBin(sp, RateTime, lo, hi), RateValue)
  {
    var e := InBin(esc, EscTime, lo, hi);
    var r := InBin(sp, RateTime, lo, hi);
    BinRow(lo, hi, 0.5 * (lo + hi), |e|, MeanOf(e, EscSigma), MeanOf(e, EscVirial), |r|, MeanOf(r, RateValue))
  }

  /** `g_e.join(g_r, how='outer')`: one row per bin, in edge order. */
  function BinRows(esc: seq<EscPoint>, sp: seq<SpeciesRow>, edges: seq<real>): (rows: seq<BinRow>)
    requires |edges| >= 1
    ensures |rows| == |edges| - 1
    ensures forall j :: 0 <= j < |rows| ==> rows[j] == BinOf(esc, sp, edges[j], edges[j + 1])
    decreases |edges|
  {
    if |edges| == 1 then []
    else [BinOf(esc, sp, edges[0], edges[1])] + BinRows(esc, sp, edges[1..])
  }

  function SumEscaped(rows: seq<BinRow>): nat
  {
    if |rows| == 0 then 0 else rows[0].nEscaped + SumEscaped(rows[1..])
  }

  /** Over all bins, every escape between the first and the last edge is
      counted once and no other escape is counted. */
  lemma {:induction false} EscapesCountedOnce(esc: seq<EscPoint>, sp: seq<SpeciesRow>, edges: seq<real>)
    requires |edges| >= 1 && Ascending(edges)
    ensures SumEscaped(BinRows(esc, sp, edges)) == |InBin(esc, EscTime, edges[0], edges[|edges| - 1])|
    decreases |edges|
  {
    if |edges| == 1 {
      EmptyBin(esc, EscTime, edges[0], edges[0]);
    } else {
      EscapesCountedOnce(esc, sp, edges[1..]);
      SplitBin(esc, EscTime, edges[0], edges[1], edges[|edges| - 1]);
    }
  }

  // ---------------------------------------------------------------------
  // Filter, order, crop

  predicate Keep(b: BinRow, minEscapes: int)
  {
    b.nEscaped >= minEscapes && b.nRate > 0
  }

  /** `merged[(n_escaped >= min_escapes) & (n_rate_samples > 0)]`. */
  function KeepRows(rows: seq<BinRow>, minEscapes: int): (r: seq<BinRow>)
    ensures |r| <= |rows|
    ensures forall b :: b in r <==> b in rows && Keep(b, minEscapes)
    ensures StrictlyAscending(Keys(rows, Centre)) ==> StrictlyAscending(Keys(r, Centre))
  {
    var r := Select(rows, (b: BinRow) => Keep(b, minEscapes));
    if StrictlyAscending(Keys(rows, Centre)) then
      SelectAscending(rows, (b: BinRow) => Keep(b, minEscapes), Centre);
      r
    else r
  }

  /** The bins of strictly ascending edges have strictly ascending centres. */
  lemma CentresAscending(esc: seq<EscPoint>, sp: seq<SpeciesRow>, edges: seq<real>)
    requires |edges| >= 1 && StrictlyAscending(edges)
    ensures StrictlyAscending(Keys(BinRows(esc, sp, edges), Centre))
  {
    var rows := BinRows(esc, sp, edges);
    forall i, j | 0 <= i < j < |rows| ensures rows[i].centre < rows[j].centre {
      assert edges[i] < edges[j] && edges[i + 1] <= edges[j + 1];
    }
  }

  /** A time crop on the bin centres; a missing bound does not limit its side. */
  function Crop(rows: seq<BinRow>, lo: Option<real>, hi: Option<real>): (r: seq<BinRow>)
    ensures |r| <= |rows|
    ensures forall b :: b in r <==> b in rows && (lo.None? || lo.value <= b.centre) && (hi.None? || b.centre <= hi.value)
  {
    if |rows| == 0 then []
    else
      var init := rows[..|rows| - 1];
      var x := rows[|rows| - 1];
      var rest := Crop(init, lo, hi);
      assert forall y :: y in rows <==> y in init || y == x by {
        assert rows == init + [x];
      }
      if (lo.None? || lo.value <= x.centre) && (hi.None? || x.centre <= hi.value) then rest + [x] else rest
  }

  /** Without bounds the crop keeps the table as it is. */
  lemma {:induction false} CropUnbounded(rows: seq<BinRow>)
    ensures Crop(rows, None, None) == rows
  {
    if |rows| > 0 {
      CropUnbounded(rows[..|rows| - 1]);
      assert rows == rows[..|rows| - 1] + [rows[|rows| - 1]];
    }
  }

  // ---------------------------------------------------------------------
  // The aggregation

  function AllTimes(esc: seq<EscPoint>, sp: seq<SpeciesRow>): (t: seq<real>)
    ensures |t| == |esc| + |sp|
  {
    Keys(esc, EscTime) + Keys(sp, RateTime)
  }

  /** Both inputs together span a positive time range. */
  predicate SpanOk(esc: seq<EscPoint>, sp: seq<SpeciesRow>)
  {
    var t := AllTimes(esc, sp);
    |t| > 0 && MinOf(t) < MaxOf(t)
  }

  /** `rows` is the table of the bins of `edges`: in strictly ascending
      centre order, so each bin at most once, and holding exactly the bins
      `[edges[j], edges[j + 1])` that pass the filter. */
  ghost predicate BinnedBy(esc: seq<EscPoint>, sp: seq<SpeciesRow>, edges: seq<real>, minEscapes: int, rows: seq<BinRow>)
  {
    && StrictlyAscending(Keys(rows, Centre))
    && forall b :: b in rows <==>
         Keep(b, minEscapes) && exists j :: 0 <= j < |edges| - 1 && b == BinOf(esc, sp, edges[j], edges[j + 1])
  }

  /** The rows kept from the bins of `edges`, in ascending centre order. */
  function BinTable(esc: seq<EscPoint>, sp: seq<SpeciesRow>, edges: seq<real>, minEscapes: int): (r: seq<BinRow>)
    requires |edges| >= 2 && StrictlyAscending(edges)
    ensures BinnedBy(esc, sp, edges, minEscapes, r)
    ensures forall b :: b in r ==> BinFacts(esc, sp, edges, b)
  {
    var rows := BinRows(esc, sp, edges);
    RowsWithinEdges(esc, sp, edges);
    CentresAscending(esc, sp, edges);
    BinRowsMembers(esc, sp, edges);
    var kept := KeepRows(rows, minEscapes);
    KeptInOrder(rows, minEscapes);
    CropUnbounded(kept);
    Crop(SortBy(kept, Centre), TMinPs, TMaxPs)
  }

  /** The bins are those of consecutive edges. */
  lemma BinRowsMembers(esc: seq<EscPoint>, sp: seq<SpeciesRow>, edges: seq<real>)
    requires |edges| >= 1
    ensures forall b :: b in BinRows(esc, sp, edges) <==>
              exists j :: 0 <= j < |edges| - 1 && b == BinOf(esc, sp, edges[j], edges[j + 1])
  {
    var rows := BinRows(esc, sp, edges);
    forall b ensures b in rows <==> exists j :: 0 <= j < |edges| - 1 && b == BinOf(esc, sp, edges[j], edges[j + 1]) {
      if b in rows {
        var j :| 0 <= j < |rows| && rows[j] == b;
        assert b == BinOf(esc, sp, edges[j], edges[j + 1]);
      }
      if exists j :: 0 <= j < |edges| - 1 && b == BinOf(esc, sp, edges[j], edges[j + 1]) {
        var j :| 0 <= j < |edges| - 1 && b == BinOf(esc, sp, edges[j], edges[j + 1]);
        assert rows[j] == b;
      }
    }
  }

  /** The kept bins are already in centre order, so sorting them by centre
      changes nothing. */
  lemma KeptInOrder(rows: seq<BinRow>, minEscapes: int)
    requires StrictlyAscending(Keys(rows, Centre))
    ensures SortBy(KeepRows(rows, minEscapes), Centre) == KeepRows(rows, minEscapes)
  {
    var kept := KeepRows(rows, minEscapes);
    assert SortedBy(kept, Centre) by {
      forall i, j | 0 <= i < j < |kept| ensures Centre(kept[i]) <= Centre(kept[j]) {
        assert Keys(kept, Centre)[i] < Keys(kept, Centre)[j];
      }
    }
    SortBySorted(kept, Centre);
  }

  /** Every bin lies within the edges, has a positive width, and counts
      the rows of each input that fall in it. */
  lemma RowsWithinEdges(esc: seq<EscPoint>, sp: seq<SpeciesRow>, edges: seq<real>)
    requires |edges| >= 2 && StrictlyAscending(edges)
    ensures forall b :: b in BinRows(esc, sp, edges) ==> BinFacts(esc, sp, edges, b)
  {
    var rows := BinRows(esc, sp, edges);
    forall b | b in rows ensures BinFacts(esc, sp, edges, b) {
      var j :| 0 <= j < |rows| && rows[j] == b;
      assert edges[0] <= edges[j] && edges[j + 1] <= edges[|edges| - 1];
    }
  }

  predicate BinFacts(esc: seq<EscPoint>, sp: seq<SpeciesRow>, edges: seq<real>, b: BinRow)
    requires |edges| >= 2
  {
    && edges[0] <= b.start < b.end <= edges[|edges| - 1]
    && b.nEscaped == |InBin(esc, EscTime, b.start, b.end)|
    && b.nRate == |InBin(sp, RateTime, b.start, b.end)|
  }

  lemma SameMembers<T>(a: seq<T>, b: seq<T>)
    requires multiset(a) == multiset(b)
    ensures forall x :: x in b <==> x in a
  {
    forall x ensures x in b <==> x in a {
      assert x in b <==> x in multiset(b);
      assert x in a <==> x in multiset(a);
    }
  }

  /** `time_bin_aggregate`. An empty data frame for either input has no
      time column, so once the span is positive it raises, as does a zero
      bin width. */
  function Aggregate(esc: seq<EscPoint>, sp: seq<SpeciesRow>, bin: real, minEscapes: int): (r: Result<seq<BinRow>>)
    ensures !SpanOk(esc, sp) ==> r == Success([])
    ensures r.Failure? <==> SpanOk(esc, sp) && (bin == 0.0 || |esc| == 0 || |sp| == 0)
    ensures r.Success? && SpanOk(esc, sp) ==>
              var t := AllTimes(esc, sp);
              var edges := Edges(MinOf(t), MaxOf(t), bin);
              edges.Some? && BinnedBy(esc, sp, edges.value, minEscapes, r.value)
    ensures r.Success? ==> forall b :: b in r.value ==>
              && MinOf(AllTimes(esc, sp)) <= b.start < b.end
              && b.nEscaped == |InBin(esc, EscTime, b.start, b.end)|
              && b.nRate == |InBin(sp, RateTime, b.start, b.end)|
  {
    if !SpanOk(esc, sp) then Success([])
    else
      var t := AllTimes(esc, sp);
      var edges := Edges(MinOf(t), MaxOf(t), bin);
      if edges.None? then Failure("arange: zero step")
      else if |esc| == 0 then Failure("KeyError: 'escape_time_ps'")
      else if |sp| == 0 then Failure("KeyError: 'time_ps'")
      else Success(BinTable(esc, sp, edges.value, minEscapes))
  }
}

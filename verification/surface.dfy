/** `robust_top_surface_z` of find_out_c.py and ovito_filter_dump.py: the
    height of the top surface of the graphite sheet, estimated from the
    carbon heights as a high percentile of the atoms near the most
    populated height. The percentile follows NumPy's default (linear)
    method, with exact arithmetic. */
module Surface {
  import opened Wrappers
  import opened Reals
  import opened Sorting

  // ---------------------------------------------------------------------
  // np.percentile

  /** The fraction `f` of a length `w`. */
  function Part(f: real, w: real): real
  {
    f * w
  }

  lemma PartBounds(f: real, w: real)
    requires 0.0 <= f <= 1.0 && w >= 0.0
    ensures 0.0 <= Part(f, w) <= w
  {
    assert f * w <= 1.0 * w;
  }

  /** NumPy's `_lerp`: the point a fraction `f` of the way from `a` to
      `b`. */
  function Lerp(a: real, b: real, f: real): real
  {
    a + Part(f, b - a)
  }

  /** For `0 ≤ f ≤ 1` the point lies between the two ends. */
  lemma LerpBounds(a: real, b: real, f: real)
    requires a <= b && 0.0 <= f <= 1.0
    ensures a <= Lerp(a, b, f) <= b
  {
    PartBounds(f, b - a);
  }

  /** The virtual index `(n − 1)·q/100` of the linear method lies in
      `[0, n − 1]`. */
  lemma VirtualIndexBounds(m: real, q: real)
    requires m >= 0.0 && 0.0 <= q <= 100.0
    ensures 0.0 <= m * q / 100.0 <= m
  {
    assert m * q <= m * 100.0;
  }

  /** Every entry of a sorted copy lies between the minimum and the
      maximum of the original. */
  lemma SortedWithin(s: seq<real>, t: seq<real>, i: nat)
    requires |s| > 0 && multiset(t) == multiset(s) && i < |t|
    ensures MinOf(s) <= t[i] <= MaxOf(s)
  {
    assert t[i] in multiset(s);
  }

  /** The virtual index `(n − 1)·q/100` of the linear method. */
  function VirtualIndex(n: nat, q: real): (h: real)
    requires n > 0 && 0.0 <= q <= 100.0
    ensures 0.0 <= h <= (n - 1) as real
  {
    VirtualIndexBounds((n - 1) as real, q);
    (n - 1) as real * q / 100.0
  }

  lemma FloorBounds(h: real, m: nat)
    requires 0.0 <= h <= m as real
    ensures 0 <= h.Floor <= m
    ensures h.Floor as real <= h < h.Floor as real + 1.0
  {
  }

  /** The sorted values `t` read at the virtual index `h`: the entry below
      it, plus the fraction of the step to the next entry. */
  function Interpolate(s: seq<real>, t: seq<real>, h: real): (r: real)
    requires |s| > 0 && |t| == |s| && multiset(t) == multiset(s) && Ascending(t)
    requires 0.0 <= h <= (|s| - 1) as real
    ensures MinOf(s) <= r <= MaxOf(s)
  {
    FloorBounds(h, |s| - 1);
    var k := h.Floor;
    SortedWithin(s, t, k);
    if k == |s| - 1 then t[k]
    else
      SortedWithin(s, t, k + 1);
      LerpBounds(t[k], t[k + 1], h - k as real);
      Lerp(t[k], t[k + 1], h - k as real)
  }

  /** `np.percentile(s, q)`: the sorted values interpolated linearly at
      the virtual index `(n − 1)·q/100`. */
  function Percentile(s: seq<real>, q: real): (r: real)
    requires |s| > 0 && 0.0 <= q <= 100.0
    ensures MinOf(s) <= r <= MaxOf(s)
  {
    Interpolate(s, SortReals(s), VirtualIndex(|s|, q))
  }

  /** The first entry of a sorted copy is the minimum, the last the
      maximum. */
  lemma SortedEnds(s: seq<real>)
    requires |s| > 0
    ensures SortReals(s)[0] == MinOf(s)
    ensures SortReals(s)[|s| - 1] == MaxOf(s)
  {
    SortedCopyEnds(s, SortReals(s));
  }

  lemma SortedCopyEnds(s: seq<real>, t: seq<real>)
    requires |s| > 0 && |t| == |s| && multiset(t) == multiset(s) && Ascending(t)
    ensures t[0] == MinOf(s) && t[|s| - 1] == MaxOf(s)
  {
    assert MinOf(s) in multiset(t) && MaxOf(s) in multiset(t);
    var i :| 0 <= i < |t| && t[i] == MinOf(s);
    var j :| 0 <= j < |t| && t[j] == MaxOf(s);
    assert t[0] <= t[i] && t[j] <= t[|s| - 1];
    SortedWithin(s, t, 0);
    SortedWithin(s, t, |s| - 1);
  }

  /** The 0th percentile is the minimum and the 100th the maximum. */
  lemma PercentileEnds(s: seq<real>)
    requires |s| > 0
    ensures Percentile(s, 0.0) == MinOf(s)
    ensures Percentile(s, 100.0) == MaxOf(s)
  {
    SortedEnds(s);
    var n := |s|;
    assert ((n - 1) as real * 100.0 / 100.0).Floor == n - 1;
  }

  // ---------------------------------------------------------------------
  // np.histogram with 120 equal bins

  const HistBins: nat := 120

  /** The histogram range: the data's extent, widened by 0.5 on each side
      when all values are equal. */
  function HistRange(z: seq<real>): (r: (real, real))
    requires |z| > 0
    ensures r.0 < r.1
    ensures forall i :: 0 <= i < |z| ==> r.0 <= z[i] <= r.1
  {
    if MinOf(z) == MaxOf(z) then (MinOf(z) - 0.5, MaxOf(z) + 0.5) else (MinOf(z), MaxOf(z))
  }

  /** Edge `k` of the bins over `[lo, hi]`. */
  function Edge(lo: real, hi: real, k: nat): real
  {
    lo + k as real * (hi - lo) / 120.0
  }

  lemma ScaledIndex(x: real, lo: real, hi: real)
    requires lo < hi && lo <= x < hi
    ensures 0.0 <= (x - lo) * HistBins as real / (hi - lo) < HistBins as real
  {
    assert (x - lo) * HistBins as real < (hi - lo) * HistBins as real;
  }

  /** The bin of `x`: bins are half-open except the last, which also
      holds `hi`. */
  function BinOf(x: real, lo: real, hi: real): (b: nat)
    requires lo < hi && lo <= x <= hi
    ensures b < HistBins
  {
    if x == hi then HistBins - 1
    else
      ScaledIndex(x, lo, hi);
      ((x - lo) * HistBins as real / (hi - lo)).Floor
  }

  /** The values that fall in bin `b`. */
  function Count(z: seq<real>, lo: real, hi: real, b: nat): (c: nat)
    requires lo < hi && forall i :: 0 <= i < |z| ==> lo <= z[i] <= hi
    ensures c <= |z|
  {
    if |z| == 0 then 0
    else
      var n := |z| - 1;
      assert forall i :: 0 <= i < n ==> z[..n][i] == z[i];
      Count(z[..n], lo, hi, b) + (if BinOf(z[n], lo, hi) == b then 1 else 0)
  }

  /** `np.argmax(counts)` over the bins `[0, m)`: the first bin with the
      largest count. */
  function ModeBin(z: seq<real>, lo: real, hi: real, m: nat): (b: nat)
    requires lo < hi && forall i :: 0 <= i < |z| ==> lo <= z[i] <= hi
    requires m > 0
    ensures b < m
    ensures forall c :: 0 <= c < m ==> Count(z, lo, hi, c) <= Count(z, lo, hi, b)
    ensures forall c :: 0 <= c < b ==> Count(z, lo, hi, c) < Count(z, lo, hi, b)
  {
    if m == 1 then 0
    else
      var b := ModeBin(z, lo, hi, m - 1);
      if Count(z, lo, hi, m - 1) > Count(z, lo, hi, b) then m - 1 else b
  }

  /** `z_mode`: the centre of the most populated bin. */
  function Mode(z: seq<real>): (mode: real)
    requires |z| > 0
    ensures HistRange(z).0 <= mode <= HistRange(z).1
  {
    var (lo, hi) := HistRange(z);
    var b := ModeBin(z, lo, hi, HistBins);
    EdgeWithin(lo, hi, b);
    EdgeWithin(lo, hi, b + 1);
    0.5 * (Edge(lo, hi, b) + Edge(lo, hi, b + 1))
  }

  lemma EdgeWithin(lo: real, hi: real, k: nat)
    requires lo < hi && k <= HistBins
    ensures lo <= Edge(lo, hi, k) <= hi
  {
    PartOf(k as real, hi - lo);
  }

  lemma PartOf(k: real, w: real)
    requires 0.0 <= k <= 120.0 && w > 0.0
    ensures 0.0 <= k * w / 120.0 <= w
  {
    assert k * w <= 120.0 * w;
  }

  /** `core`: the values within `width` of the mode, both ends included. */
  function Core(z: seq<real>, mode: real, width: real): (core: seq<real>)
    ensures |core| <= |z|
    ensures forall x :: x in core <==> x in z && -width <= x - mode <= width
  {
    Select(z, x => -width <= x - mode <= width)
  }

  lemma MinOfSubset(core: seq<real>, z: seq<real>)
    requires |core| > 0 && |z| > 0 && forall x :: x in core ==> x in z
    ensures MinOf(z) <= MinOf(core) && MaxOf(core) <= MaxOf(z)
  {
    var lo :| 0 <= lo < |core| && core[lo] == MinOf(core);
    var hi :| 0 <= hi < |core| && core[hi] == MaxOf(core);
    assert core[lo] in z && core[hi] in z;
  }

  /** The surface estimate and the mode: the 75th percentile of all
      values when fewer than ten lie in the core, else the 95th percentile
      of the core. `None` stands for an empty input. */
  function TopSurface(z: seq<real>, width: real): (r: Option<(real, real)>)
    ensures r.None? <==> |z| == 0
    ensures r.Some? ==> MinOf(z) <= r.value.0 <= MaxOf(z)
    ensures r.Some? ==> r.value.1 == Mode(z)
    ensures r.Some? && |Core(z, Mode(z), width)| < 10 ==> r.value.0 == Percentile(z, 75.0)
    ensures r.Some? && |Core(z, Mode(z), width)| >= 10 ==>
              r.value.0 == Percentile(Core(z, Mode(z), width), 95.0)
  {
    if |z| == 0 then None
    else
      var mode := Mode(z);
      var core := Core(z, mode, width);
      if |core| < 10 then Some((Percentile(z, 75.0), mode))
      else
        MinOfSubset(core, z);
        Some((Percentile(core, 95.0), mode))
  }
}

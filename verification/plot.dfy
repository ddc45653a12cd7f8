/** The numeric helpers of plot.py: the coefficient of determination of a
    fit, the optional time crop, the stress-unit scale and the optional
    stress filter. */
module Plot {
  import opened Wrappers
  import opened Reals
  import opened Sorting

  // ---------------------------------------------------------------------
  // r2_score

  /** A product, kept behind a name so that the solver reasons about its
      sign from the lemma below rather than from the square itself. */
  function Product(a: real, b: real): real
  {
    a * b
  }

  lemma ProductSign(a: real, b: real)
    ensures (a > 0.0 && b > 0.0) || (a < 0.0 && b < 0.0) ==> Product(a, b) > 0.0
    ensures a == 0.0 || b == 0.0 ==> Product(a, b) == 0.0
  {
  }

  /** `d**2`. */
  function Sq(x: real): real
  {
    Product(x, x)
  }

  lemma SqNonneg(x: real)
    ensures Sq(x) >= 0.0
    ensures Sq(x) == 0.0 <==> x == 0.0
  {
    ProductSign(x, x);
  }

  /** `np.sum(d**2)`. */
  function SumSq(d: seq<real>): real
  {
    if |d| == 0 then 0.0 else SumSq(d[..|d| - 1]) + Sq(d[|d| - 1])
  }

  /** A sum of squares is never negative, and it is zero exactly when every
      term is. */
  lemma {:induction false} SumSqZero(d: seq<real>)
    ensures SumSq(d) >= 0.0
    ensures SumSq(d) == 0.0 <==> forall i :: 0 <= i < |d| ==> d[i] == 0.0
  {
    if |d| > 0 {
      var n := |d| - 1;
      SumSqZero(d[..n]);
      SqNonneg(d[n]);
      assert forall i :: 0 <= i < n ==> d[..n][i] == d[i];
    }
  }

  /** `y_true − y_pred`, element by element. */
  function Residuals(yTrue: seq<real>, yPred: seq<real>): (d: seq<real>)
    requires |yTrue| == |yPred|
    ensures |d| == |yTrue| && forall i :: 0 <= i < |d| ==> d[i] == yTrue[i] - yPred[i]
  {
    seq(|yTrue|, i requires 0 <= i < |yTrue| => yTrue[i] - yPred[i])
  }

  /** `y − mean(y)`; for no values, nothing. */
  function Deviations(y: seq<real>): (d: seq<real>)
    ensures |d| == |y|
    ensures |y| > 0 ==> forall i :: 0 <= i < |d| ==> d[i] == y[i] - Mean(y)
  {
    if |y| == 0 then [] else seq(|y|, i requires 0 <= i < |y| => y[i] - Mean(y))
  }

  /** The share `a/b` of a positive total. */
  function Ratio(a: real, b: real): real
    requires b > 0.0
  {
    a / b
  }

  lemma RatioBounds(a: real, b: real)
    requires b > 0.0
    ensures a >= 0.0 ==> Ratio(a, b) >= 0.0
    ensures Ratio(a, b) == 0.0 <==> a == 0.0
  {
  }

  /** `r2_score`: `1 − ss_res/ss_tot` when `ss_tot > 0`, else NaN (`None`).
      An empty input has a NaN mean in NumPy, so it also gives NaN. */
  function R2(yTrue: seq<real>, yPred: seq<real>): (r: Option<real>)
    requires |yTrue| == |yPred|
    ensures r.None? <==> SumSq(Deviations(yTrue)) <= 0.0
    ensures r.Some? ==> r.value <= 1.0
    ensures r.Some? ==> (r.value == 1.0 <==> forall i :: 0 <= i < |yTrue| ==> yPred[i] == yTrue[i])
  {
    var ssRes := SumSq(Residuals(yTrue, yPred));
    var ssTot := SumSq(Deviations(yTrue));
    if ssTot > 0.0 then
      SumSqZero(Residuals(yTrue, yPred));
      RatioBounds(ssRes, ssTot);
      Some(1.0 - Ratio(ssRes, ssTot))
    else None
  }

  /** `ss_tot` vanishes exactly when every value equals the mean: a
      constant series has no R². */
  lemma NoSpread(y: seq<real>)
    requires |y| > 0
    ensures SumSq(Deviations(y)) == 0.0 <==> forall i :: 0 <= i < |y| ==> y[i] == Mean(y)
  {
    SumSqZero(Deviations(y));
  }

  /** Perfect predictions of a series that is not constant score exactly 1. */
  lemma PerfectFit(y: seq<real>)
    requires SumSq(Deviations(y)) > 0.0
    ensures R2(y, y) == Some(1.0)
  {
  }

  // ---------------------------------------------------------------------
  // _apply_time_crop and the stress filter

  /** Within the given ends, both included; a missing end is no limit. */
  predicate Between(x: real, lo: Option<real>, hi: Option<real>)
  {
    (lo.None? || x >= lo.value) && (hi.None? || x <= hi.value)
  }

  /** `_apply_time_crop`: a missing or empty table comes back as it is;
      otherwise the rows whose `t_center_ps` lies between the ends, in
      order. */
  function TimeCrop<R(!new)>(rows: Option<seq<R>>, time: R -> real, tmin: Option<real>, tmax: Option<real>)
    : (r: Option<seq<R>>)
    ensures rows.None? ==> r.None?
    ensures rows == Some([]) ==> r == Some([])
    ensures rows.Some? ==> r.Some? && |r.value| <= |rows.value|
    ensures rows.Some? ==> forall x :: x in r.value <==> x in rows.value && Between(time(x), tmin, tmax)
  {
    match rows
    case None => None
    case Some(s) => if |s| == 0 then rows else Some(Select(s, x => Between(time(x), tmin, tmax)))
  }

  /** With no ends the crop keeps every row. */
  lemma OpenCrop<R(!new)>(rows: seq<R>, time: R -> real)
    ensures forall x :: x in TimeCrop(Some(rows), time, None, None).value <==> x in rows
  {
  }

  /** `_SCALE`: GPa to the plotting unit. Any other unit stops the script. */
  function UnitScale(unit: string): (r: Option<real>)
    ensures r.Some? <==> unit in {"GPa", "MPa", "kPa"}
    ensures r.Some? ==> r.value >= 1.0
    ensures unit == "GPa" ==> r == Some(1.0)
    ensures unit == "MPa" ==> r == Some(1000.0)
    ensures unit == "kPa" ==> r == Some(1000000.0)
  {
    if unit == "GPa" then Some(1.0)
    else if unit == "MPa" then Some(1000.0)
    else if unit == "kPa" then Some(1000000.0)
    else None
  }

  /** `sigma_plot`: the stress in the plotting unit. */
  function SigmaPlot(sigmaGpa: real, scale: real): real
  {
    sigmaGpa * scale
  }

  /** Scaling by a positive factor keeps the order of stresses, so the
      rows sorted by stress stay sorted. */
  lemma ScaleMonotone(a: real, b: real, scale: real)
    requires scale > 0.0 && a <= b
    ensures SigmaPlot(a, scale) <= SigmaPlot(b, scale)
  {
    assert (b - a) * scale >= 0.0;
  }

  /** The `X_SIGMA_MIN`/`X_SIGMA_MAX` filter: the rows whose scaled stress
      lies between the ends, both included, in order. */
  function SigmaFilter<R(!new)>(rows: seq<R>, sigma: R -> real, scale: real, lo: Option<real>, hi: Option<real>)
    : (r: seq<R>)
    ensures |r| <= |rows|
    ensures forall x :: x in r <==> x in rows && Between(SigmaPlot(sigma(x), scale), lo, hi)
  {
    Select(rows, x => Between(SigmaPlot(sigma(x), scale), lo, hi))
  }
}

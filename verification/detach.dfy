/** The detached-carbon table of find_out_c.py: in one frame, the carbons
    whose height above the top surface exceeds `D_THRESH_A`, each with its
    position, its height above the surface and the optional per-atom
    columns the frame carries. */
module Detach {
  import opened Wrappers
  import opened Reals
  import opened Sorting
  import opened Surface

  const CarbonType: int := 1
  const DThresh: real := 25.0
  const CoreWidth: real := 5.0
  const FixedLayerMaxId: int := 1500
  const ExtraCols: seq<string> := ["v_MyTemp", "c_MyKE", "vx", "vy", "vz",
                                   "v_s_xx_gpa", "v_s_yy_gpa", "v_s_zz_gpa",
                                   "v_s_xy_gpa", "v_s_xz_gpa", "v_s_yz_gpa"]

  /** The particle arrays of the frame. */
  datatype Particles = Particles(ids: seq<int>, types: seq<int>, x: seq<real>, y: seq<real>,
                                 z: seq<real>, props: map<string, seq<real>>)

  predicate WellFormed(p: Particles)
  {
    var n := |p.ids|;
    |p.types| == n && |p.x| == n && |p.y| == n && |p.z| == n
    && forall c :: c in p.props ==> |p.props[c]| == n
  }

  /** `FRAME_IDX` must name a frame of the trajectory. */
  function CheckFrame(idx: int, numFrames: nat): (r: Result<nat>)
    ensures r.Success? <==> 0 <= idx < numFrames
    ensures r.Success? ==> r.value == idx
  {
    if idx < 0 || idx >= numFrames then Failure("FRAME_IDX out of range") else Success(idx)
  }

  /** The atoms the reference surface is taken from: ids up to
      `FIXED_LAYER_MAX_ID` with the fixed layer, the carbons otherwise. */
  predicate Chosen(p: Particles, fixedLayer: bool, i: nat)
    requires WellFormed(p) && i < |p.ids|
  {
    if fixedLayer then p.ids[i] <= FixedLayerMaxId else p.types[i] == CarbonType
  }

  /** The heights of the chosen atoms among the first `n`, in order. */
  function HeightsWhere(p: Particles, fixedLayer: bool, n: nat): (zs: seq<real>)
    requires WellFormed(p) && n <= |p.ids|
    ensures |zs| <= n
    ensures forall x :: x in zs <==> exists i :: 0 <= i < n && Chosen(p, fixedLayer, i) && p.z[i] == x
  {
    if n == 0 then []
    else
      var front := HeightsWhere(p, fixedLayer, n - 1);
      if Chosen(p, fixedLayer, n - 1) then front + [p.z[n - 1]] else front
  }

  /** The reference surface `(z_top, z_mode)`. With the fixed layer, the
      95th percentile and the median of the heights of ids up to 1500;
      otherwise the robust estimate over the carbons. No chosen atom is an
      error, as NumPy's percentile of nothing is. */
  function Reference(p: Particles, fixedLayer: bool): (r: Result<(real, real)>)
    requires WellFormed(p)
    ensures r.Failure? <==> forall i :: 0 <= i < |p.ids| ==> !Chosen(p, fixedLayer, i)
    ensures r.Success? ==>
              exists i, j :: 0 <= i < |p.ids| && 0 <= j < |p.ids| && Chosen(p, fixedLayer, i)
                             && Chosen(p, fixedLayer, j) && p.z[i] <= r.value.0 <= p.z[j]
    ensures r.Success? ==> |HeightsWhere(p, fixedLayer, |p.ids|)| > 0
    ensures r.Success? && fixedLayer ==>
              r.value == (Percentile(HeightsWhere(p, true, |p.ids|), 95.0),
                          Percentile(HeightsWhere(p, true, |p.ids|), 50.0))
    ensures r.Success? && !fixedLayer ==>
              Some(r.value) == TopSurface(HeightsWhere(p, false, |p.ids|), CoreWidth)
  {
    var zs := HeightsWhere(p, fixedLayer, |p.ids|);
    if |zs| == 0 then
      assert forall i :: 0 <= i < |p.ids| ==> !Chosen(p, fixedLayer, i) by {
        forall i | 0 <= i < |p.ids|
          ensures !Chosen(p, fixedLayer, i)
        {
          assert p.z[i] !in zs;
        }
      }
      Failure(if fixedLayer then "no fixed layer atom" else "no carbon")
    else
      var top := if fixedLayer then Percentile(zs, 95.0) else TopSurface(zs, CoreWidth).value.0;
      var mode := if fixedLayer then Percentile(zs, 50.0) else TopSurface(zs, CoreWidth).value.1;
      assert MinOf(zs) in zs && MaxOf(zs) in zs;
      Success((top, mode))
  }

  /** The optional columns present in the frame, in `EXTRA_COLS` order. */
  function OptNames(props: map<string, seq<real>>): (names: seq<string>)
    ensures forall c :: c in names <==> c in ExtraCols && c in props
    ensures forall i, j :: 0 <= i < j < |names| ==> names[i] != names[j]
  {
    PresentCols(ExtraCols, props)
  }

  function PresentCols(cols: seq<string>, props: map<string, seq<real>>): (names: seq<string>)
    requires forall i, j :: 0 <= i < j < |cols| ==> cols[i] != cols[j]
    ensures forall c :: c in names <==> c in cols && c in props
    ensures forall i, j :: 0 <= i < j < |names| ==> names[i] != names[j]
  {
    if |cols| == 0 then []
    else
      var n := |cols| - 1;
      assert forall c :: c in cols <==> c in cols[..n] || c == cols[n] by {
        assert cols == cols[..n] + [cols[n]];
      }
      var front := PresentCols(cols[..n], props);
      if cols[n] in props then front + [cols[n]] else front
  }

  /** One row of the output file. */
  datatype Row = Row(id: int, x: real, y: real, z: real, dAbove: real, extra: seq<real>)

  /** `det_mask`: a carbon strictly more than `D_THRESH_A` above the
      surface. */
  predicate Detached(p: Particles, zTop: real, i: nat)
    requires WellFormed(p) && i < |p.ids|
  {
    p.types[i] == CarbonType && p.z[i] - zTop > DThresh
  }

  /** `row` is the line of atom `i`. */
  predicate RowOfAtom(p: Particles, zTop: real, names: seq<string>, i: nat, row: Row)
    requires WellFormed(p) && i < |p.ids|
    requires forall c :: c in names ==> c in p.props
  {
    row.id == p.ids[i] && row.x == p.x[i] && row.y == p.y[i] && row.z == p.z[i]
    && row.dAbove == p.z[i] - zTop
    && |row.extra| == |names| && forall k :: 0 <= k < |names| ==> row.extra[k] == p.props[names[k]][i]
  }

  /** The detached atoms among the first `n`, in frame order. */
  function DetachedIndices(p: Particles, zTop: real, n: nat): (idx: seq<nat>)
    requires WellFormed(p) && n <= |p.ids|
    ensures forall k :: 0 <= k < |idx| ==> idx[k] < n && Detached(p, zTop, idx[k])
    ensures forall i :: 0 <= i < n && Detached(p, zTop, i) ==> i in idx
    ensures forall k, m :: 0 <= k < m < |idx| ==> idx[k] < idx[m]
  {
    if n == 0 then []
    else
      var front := DetachedIndices(p, zTop, n - 1);
      if Detached(p, zTop, n - 1) then front + [n - 1] else front
  }

  /** The line of atom `i`. */
  function RowAt(p: Particles, zTop: real, names: seq<string>, i: nat): (row: Row)
    requires WellFormed(p) && i < |p.ids|
    requires forall c :: c in names ==> c in p.props
    ensures RowOfAtom(p, zTop, names, i, row)
  {
    Row(p.ids[i], p.x[i], p.y[i], p.z[i], p.z[i] - zTop,
        seq(|names|, k requires 0 <= k < |names| => p.props[names[k]][i]))
  }

  /** The rows of the detached carbons, one per detached atom and in frame
      order. */
  function DetachedRows(p: Particles, zTop: real, names: seq<string>): (rows: seq<Row>)
    requires WellFormed(p)
    requires forall c :: c in names ==> c in p.props
    ensures |rows| == |DetachedIndices(p, zTop, |p.ids|)|
    ensures forall k :: 0 <= k < |rows| ==>
              RowOfAtom(p, zTop, names, DetachedIndices(p, zTop, |p.ids|)[k], rows[k])
    ensures forall k :: 0 <= k < |rows| ==> rows[k].dAbove > DThresh
  {
    var idx := DetachedIndices(p, zTop, |p.ids|);
    seq(|idx|, k requires 0 <= k < |idx| => RowAt(p, zTop, names, idx[k]))
  }

  /** The column header: the five fixed columns, then the optional ones. */
  function Header(names: seq<string>): (h: seq<string>)
    ensures |h| == 5 + |names| && h[5..] == names
    ensures h[..5] == ["id", "x", "y", "z", "d_above(Å)"]
  {
    ["id", "x", "y", "z", "d_above(Å)"] + names
  }

  /** The whole output: the surface, the header and the rows. */
  datatype Table = Table(zTop: real, zMode: real, header: seq<string>, rows: seq<Row>)

  function FindDetached(numFrames: nat, idx: int, p: Particles, fixedLayer: bool): (r: Result<Table>)
    requires WellFormed(p)
    ensures r.Success? <==> 0 <= idx < numFrames && Reference(p, fixedLayer).Success?
    ensures r.Success? ==> (r.value.zTop, r.value.zMode) == Reference(p, fixedLayer).value
    ensures r.Success? ==> r.value.header == Header(OptNames(p.props))
    ensures r.Success? ==> r.value.rows == DetachedRows(p, r.value.zTop, OptNames(p.props))
  {
    var frame := CheckFrame(idx, numFrames);
    if frame.Failure? then Failure(frame.error)
    else
      var ref := Reference(p, fixedLayer);
      if ref.Failure? then Failure(ref.error)
      else
        var names := OptNames(p.props);
        Success(Table(ref.value.0, ref.value.1, Header(names), DetachedRows(p, ref.value.0, names)))
  }

  /** Every row of the table is a carbon more than `D_THRESH_A` above the
      surface, carrying one value per optional header column, and every
      such carbon has a row. */
  lemma TableRows(numFrames: nat, idx: int, p: Particles, fixedLayer: bool)
    requires WellFormed(p) && FindDetached(numFrames, idx, p, fixedLayer).Success?
    ensures var t := FindDetached(numFrames, idx, p, fixedLayer).value;
            forall k :: 0 <= k < |t.rows| ==> t.rows[k].dAbove > DThresh && |t.rows[k].extra| + 5 == |t.header|
    ensures var t := FindDetached(numFrames, idx, p, fixedLayer).value;
            forall i :: 0 <= i < |p.ids| && Detached(p, t.zTop, i) ==>
              exists k :: 0 <= k < |t.rows| && RowOfAtom(p, t.zTop, OptNames(p.props), i, t.rows[k])
  {
    var t := FindDetached(numFrames, idx, p, fixedLayer).value;
    var names := OptNames(p.props);
    var ix := DetachedIndices(p, t.zTop, |p.ids|);
    forall i | 0 <= i < |p.ids| && Detached(p, t.zTop, i)
      ensures exists k :: 0 <= k < |t.rows| && RowOfAtom(p, t.zTop, names, i, t.rows[k])
    {
      var k :| 0 <= k < |ix| && ix[k] == i;
      assert RowOfAtom(p, t.zTop, names, ix[k], t.rows[k]);
    }
  }
}

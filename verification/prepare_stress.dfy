/** 08_prepare_stress.py: appends the hydrostatic pressure, `sigma_dev` and,
    when the three shear columns are present, `sigma_vm` to the jump table. */
module PrepareStress {
  import opened Wrappers
  import opened Tensor
  import opened Frames

  const Sxx := "v_s_xx_gpa"
  const Syy := "v_s_yy_gpa"
  const Szz := "v_s_zz_gpa"
  const Txy := "v_s_xy_gpa"
  const Tyz := "v_s_yz_gpa"
  const Txz := "v_s_xz_gpa"
  const PHydroCol := "P_hydro_GPa"
  const SigmaDevCol := "sigma_dev_GPa"
  const SigmaVmCol := "sigma_vm_GPa"

  predicate HasNormals(f: Frame)
  {
    Sxx in f.cols && Syy in f.cols && Szz in f.cols
  }

  predicate HasShear(f: Frame)
  {
    Txy in f.cols && Tyz in f.cols && Txz in f.cols
  }

  /** The pressure and `sigma_dev` cells of one row: missing when any of
      the three normal values is, since NaN propagates. */
  function NormalCells(a: Option<real>, b: Option<real>, c: Option<real>): (r: (Val, Val))
    ensures (a.None? || b.None? || c.None?) ==> r == (Missing, Missing)
    ensures a.Some? && b.Some? && c.Some? ==>
              && r.0.Num? && 3.0 * r.0.x == a.value + b.value + c.value
              && r.1.Sqrt? && r.1.r.Valid() && 4.0 * r.1.r.square == NormalSpread(a.value, b.value, c.value)
              && (r.1.r.square == 0.0 <==> a.value == b.value == c.value)
  {
    if a.None? || b.None? || c.None? then (Missing, Missing)
    else (Num(Hydrostatic(a.value, b.value, c.value)), Sqrt(SigmaDev(a.value, b.value, c.value)))
  }

  /** The `sigma_vm` cell of one row. */
  function VmCell(a: Option<real>, b: Option<real>, c: Option<real>,
                  xy: Option<real>, yz: Option<real>, xz: Option<real>): (r: Val)
    ensures (a.None? || b.None? || c.None? || xy.None? || yz.None? || xz.None?) ==> r == Missing
    ensures a.Some? && b.Some? && c.Some? && xy.Some? && yz.Some? && xz.Some? ==>
              && r.Sqrt? && r.r.Valid()
              && r.r.square == SigmaDev(a.value, b.value, c.value).square
                               + 3.0 * (xy.value * xy.value + yz.value * yz.value + xz.value * xz.value)
              && r.r.square >= SigmaDev(a.value, b.value, c.value).square
              && (r.r.square == SigmaDev(a.value, b.value, c.value).square
                  <==> xy.value == 0.0 && yz.value == 0.0 && xz.value == 0.0)
  {
    if a.None? || b.None? || c.None? || xy.None? || yz.None? || xz.None? then Missing
    else Sqrt(SigmaVmFromDev(Tensor6(a.value, b.value, c.value, xy.value, xz.value, yz.value)))
  }

  /** The float of cell `c` of row `k` once the column has converted. */
  function FloatAt(f: Frame, k: nat, c: string): Option<real>
    requires f.Valid() && f.FromCsv() && k < |f.rows| && c in f.cols
  {
    var v := AsFloat(f.rows[k][c]);
    if v.Success? then v.value else None
  }

  /** Every cell of column `c` converts to a float. */
  predicate Converts(f: Frame, c: string)
    requires f.Valid() && f.FromCsv() && c in f.cols
  {
    forall k :: 0 <= k < |f.rows| ==> AsFloat(f.rows[k][c]).Success?
  }

  /** The columns of the converted floats. */
  function Floats(f: Frame, c: string): (r: Result<seq<Option<real>>>)
    requires f.Valid() && f.FromCsv() && c in f.cols
    ensures r.Success? <==> Converts(f, c)
    ensures r.Success? ==> |r.value| == |f.rows| && forall k :: 0 <= k < |f.rows| ==> r.value[k] == FloatAt(f, k, c)
  {
    ColumnFloats(f, c)
  }

  /** `P_hydro_GPa` and `sigma_dev_GPa` set from the normal columns. */
  function WithNormals(f: Frame, sx: seq<Option<real>>, sy: seq<Option<real>>, sz: seq<Option<real>>): (r: Frame)
    requires f.Valid() && |sx| == |f.rows| && |sy| == |f.rows| && |sz| == |f.rows|
    ensures r.Valid() && |r.rows| == |f.rows| && f.cols <= r.cols
    ensures PHydroCol in r.cols && SigmaDevCol in r.cols
    ensures forall c :: c in r.cols <==> c in f.cols || c == PHydroCol || c == SigmaDevCol
    ensures forall k, c :: 0 <= k < |f.rows| && c in f.rows[k] && c != PHydroCol && c != SigmaDevCol
              ==> r.rows[k][c] == f.rows[k][c]
    ensures forall k :: 0 <= k < |f.rows| ==>
              (r.rows[k][PHydroCol], r.rows[k][SigmaDevCol]) == NormalCells(sx[k], sy[k], sz[k])
  {
    var n := |f.rows|;
    var cells := seq(n, k requires 0 <= k < n => NormalCells(sx[k], sy[k], sz[k]));
    var f1 := SetColumn(f, PHydroCol, seq(n, k requires 0 <= k < n => cells[k].0));
    SetColumn(f1, SigmaDevCol, seq(n, k requires 0 <= k < n => cells[k].1))
  }

  /** `sigma_vm_GPa` set from the six components. */
  function WithVm(f: Frame, sx: seq<Option<real>>, sy: seq<Option<real>>, sz: seq<Option<real>>,
                  txy: seq<Option<real>>, tyz: seq<Option<real>>, txz: seq<Option<real>>): (r: Frame)
    requires f.Valid() && |sx| == |sy| == |sz| == |txy| == |tyz| == |txz| == |f.rows|
    ensures r.Valid() && |r.rows| == |f.rows| && f.cols <= r.cols && SigmaVmCol in r.cols
    ensures forall c :: c in r.cols <==> c in f.cols || c == SigmaVmCol
    ensures forall k, c :: 0 <= k < |f.rows| && c in f.rows[k] && c != SigmaVmCol
              ==> r.rows[k][c] == f.rows[k][c]
    ensures forall k :: 0 <= k < |f.rows| ==>
              r.rows[k][SigmaVmCol] == VmCell(sx[k], sy[k], sz[k], txy[k], tyz[k], txz[k])
  {
    var n := |f.rows|;
    SetColumn(f, SigmaVmCol, seq(n, k requires 0 <= k < n => VmCell(sx[k], sy[k], sz[k], txy[k], tyz[k], txz[k])))
  }

  /** The two columns every successful run adds, from the three normal
      columns; fails when one of them does not convert to float. */
  function AddNormals(f: Frame): (r: Result<Frame>)
    requires f.Valid() && f.FromCsv() && HasNormals(f)
    ensures r.Success? <==> Converts(f, Sxx) && Converts(f, Syy) && Converts(f, Szz)
    ensures r.Success? ==> r.value.Valid() && |r.value.rows| == |f.rows| && f.cols <= r.value.cols
    ensures r.Success? ==> forall c :: c in r.value.cols <==> c in f.cols || c == PHydroCol || c == SigmaDevCol
    ensures r.Success? ==> forall k, c ::
              (0 <= k < |f.rows| && c in f.rows[k] && c != PHydroCol && c != SigmaDevCol)
              ==> r.value.rows[k][c] == f.rows[k][c]
    ensures r.Success? ==> forall k :: 0 <= k < |f.rows| ==>
              (r.value.rows[k][PHydroCol], r.value.rows[k][SigmaDevCol])
              == NormalCells(FloatAt(f, k, Sxx), FloatAt(f, k, Syy), FloatAt(f, k, Szz))
  {
    var sx := Floats(f, Sxx);
    var sy := Floats(f, Syy);
    var sz := Floats(f, Szz);
    if sx.Failure? || sy.Failure? || sz.Failure? then Failure("ValueError")
    else Success(WithNormals(f, sx.value, sy.value, sz.value))
  }

  /** The `sigma_vm` column of frame `g`, computed from the six stress
      columns of `f`; fails when one of the shear columns does not convert. */
  function AddVm(f: Frame, g: Frame): (r: Result<Frame>)
    requires f.Valid() && f.FromCsv() && HasNormals(f) && HasShear(f)
    requires Converts(f, Sxx) && Converts(f, Syy) && Converts(f, Szz)
    requires g.Valid() && |g.rows| == |f.rows|
    ensures r.Success? <==> Converts(f, Txy) && Converts(f, Tyz) && Converts(f, Txz)
    ensures r.Success? ==> r.value.Valid() && |r.value.rows| == |g.rows| && g.cols <= r.value.cols
    ensures r.Success? ==> forall c :: c in r.value.cols <==> c in g.cols || c == SigmaVmCol
    ensures r.Success? ==> forall k, c ::
              (0 <= k < |g.rows| && c in g.rows[k] && c != SigmaVmCol)
              ==> r.value.rows[k][c] == g.rows[k][c]
    ensures r.Success? ==> forall k :: 0 <= k < |f.rows| ==>
              r.value.rows[k][SigmaVmCol]
              == VmCell(FloatAt(f, k, Sxx), FloatAt(f, k, Syy), FloatAt(f, k, Szz),
                        FloatAt(f, k, Txy), FloatAt(f, k, Tyz), FloatAt(f, k, Txz))
  {
    var sx := Floats(f, Sxx);
    var sy := Floats(f, Syy);
    var sz := Floats(f, Szz);
    var txy := Floats(f, Txy);
    var tyz := Floats(f, Tyz);
    var txz := Floats(f, Txz);
    if txy.Failure? || tyz.Failure? || txz.Failure? then Failure("ValueError")
    else Success(WithVm(g, sx.value, sy.value, sz.value, txy.value, tyz.value, txz.value))
  }

  /** The script: exits unless all three normal columns exist and convert;
      the shear columns, when all three exist, must convert as well. */
  function Prepare(f: Frame): (r: Result<Frame>)
    requires f.Valid() && f.FromCsv()
    ensures r.Success? <==>
              && HasNormals(f) && Converts(f, Sxx) && Converts(f, Syy) && Converts(f, Szz)
              && (HasShear(f) ==> Converts(f, Txy) && Converts(f, Tyz) && Converts(f, Txz))
    ensures r.Success? ==> r.value.Valid() && |r.value.rows| == |f.rows| && f.cols <= r.value.cols
    ensures r.Success? ==> forall k, c ::
              (0 <= k < |f.rows| && c in f.rows[k] && c != PHydroCol && c != SigmaDevCol && (c != SigmaVmCol || !HasShear(f)))
              ==> c in r.value.rows[k] && r.value.rows[k][c] == f.rows[k][c]
  {
    if !HasNormals(f) then Failure("missing stress columns")
    else
      var g := AddNormals(f);
      if g.Failure? || !HasShear(f) then g
      else
        var h := AddVm(f, g.value);
        if h.Success? then KeepsThrough(f, g.value, h.value); h else h
  }

  /** The columns after a successful run: the pressure and `sigma_dev`
      always, `sigma_vm` when it was there or the shear columns are. */
  lemma PrepareColumns(f: Frame)
    requires f.Valid() && f.FromCsv() && Prepare(f).Success?
    ensures PHydroCol in Prepare(f).value.cols && SigmaDevCol in Prepare(f).value.cols
    ensures SigmaVmCol in Prepare(f).value.cols <==> SigmaVmCol in f.cols || HasShear(f)
    ensures forall c :: c in Prepare(f).value.cols ==>
              c in f.cols || c == PHydroCol || c == SigmaDevCol || c == SigmaVmCol
  {
    assert SigmaVmCol != PHydroCol && SigmaVmCol != SigmaDevCol;
  }

  /** Cells kept by both steps are kept by the two together. */
  lemma KeepsThrough(f: Frame, g: Frame, h: Frame)
    requires |g.rows| == |f.rows| && |h.rows| == |g.rows|
    requires forall k, c :: 0 <= k < |f.rows| && c in f.rows[k] && c != PHydroCol && c != SigmaDevCol
               ==> c in g.rows[k] && g.rows[k][c] == f.rows[k][c]
    requires forall k, c :: 0 <= k < |g.rows| && c in g.rows[k] && c != SigmaVmCol
               ==> c in h.rows[k] && h.rows[k][c] == g.rows[k][c]
    ensures forall k, c :: 0 <= k < |f.rows| && c in f.rows[k] && c != PHydroCol && c != SigmaDevCol && c != SigmaVmCol
              ==> c in h.rows[k] && h.rows[k][c] == f.rows[k][c]
  {
  }

  /** With the shear columns present, row by row the `sigma_vm` cell comes
      from that row's six components. */
  lemma PrepareVmCells(f: Frame)
    requires f.Valid() && f.FromCsv() && Prepare(f).Success? && HasShear(f)
    ensures forall k :: 0 <= k < |f.rows| ==>
              && SigmaVmCol in Prepare(f).value.rows[k]
              && Prepare(f).value.rows[k][SigmaVmCol]
              == VmCell(FloatAt(f, k, Sxx), FloatAt(f, k, Syy), FloatAt(f, k, Szz),
                        FloatAt(f, k, Txy), FloatAt(f, k, Tyz), FloatAt(f, k, Txz))
  {
    var g := AddNormals(f);
    assert Prepare(f) == AddVm(f, g.value);
  }

  /** Row by row, the pressure and `sigma_dev` cells come from that row's
      three normal components. */
  lemma PrepareNormalCells(f: Frame)
    requires f.Valid() && f.FromCsv() && Prepare(f).Success?
    ensures forall k :: 0 <= k < |f.rows| ==>
              (Prepare(f).value.rows[k][PHydroCol], Prepare(f).value.rows[k][SigmaDevCol])
              == NormalCells(FloatAt(f, k, Sxx), FloatAt(f, k, Syy), FloatAt(f, k, Szz))
  {
    var g := AddNormals(f);
    if HasShear(f) {
      assert SigmaVmCol != PHydroCol && SigmaVmCol != SigmaDevCol;
      forall k | 0 <= k < |f.rows|
        ensures Prepare(f).value.rows[k][PHydroCol] == g.value.rows[k][PHydroCol]
        ensures Prepare(f).value.rows[k][SigmaDevCol] == g.value.rows[k][SigmaDevCol]
      {
        assert PHydroCol in g.value.rows[k] && SigmaDevCol in g.value.rows[k];
      }
    }
  }
}

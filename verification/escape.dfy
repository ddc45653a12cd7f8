/** `compute_escape_metrics` of stress.py: per atom, the escape time is the
    atom's last sample time, the virial components are averaged over the
    samples within `±Δ` of it, and the average is reduced to a von Mises
    value both as a virial and, after conversion, as a stress. */
module Escape {
  import opened Tensor
  import opened Reals
  import opened Dump

  /** One row of the metrics table. */
  datatype EscapeRow = EscapeRow(
    atomId: int,
    escapeTime: real,
    vmVirial: Root,
    sigmaVm: Root,
    nFrames: nat,
    mean: Tensor6)

  function SampleTimes(s: seq<Sample>): (t: seq<real>)
    ensures |t| == |s| && forall i :: 0 <= i < |s| ==> t[i] == s[i].time
  {
    seq(|s|, i requires 0 <= i < |s| => s[i].time)
  }

  /** `df['time_ps'].max()`. */
  function LastTime(s: seq<Sample>): (te: real)
    requires |s| > 0
    ensures exists i :: 0 <= i < |s| && s[i].time == te
    ensures forall i :: 0 <= i < |s| ==> s[i].time <= te
  {
    var t := SampleTimes(s);
    var te := MaxOf(t);
    assert exists i :: 0 <= i < |t| && t[i] == te;
    te
  }

  /** The samples with `lo <= time <= hi`, in order. */
  function Between(s: seq<Sample>, lo: real, hi: real): (w: seq<Sample>)
    ensures |w| <= |s|
    ensures forall x :: x in w <==> x in s && lo <= x.time <= hi
  {
    if |s| == 0 then []
    else
      var rest := Between(s[..|s| - 1], lo, hi);
      var x := s[|s| - 1];
      assert forall y :: y in s <==> y in s[..|s| - 1] || y == x by {
        assert s == s[..|s| - 1] + [x];
      }
      if lo <= x.time <= hi then rest + [x] else rest
  }

  /** The averaging window: the closed `[te - Δ, te + Δ]`, or the last
      sample alone should that be empty. */
  function Window(s: seq<Sample>, delta: real): (w: seq<Sample>)
    requires |s| > 0
    ensures 0 < |w| <= |s|
    ensures forall x :: x in w ==> x in s
  {
    var te := LastTime(s);
    var w := Between(s, te - delta, te + delta);
    if |w| == 0 then [s[|s| - 1]] else w
  }

  /** With a nonnegative `Δ` the window is the closed interval around the
      escape time: the fallback never fires. */
  lemma WindowIsBetween(s: seq<Sample>, delta: real)
    requires |s| > 0
    ensures delta >= 0.0 ==> Window(s, delta) == Between(s, LastTime(s) - delta, LastTime(s) + delta)
  {
    EscapeSampleInWindow(s, delta);
  }

  /** With a nonnegative `Δ` the closed window is never empty. */
  lemma EscapeSampleInWindow(s: seq<Sample>, delta: real)
    requires |s| > 0
    ensures delta >= 0.0 ==> |Between(s, LastTime(s) - delta, LastTime(s) + delta)| > 0
  {
    if delta >= 0.0 {
      var i :| 0 <= i < |s| && s[i].time == LastTime(s);
      assert s[i] in Between(s, LastTime(s) - delta, LastTime(s) + delta);
    }
  }

  /** With a nonnegative `Δ` the window holds every sample at the escape
      time, so the fallback to the last row never fires. */
  lemma WindowHoldsEscapeSample(s: seq<Sample>, delta: real)
    requires |s| > 0 && delta >= 0.0
    ensures forall x :: x in s && x.time == LastTime(s) ==> x in Window(s, delta)
    ensures forall x :: x in Window(s, delta) ==> LastTime(s) - delta <= x.time <= LastTime(s)
  {
    WindowIsBetween(s, delta);
  }

  /** Virial component `k` of the window samples, in order. */
  function Component(w: seq<Sample>, k: nat): (c: seq<real>)
    requires k < 6
    ensures |c| == |w| && forall i :: 0 <= i < |w| ==> c[i] == Part(w[i].virial, k)
  {
    seq(|w|, i requires 0 <= i < |w| => Part(w[i].virial, k))
  }

  /** The window means of the six components. */
  function MeanTensor(w: seq<Sample>): (t: Tensor6)
    requires |w| > 0
    ensures forall j :: 0 <= j < 6 ==> Part(t, j) == Mean(Component(w, j))
  {
    Tensor6(Mean(Component(w, 0)), Mean(Component(w, 1)), Mean(Component(w, 2)),
            Mean(Component(w, 3)), Mean(Component(w, 4)), Mean(Component(w, 5)))
  }

  /** Each window mean lies between the smallest and largest value of its
      component in the window. */
  lemma MeanWithinWindow(w: seq<Sample>, k: nat)
    requires |w| > 0 && k < 6
    ensures MinOf(Component(w, k)) <= Mean(Component(w, k)) <= MaxOf(Component(w, k))
  {
    MeanBounds(Component(w, k), MinOf(Component(w, k)), MaxOf(Component(w, k)));
  }

  /** Component `j` of a tensor, in the order xx, yy, zz, xy, xz, yz. */
  function Part(t: Tensor6, j: nat): real
    requires j < 6
  {
    if j == 0 then t.xx else if j == 1 then t.yy else if j == 2 then t.zz
    else if j == 3 then t.xy else if j == 4 then t.xz else t.yz
  }

  /** The metrics of one atom's time-ordered series: the escape time is the
      latest sample time; each averaged component is the mean of that
      component over the window, and so lies within its range there; both reductions are von Mises values,
      zero exactly for an isotropic mean, and the stress one is the virial
      one scaled by `(K / V)^2`. */
  function Metrics(aid: int, s: seq<Sample>, delta: real, volume: real, k: real): (r: EscapeRow)
    requires |s| > 0 && volume != 0.0
    ensures r.atomId == aid
    ensures forall i :: 0 <= i < |s| ==> s[i].time <= r.escapeTime
    ensures exists i :: 0 <= i < |s| && s[i].time == r.escapeTime
    ensures 1 <= r.nFrames <= |s|
    ensures delta >= 0.0 ==> r.nFrames == |Between(s, LastTime(s) - delta, LastTime(s) + delta)|
    ensures forall j :: 0 <= j < 6 ==> Part(r.mean, j) == Mean(Component(Window(s, delta), j))
    ensures forall j :: 0 <= j < 6 ==>
              MinOf(Component(Window(s, delta), j)) <= Part(r.mean, j) <= MaxOf(Component(Window(s, delta), j))
    ensures r.vmVirial == VonMises(r.mean)
    ensures r.sigmaVm == VonMises(VirialToStress(r.mean, volume, k))
    ensures r.vmVirial.Valid() && r.sigmaVm.Valid()
    ensures r.vmVirial.square == 0.0 <==> Isotropic(r.mean)
    ensures ScaledSquare(r.sigmaVm.square, r.vmVirial.square, k / volume)
  {
    var w := Window(s, delta);
    var m := MeanTensor(w);
    forall j | 0 <= j < 6
      ensures MinOf(Component(w, j)) <= Part(m, j) <= MaxOf(Component(w, j))
    {
      MeanWithinWindow(w, j);
    }
    StressVonMises(m, volume, k);
    WindowIsBetween(s, delta);
    EscapeRow(aid, LastTime(s), VonMises(m), VonMises(VirialToStress(m, volume, k)), |w|, m)
  }

  /** `compute_escape_metrics`: one row per atom, in the order the atoms
      were first read. */
  function EscapeMetrics(t: Trajectories, delta: real, volume: real, k: real): (rows: seq<EscapeRow>)
    requires t.Valid() && volume != 0.0
    ensures |rows| == |t.ids|
    ensures forall i :: 0 <= i < |rows| ==>
              && rows[i].atomId == t.ids[i]
              && rows[i].escapeTime == LastTime(t.series[t.ids[i]])
              && 1 <= rows[i].nFrames <= |t.series[t.ids[i]]|
    ensures forall i :: 0 <= i < |rows| ==>
              rows[i] == Metrics(t.ids[i], t.series[t.ids[i]], delta, volume, k)
  {
    seq(|t.ids|, i requires 0 <= i < |t.ids| => Metrics(t.ids[i], t.series[t.ids[i]], delta, volume, k))
  }
}

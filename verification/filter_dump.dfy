/** The escape time series and per-atom summary of
    02_filter_dump_ovito.py: for every tracked id and every frame of the
    extended-XYZ trajectory, the atom's height, temperature and stress
    columns; then for every atom the time of its first frame above the
    height threshold and the time and value of its peak temperature. The
    frames are given as arrays (reading the trajectory is not modelled). */
module FilterDump {
  import opened Wrappers
  import opened Reals
  import opened Sorting

  const StartFrame: nat := 0
  const EndFrame: nat := 3000
  const DtFs: real := 0.1
  const TimeZeroPs: real := 15.0
  const ZThresh: real := 27.0
  const TempMin: real := 0.0
  const TempMax: real := 100000.0
  /** Boltzmann's constant in kcal/(mol·K). */
  const Kb: real := 0.0019872041
  const StressCols: seq<string> := ["v_s_xx_gpa", "v_s_yy_gpa", "v_s_zz_gpa",
                                    "v_s_xy_gpa", "v_s_xz_gpa", "v_s_yz_gpa"]

  // ---------------------------------------------------------------------
  // Time axis

  /** `time_ps[k]`: frame `START_FRAME + k` at 100 steps of `DT_FS` each,
      shifted to `TIME_ZERO_PS`. */
  function TimeAt(k: nat): (t: real)
    ensures t == TimeZeroPs + k as real / 100.0
  {
    (StartFrame + k) as real * DtFs * 100.0 / 1000.0 + TimeZeroPs
  }

  /** Consecutive frames are 0.01 ps apart and the axis only grows. */
  lemma TimeAxisAscending(k: nat, m: nat)
    requires k < m
    ensures TimeAt(k) < TimeAt(m)
    ensures TimeAt(k + 1) - TimeAt(k) == 0.01
    ensures TimeAt(0) == TimeZeroPs
  {
  }

  /** The frames `iread` yields for `index=slice(START_FRAME, END_FRAME)`. */
  function Sliced<T>(all: seq<T>): (r: seq<T>)
    ensures |r| <= EndFrame - StartFrame
    ensures forall k :: 0 <= k < |r| ==> StartFrame + k < |all| && r[k] == all[StartFrame + k]
    ensures |all| >= EndFrame ==> |r| == EndFrame - StartFrame
  {
    var lo := if |all| < StartFrame then |all| else StartFrame;
    var hi := if |all| < EndFrame then |all| else EndFrame;
    all[lo..hi]
  }

  // ---------------------------------------------------------------------
  // One frame

  /** The per-atom arrays of a frame: `id`, the `z` positions and the
      named columns. */
  datatype Frame = Frame(ids: seq<int>, z: seq<real>, arrays: map<string, seq<real>>)

  predicate WellFormed(f: Frame)
  {
    |f.z| == |f.ids| && forall n :: n in f.arrays ==> |f.arrays[n]| == |f.ids|
  }

  /** The temperature array: `v_mytemp` when present, else the kinetic
      energy `c_myke` converted by `(2/3)·KE/kB`, else NaN. */
  function RawTemp(f: Frame, idx: nat): (t: Option<real>)
    requires WellFormed(f) && idx < |f.ids|
    ensures "v_mytemp" in f.arrays ==> t == Some(f.arrays["v_mytemp"][idx])
    ensures "v_mytemp" !in f.arrays && "c_myke" in f.arrays ==>
              t.Some? && t.value * Kb * 3.0 / 2.0 == f.arrays["c_myke"][idx]
    ensures "v_mytemp" !in f.arrays && "c_myke" !in f.arrays ==> t.None?
  {
    if "v_mytemp" in f.arrays then Some(f.arrays["v_mytemp"][idx])
    else if "c_myke" in f.arrays then Some(2.0 / 3.0 * f.arrays["c_myke"][idx] / Kb)
    else None
  }

  /** Temperatures outside the closed `[TEMP_MIN, TEMP_MAX]` are stored as
      NaN; NaN stays NaN. */
  function Masked(t: Option<real>): (r: Option<real>)
    ensures r.Some? <==> t.Some? && TempMin <= t.value <= TempMax
    ensures r.Some? ==> r == t
  {
    if t.None? || t.value < TempMin || t.value > TempMax then None else t
  }

  /** `id2idx.get(a)`: the dictionary comprehension keeps the last index
      of a repeated id; `None` when the id is not in the frame. */
  function IndexOfId(ids: seq<int>, a: int): (r: Option<nat>)
    ensures r.None? <==> a !in ids
    ensures r.Some? ==> r.value < |ids| && ids[r.value] == a
    ensures r.Some? ==> forall j :: r.value < j < |ids| ==> ids[j] != a
  {
    if |ids| == 0 then None
    else if ids[|ids| - 1] == a then Some(|ids| - 1)
    else
      var r := IndexOfId(ids[..|ids| - 1], a);
      assert ids == ids[..|ids| - 1] + [ids[|ids| - 1]];
      r
  }

  /** One row of the time series. */
  datatype TsRow = TsRow(id: int, frame: int, time: real, z: real, temp: Option<real>,
                         stress: seq<Option<real>>)

  /** The stress columns of atom `idx`: a column the frame lacks is NaN. */
  function StressOf(f: Frame, idx: nat): (s: seq<Option<real>>)
    requires WellFormed(f) && idx < |f.ids|
    ensures |s| == |StressCols|
    ensures forall c :: 0 <= c < |StressCols| ==>
              (s[c].Some? <==> StressCols[c] in f.arrays)
    ensures forall c :: 0 <= c < |StressCols| && StressCols[c] in f.arrays ==>
              s[c] == Some(f.arrays[StressCols[c]][idx])
  {
    seq(|StressCols|, c requires 0 <= c < |StressCols| =>
      if StressCols[c] in f.arrays then Some(f.arrays[StressCols[c]][idx]) else None)
  }

  /** `row` is what frame `k` records for its atom. */
  predicate Records(f: Frame, k: nat, row: TsRow)
    requires WellFormed(f)
  {
    var i := IndexOfId(f.ids, row.id);
    i.Some? && row.frame == StartFrame + k && row.time == TimeAt(k) && row.z == f.z[i.value]
    && row.temp == Masked(RawTemp(f, i.value)) && row.stress == StressOf(f, i.value)
  }

  /** The row of atom `a` in frame `k`, or nothing when the atom has left. */
  function RowOf(f: Frame, k: nat, a: int): (r: Option<TsRow>)
    requires WellFormed(f)
    ensures r.None? <==> a !in f.ids
    ensures r.Some? ==> r.value.id == a && Records(f, k, r.value)
  {
    var i := IndexOfId(f.ids, a);
    if i.None? then None
    else Some(TsRow(a, StartFrame + k, TimeAt(k), f.z[i.value], Masked(RawTemp(f, i.value)),
                    StressOf(f, i.value)))
  }

  /** The rows of frame `k`, in the order of the tracked ids. */
  function FrameRows(f: Frame, k: nat, ids: seq<int>): (rows: seq<TsRow>)
    requires WellFormed(f)
    ensures |rows| <= |ids|
    ensures forall j :: 0 <= j < |rows| ==> rows[j].id in ids && Records(f, k, rows[j])
    ensures forall a :: a in ids && a in f.ids ==> exists j :: 0 <= j < |rows| && rows[j].id == a
    ensures forall j :: 0 <= j < |rows| ==> rows[j].id in f.ids
  {
    if |ids| == 0 then []
    else
      var n := |ids| - 1;
      var front := FrameRows(f, k, ids[..n]);
      assert ids == ids[..n] + [ids[n]];
      var r := RowOf(f, k, ids[n]);
      if r.None? then front
      else
        var rows := front + [r.value];
        assert rows[|front|].id == ids[n];
        assert forall j :: 0 <= j < |front| ==> rows[j] == front[j];
        rows
  }

  /** Rows of tracked atoms whose frame numbers lie in `[lo, hi)` and never
      decrease. */
  predicate Ordered(rows: seq<TsRow>, ids: seq<int>, lo: int, hi: int)
  {
    (forall j :: 0 <= j < |rows| ==> rows[j].id in ids && lo <= rows[j].frame < hi)
    && forall i, j :: 0 <= i < j < |rows| ==> rows[i].frame <= rows[j].frame
  }

  /** The rows of one frame `lo`, followed by those of later frames. */
  lemma StackOrdered(here: seq<TsRow>, rest: seq<TsRow>, ids: seq<int>, lo: int, hi: int)
    requires forall j :: 0 <= j < |here| ==> here[j].id in ids && here[j].frame == lo
    requires lo < hi && Ordered(rest, ids, lo + 1, hi)
    ensures Ordered(here + rest, ids, lo, hi)
  {
    var rows := here + rest;
    forall j | 0 <= j < |rows| ensures rows[j].id in ids && lo <= rows[j].frame < hi {
      if j < |here| {
        assert rows[j] == here[j];
      } else {
        assert rows[j] == rest[j - |here|];
      }
    }
    forall i, j | 0 <= i < j < |rows| ensures rows[i].frame <= rows[j].frame {
      if j < |here| {
        assert rows[i] == here[i] && rows[j] == here[j];
      } else if i < |here| {
        assert rows[i] == here[i] && rows[j] == rest[j - |here|];
      } else {
        assert rows[i] == rest[i - |here|] && rows[j] == rest[j - |here|];
      }
    }
  }

  /** The frames' rows one frame after another, from frame `k` on. */
  function SeriesFrom(frames: seq<Frame>, k: nat, ids: seq<int>): (rows: seq<TsRow>)
    requires k <= |frames| && forall m :: 0 <= m < |frames| ==> WellFormed(frames[m])
    ensures Ordered(rows, ids, StartFrame + k, StartFrame + |frames|)
    decreases |frames| - k
  {
    if k == |frames| then []
    else
      var here := FrameRows(frames[k], k, ids);
      var rest := SeriesFrom(frames, k + 1, ids);
      StackOrdered(here, rest, ids, StartFrame + k, StartFrame + |frames|);
      here + rest
  }

  /** `row` is what its own frame records for its atom. */
  predicate RecordedIn(frames: seq<Frame>, row: TsRow)
    requires forall m :: 0 <= m < |frames| ==> WellFormed(frames[m])
  {
    0 <= row.frame - StartFrame < |frames| && Records(frames[row.frame - StartFrame], row.frame - StartFrame, row)
  }

  /** Every row of the series is what its frame records for its atom. */
  lemma {:induction false} SeriesRecords(frames: seq<Frame>, k: nat, ids: seq<int>)
    requires k <= |frames| && forall m :: 0 <= m < |frames| ==> WellFormed(frames[m])
    ensures forall j :: 0 <= j < |SeriesFrom(frames, k, ids)| ==> RecordedIn(frames, SeriesFrom(frames, k, ids)[j])
    decreases |frames| - k
  {
    if k < |frames| {
      SeriesRecords(frames, k + 1, ids);
      var here := FrameRows(frames[k], k, ids);
      var rest := SeriesFrom(frames, k + 1, ids);
      var rows := SeriesFrom(frames, k, ids);
      assert rows == here + rest;
      forall j | 0 <= j < |rows| ensures RecordedIn(frames, rows[j]) {
        if j < |here| {
          assert rows[j] == here[j];
          RecordedHere(frames, k, here[j]);
        } else {
          assert rows[j] == rest[j - |here|];
        }
      }
    }
  }

  lemma RecordedHere(frames: seq<Frame>, k: nat, row: TsRow)
    requires k < |frames| && forall m :: 0 <= m < |frames| ==> WellFormed(frames[m])
    requires Records(frames[k], k, row)
    ensures RecordedIn(frames, row)
  {
    assert row.frame - StartFrame == k;
  }

  /** Every tracked atom present in a frame from `k` on has a row for
      that frame among `rows`. */
  predicate Complete(frames: seq<Frame>, k: nat, ids: seq<int>, rows: seq<TsRow>)
  {
    forall m, a :: k <= m < |frames| && a in ids && a in frames[m].ids ==> HasRow(rows, a, StartFrame + m)
  }

  /** Some row of `rows` is that of atom `a` in frame `fr`. */
  predicate HasRow(rows: seq<TsRow>, a: int, fr: int)
  {
    exists j :: 0 <= j < |rows| && rows[j].id == a && rows[j].frame == fr
  }

  /** The position of a present tracked atom's row among the rows of its
      frame. */
  lemma FrameRowOf(f: Frame, k: nat, ids: seq<int>, a: int) returns (j: nat)
    requires WellFormed(f) && a in ids && a in f.ids
    ensures j < |FrameRows(f, k, ids)|
    ensures FrameRows(f, k, ids)[j].id == a && FrameRows(f, k, ids)[j].frame == StartFrame + k
  {
    var rows := FrameRows(f, k, ids);
    j :| 0 <= j < |rows| && rows[j].id == a;
    assert Records(f, k, rows[j]);
  }

  /** Every present tracked atom has its row among the rows of its frame. */
  lemma FrameRowsComplete(f: Frame, k: nat, ids: seq<int>)
    requires WellFormed(f)
    ensures forall a :: a in ids && a in f.ids ==> HasRow(FrameRows(f, k, ids), a, StartFrame + k)
  {
    forall a | a in ids && a in f.ids
      ensures HasRow(FrameRows(f, k, ids), a, StartFrame + k)
    {
      var j := FrameRowOf(f, k, ids, a);
      var rows := FrameRows(f, k, ids);
      assert 0 <= j < |rows| && rows[j].id == a && rows[j].frame == StartFrame + k;
    }
  }

  /** Rows complete for frame `k`, followed by rows complete from frame
      `k + 1` on, are complete from `k` on. */
  lemma CompleteStep(frames: seq<Frame>, k: nat, ids: seq<int>, here: seq<TsRow>, rest: seq<TsRow>)
    requires k < |frames|
    requires forall a :: a in ids && a in frames[k].ids ==> HasRow(here, a, StartFrame + k)
    requires Complete(frames, k + 1, ids, rest)
    ensures Complete(frames, k, ids, here + rest)
  {
    var rows := here + rest;
    forall m, a | k <= m < |frames| && a in ids && a in frames[m].ids
      ensures HasRow(rows, a, StartFrame + m)
    {
      if m == k {
        var j :| 0 <= j < |here| && here[j].id == a && here[j].frame == StartFrame + k;
        assert rows[j] == here[j];
      } else {
        var j :| 0 <= j < |rest| && rest[j].id == a && rest[j].frame == StartFrame + m;
        assert rows[|here| + j] == rest[j];
      }
    }
  }

  /** No tracked atom present in a frame is missing from the series. */
  lemma {:induction false} SeriesComplete(frames: seq<Frame>, k: nat, ids: seq<int>)
    requires k <= |frames| && forall m :: 0 <= m < |frames| ==> WellFormed(frames[m])
    ensures Complete(frames, k, ids, SeriesFrom(frames, k, ids))
    decreases |frames| - k
  {
    if k < |frames| {
      SeriesComplete(frames, k + 1, ids);
      var here := FrameRows(frames[k], k, ids);
      var rest := SeriesFrom(frames, k + 1, ids);
      FrameRowsComplete(frames[k], k, ids);
      CompleteStep(frames, k, ids, here, rest);
      assert SeriesFrom(frames, k, ids) == here + rest;
    }
  }

  /** `rows_ts`: empty id lists stop the script before any frame is read.
      Otherwise the rows run frame by frame; each is what its frame records
      for a tracked atom, and every tracked atom present in a frame has its
      row for that frame. */
  function TimeSeries(frames: seq<Frame>, ids: seq<int>): (r: Result<seq<TsRow>>)
    requires forall m :: 0 <= m < |frames| ==> WellFormed(frames[m])
    ensures r.Failure? <==> |ids| == 0
    ensures r.Success? ==> Ordered(r.value, ids, StartFrame, StartFrame + |frames|)
    ensures r.Success? ==> forall j :: 0 <= j < |r.value| ==> RecordedIn(frames, r.value[j])
    ensures r.Success? ==> Complete(frames, 0, ids, r.value)
  {
    if |ids| == 0 then Failure("no id to track")
    else
      SeriesRecords(frames, 0, ids);
      SeriesComplete(frames, 0, ids);
      Success(SeriesFrom(frames, 0, ids))
  }

  // ---------------------------------------------------------------------
  // The per-atom summary

  /** `np.where(g["z"] > Z_THRESH_A)[0][0]`: the first row strictly above. */
  function FirstAbove(g: seq<TsRow>, th: real): (i: Option<nat>)
    ensures i.None? <==> forall j :: 0 <= j < |g| ==> g[j].z <= th
    ensures i.Some? ==> i.value < |g| && g[i.value].z > th
    ensures i.Some? ==> forall j :: 0 <= j < i.value ==> g[j].z <= th
  {
    if |g| == 0 then None
    else if g[0].z > th then Some(0)
    else
      var r := FirstAbove(g[1..], th);
      if r.None? then None else Some(r.value + 1)
  }

  /** `g["T"].idxmax()`: the first row holding the largest temperature,
      skipping NaN; `None` when every temperature is NaN. */
  function PeakIndex(g: seq<TsRow>): (i: Option<nat>)
    ensures i.None? <==> forall j :: 0 <= j < |g| ==> g[j].temp.None?
    ensures i.Some? ==> i.value < |g| && g[i.value].temp.Some?
    ensures i.Some? ==> forall j :: 0 <= j < |g| && g[j].temp.Some? ==>
              g[j].temp.value <= g[i.value].temp.value
    ensures i.Some? ==> forall j :: 0 <= j < i.value && g[j].temp.Some? ==>
              g[j].temp.value < g[i.value].temp.value
  {
    if |g| == 0 then None
    else
      var n := |g| - 1;
      var p := PeakIndex(g[..n]);
      assert forall j :: 0 <= j < n ==> g[..n][j] == g[j];
      if g[n].temp.None? then p
      else if p.None? || g[n].temp.value > g[p.value].temp.value then Some(n)
      else p
  }

  /** One line of the summary file. */
  datatype Summary = Summary(id: int, tEscape: Option<real>, tempEscape: Option<real>,
                             tPeak: Option<real>, tempPeak: Option<real>)

  /** The summary of atom `a` from its rows in frame order. */
  function Summarize(a: int, g: seq<TsRow>): (s: Summary)
    ensures s.id == a
    ensures s.tEscape.None? <==> forall j :: 0 <= j < |g| ==> g[j].z <= ZThresh
    ensures s.tEscape.Some? ==> exists i :: 0 <= i < |g| && g[i].z > ZThresh
                                  && (forall j :: 0 <= j < i ==> g[j].z <= ZThresh)
                                  && s.tEscape.value == g[i].time && s.tempEscape == g[i].temp
    ensures s.tEscape.None? ==> s.tempEscape.None?
    ensures s.tempPeak.None? <==> forall j :: 0 <= j < |g| ==> g[j].temp.None?
    ensures s.tempPeak.None? ==> s.tPeak.None?
    ensures s.tempPeak.Some? ==> exists i :: 0 <= i < |g| && g[i].temp == s.tempPeak
                                   && s.tPeak == Some(g[i].time)
    ensures s.tempPeak.Some? ==> forall j :: 0 <= j < |g| && g[j].temp.Some? ==>
              g[j].temp.value <= s.tempPeak.value
  {
    var e := FirstAbove(g, ZThresh);
    var p := PeakIndex(g);
    Summary(a,
            if e.Some? then Some(g[e.value].time) else None,
            if e.Some? then g[e.value].temp else None,
            if p.Some? then Some(g[p.value].time) else None,
            if p.Some? then g[p.value].temp else None)
  }

  function RowIds(ts: seq<TsRow>): (ids: seq<int>)
    ensures |ids| == |ts| && forall j :: 0 <= j < |ts| ==> ids[j] == ts[j].id
  {
    seq(|ts|, j requires 0 <= j < |ts| => ts[j].id)
  }

  function SummaryIds(out: seq<Summary>): (ids: seq<int>)
    ensures |ids| == |out| && forall k :: 0 <= k < |out| ==> ids[k] == out[k].id
  {
    seq(|out|, k requires 0 <= k < |out| => out[k].id)
  }

  /** One atom's rows, in the order of the series. */
  function GroupOf(ts: seq<TsRow>, a: int): (g: seq<TsRow>)
    ensures forall r :: r in g <==> r in ts && r.id == a
  {
    Select(ts, (r: TsRow) => r.id == a)
  }

  /** The summary lines for the atoms `ids`, in turn. */
  function SummariesOf(ts: seq<TsRow>, ids: seq<int>): (out: seq<Summary>)
    ensures |out| == |ids|
    ensures forall k :: 0 <= k < |ids| ==> out[k].id == ids[k]
    ensures forall k :: 0 <= k < |ids| ==> out[k] == Summarize(ids[k], GroupOf(ts, ids[k]))
  {
    if |ids| == 0 then []
    else SummariesOf(ts, ids[..|ids| - 1]) + [Summarize(ids[|ids| - 1], GroupOf(ts, ids[|ids| - 1]))]
  }

  /** `groupby("id", sort=False)`: one summary line per atom of the series,
      in order of first appearance. A series with no row at all is a table
      without an `id` column, and grouping it fails. */
  function Summaries(ts: seq<TsRow>): (r: Result<seq<Summary>>)
    ensures r.Failure? <==> |ts| == 0
    ensures r.Success? ==> forall a :: a in SummaryIds(r.value) <==> a in RowIds(ts)
    ensures r.Success? ==> forall i, j :: 0 <= i < j < |r.value| ==> r.value[i].id != r.value[j].id
    ensures r.Success? ==> forall k :: 0 <= k < |r.value| ==>
              r.value[k] == Summarize(r.value[k].id, GroupOf(ts, r.value[k].id))
  {
    if |ts| == 0 then Failure("no column id")
    else
      var ids := FirstAppearance(RowIds(ts));
      var out := SummariesOf(ts, ids);
      assert SummaryIds(out) == ids;
      Success(out)
  }
}

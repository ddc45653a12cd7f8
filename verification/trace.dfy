/** The tracking of trace_out_c.py: the ids read from a CSV file, followed
    through a run of dump frames, giving per frame the height and the
    temperature of every tracked id (missing when the id is absent), and
    the time axis of the frames. */
module Trace {
  import opened Wrappers
  import opened Reals
  import opened IdCsv
  import opened FilterDump

  const DefaultDtFs: real := 0.1
  const DefaultKbKcal: real := 0.0019872041

  /** One dump frame as ASE reads it: the `id` column when there is one,
      the heights, and the other per-atom columns. */
  datatype DumpFrame = DumpFrame(ids: Option<seq<int>>, z: seq<real>, arrays: map<string, seq<real>>)

  predicate WellFormed(f: DumpFrame)
  {
    (f.ids.Some? ==> |f.ids.value| == |f.z|)
    && forall c :: c in f.arrays ==> |f.arrays[c]| == |f.z|
  }

  /** The row of frame `f` for tracked id `a`: `id2ind`, the last atom with
      that id. */
  function Slot(f: DumpFrame, a: int): (j: Option<nat>)
    requires WellFormed(f) && f.ids.Some?
    ensures j.None? <==> a !in f.ids.value
    ensures j.Some? ==> j.value < |f.z| && f.ids.value[j.value] == a
    ensures j.Some? ==> forall i :: j.value < i < |f.z| ==> f.ids.value[i] != a
  {
    IndexOfId(f.ids.value, a)
  }

  /** The heights of the tracked ids: missing exactly for the ids absent
      from the frame. */
  function TrackedZ(f: DumpFrame, track: seq<int>): (z: seq<Option<real>>)
    requires WellFormed(f) && f.ids.Some?
    ensures |z| == |track|
    ensures forall k :: 0 <= k < |track| ==> (z[k].None? <==> track[k] !in f.ids.value)
    ensures forall k :: 0 <= k < |track| && z[k].Some? ==>
              exists j :: 0 <= j < |f.z| && f.ids.value[j] == track[k] && z[k].value == f.z[j]
  {
    seq(|track|, k requires 0 <= k < |track| =>
      var j := Slot(f, track[k]);
      if j.None? then None else Some(f.z[j.value]))
  }

  /** Where the temperatures come from. */
  datatype TempSource = FromTemp | FromKe | NoTemp

  /** `v_MyTemp` when the frame has it; else, with the flag, `c_MyKE`;
      else nothing. */
  function Source(f: DumpFrame, estimateFromKe: bool): (s: TempSource)
    ensures s == FromTemp <==> "v_MyTemp" in f.arrays
    ensures s == FromKe <==> "v_MyTemp" !in f.arrays && estimateFromKe && "c_MyKE" in f.arrays
  {
    if "v_MyTemp" in f.arrays then FromTemp
    else if estimateFromKe && "c_MyKE" in f.arrays then FromKe
    else NoTemp
  }

  /** The temperatures of the tracked ids. Python's float division by a
      zero Boltzmann constant raises, and so does this when any tracked id
      is present. */
  function TrackedT(f: DumpFrame, track: seq<int>, estimateFromKe: bool, kb: real): (r: Result<seq<Option<real>>>)
    requires WellFormed(f) && f.ids.Some?
    ensures r.Failure? <==> Source(f, estimateFromKe) == FromKe && kb == 0.0
                            && exists k :: 0 <= k < |track| && track[k] in f.ids.value
    ensures r.Success? ==> |r.value| == |track|
    ensures r.Success? ==> forall k :: 0 <= k < |track| ==>
              (r.value[k].None? <==> track[k] !in f.ids.value || Source(f, estimateFromKe) == NoTemp)
    ensures r.Success? && Source(f, estimateFromKe) == FromTemp ==> forall k :: 0 <= k < |track| && r.value[k].Some? ==>
              exists j :: 0 <= j < |f.z| && f.ids.value[j] == track[k] && r.value[k].value == f.arrays["v_MyTemp"][j]
    ensures r.Success? && Source(f, estimateFromKe) == FromKe ==> forall k :: 0 <= k < |track| && r.value[k].Some? ==>
              exists j :: 0 <= j < |f.z| && f.ids.value[j] == track[k]
                          && r.value[k].value * kb * 3.0 / 2.0 == f.arrays["c_MyKE"][j]
  {
    var src := Source(f, estimateFromKe);
    if src == FromKe && kb == 0.0 && exists k :: 0 <= k < |track| && track[k] in f.ids.value then
      Failure("float division by zero")
    else
      Success(seq(|track|, k requires 0 <= k < |track| =>
        var j := Slot(f, track[k]);
        if j.None? || src == NoTemp then None
        else if src == FromTemp then Some(f.arrays["v_MyTemp"][j.value])
        else Some(KeToTemp(f.arrays["c_MyKE"][j.value], kb))))
  }

  /** `T = (2/3)·KE/kB`, three degrees of freedom. */
  function KeToTemp(ke: real, kb: real): (t: real)
    requires kb != 0.0
    ensures t * kb * 3.0 / 2.0 == ke
  {
    2.0 / 3.0 * ke / kb
  }

  /** `time_ps = frame·dt_fs/1000`. */
  function FrameTime(frame: int, dtFs: real): real
  {
    frame as real * dtFs / 1000.0
  }

  /** The tracked values of a run of frames. */
  datatype Tracks = Tracks(ids: seq<int>, frames: seq<int>, time: seq<real>,
                           z: seq<seq<Option<real>>>, temp: seq<seq<Option<real>>>)

  /** A frame stops the script: it has no `id` column, or its temperatures
      cannot be computed. */
  predicate FrameFails(f: DumpFrame, ids: seq<int>, estimateFromKe: bool, kb: real)
    requires WellFormed(f)
  {
    f.ids.None? || TrackedT(f, ids, estimateFromKe, kb).Failure?
  }

  /** The frames from `start` on, read in order; a frame without `id`
      stops the script, and so does an empty id list. When no frame is
      read, stacking the empty list of heights raises. */
  function Track(rows: seq<seq<string>>, frames: seq<DumpFrame>, start: int, dtFs: real,
                 estimateFromKe: bool, kb: real): (r: Result<Tracks>)
    requires forall i :: 0 <= i < |frames| ==> WellFormed(frames[i])
    ensures |LoadIds(rows)| == 0 ==> r.Failure?
    ensures (exists i :: 0 <= i < |frames| && frames[i].ids.None?) ==> r.Failure?
    ensures |frames| == 0 ==> r.Failure?
    ensures r.Failure? <==> |LoadIds(rows)| == 0 || |frames| == 0
                            || exists i :: 0 <= i < |frames| && FrameFails(frames[i], LoadIds(rows), estimateFromKe, kb)
    ensures r.Success? ==> r.value.ids == LoadIds(rows) && |r.value.ids| > 0 && |frames| > 0
    ensures r.Success? ==> |r.value.frames| == |r.value.time| == |r.value.z| == |r.value.temp| == |frames|
    ensures r.Success? ==> forall i :: 0 <= i < |frames| ==>
              r.value.frames[i] == start + i && r.value.time[i] == FrameTime(start + i, dtFs)
    ensures r.Success? ==> forall i :: 0 <= i < |frames| ==>
              frames[i].ids.Some? && r.value.z[i] == TrackedZ(frames[i], r.value.ids)
    ensures r.Success? ==> forall i :: 0 <= i < |frames| ==>
              frames[i].ids.Some? && TrackedT(frames[i], r.value.ids, estimateFromKe, kb) == Success(r.value.temp[i])
  {
    var ids := LoadIds(rows);
    if |ids| == 0 then Failure("No IDs found in CSV.")
    else
      var run := TrackFrames(frames, ids, estimateFromKe, kb);
      if run.Failure? then Failure(run.error)
      else if |frames| == 0 then Failure("need at least one array to concatenate")
      else
        Success(Tracks(ids, FrameNumbers(start, |frames|), Times(start, |frames|, dtFs), run.value.0, run.value.1))
  }

  /** The frame numbers `start, start + 1, ...`. */
  function FrameNumbers(start: int, n: nat): (fs: seq<int>)
    ensures |fs| == n && forall i :: 0 <= i < n ==> fs[i] == start + i
  {
    seq(n, i => start + i)
  }

  /** The time of each frame from `start` on. */
  function Times(start: int, n: nat, dtFs: real): (ts: seq<real>)
    ensures |ts| == n && forall i :: 0 <= i < n ==> ts[i] == FrameTime(start + i, dtFs)
  {
    seq(n, i => FrameTime(start + i, dtFs))
  }

  /** The heights and temperatures of every frame, or the first error. */
  function TrackFrames(frames: seq<DumpFrame>, ids: seq<int>, estimateFromKe: bool, kb: real)
    : (r: Result<(seq<seq<Option<real>>>, seq<seq<Option<real>>>)>)
    requires forall i :: 0 <= i < |frames| ==> WellFormed(frames[i])
    ensures r.Failure? <==> exists i :: 0 <= i < |frames| && FrameFails(frames[i], ids, estimateFromKe, kb)
    ensures r.Success? ==> |r.value.0| == |frames| && |r.value.1| == |frames|
    ensures r.Success? ==> forall i :: 0 <= i < |frames| ==>
              frames[i].ids.Some? && r.value.0[i] == TrackedZ(frames[i], ids)
              && TrackedT(frames[i], ids, estimateFromKe, kb) == Success(r.value.1[i])
  {
    if |frames| == 0 then Success(([], []))
    else
      var n := |frames| - 1;
      var front := TrackFrames(frames[..n], ids, estimateFromKe, kb);
      assert forall i :: 0 <= i < n ==> frames[..n][i] == frames[i];
      if front.Failure? then Failure(front.error)
      else if frames[n].ids.None? then Failure("dump has no 'id' column")
      else
        var t := TrackedT(frames[n], ids, estimateFromKe, kb);
        if t.Failure? then Failure(t.error)
        else Success((front.value.0 + [TrackedZ(frames[n], ids)], front.value.1 + [t.value]))
  }

  /** `np.nanmean` of each frame's heights; missing when every tracked id
      is absent from the frame. */
  function FrameMeans(z: seq<seq<Option<real>>>): (m: seq<Option<real>>)
    ensures |m| == |z|
    ensures forall i :: 0 <= i < |z| ==> (m[i].None? <==> forall k :: 0 <= k < |z[i]| ==> z[i][k].None?)
  {
    seq(|z|, i requires 0 <= i < |z| => MeanOpt(z[i]))
  }
}

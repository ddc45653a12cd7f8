/** `parse_ablate_dump` of stress.py: a line-driven state machine over a
    LAMMPS dump. `ITEM: TIMESTEP` takes the following line as the step,
    `ITEM: ATOMS` fixes the column names and starts reading atom lines, any
    other `ITEM:` stops it. An atom line yields one virial sample for its id;
    a line lacking any of the six `c_MyStress[k]` values is skipped. */
module Dump {
  import opened Wrappers
  import opened Text
  import opened Numbers
  import opened Tensor
  import opened Sorting
  import opened Reals

  /** One virial sample of one atom. */
  datatype Sample = Sample(time: real, virial: Tensor6)

  /** Per-atom series, with the ids in order of first appearance. */
  datatype Trajectories = Trajectories(ids: seq<int>, series: map<int, seq<Sample>>)
  {
    ghost predicate Valid()
    {
      && (forall a :: a in series <==> a in ids)
      && (forall i, j :: 0 <= i < j < |ids| ==> ids[i] != ids[j])
      && (forall a :: a in series ==> |series[a]| > 0)
    }
  }

  /** Reader state: time of the current frame, atom columns, whether atom
      lines are being read, and the samples so far. */
  datatype DumpState = DumpState(tps: Option<real>, cols: Option<seq<string>>, reading: bool, atoms: Trajectories)

  const StressColumns: seq<string> :=
    ["c_MyStress[1]", "c_MyStress[2]", "c_MyStress[3]", "c_MyStress[4]", "c_MyStress[5]", "c_MyStress[6]"]

  function Initial(): (st: DumpState)
    ensures st.atoms.Valid()
  {
    DumpState(None, None, false, Trajectories([], map[]))
  }

  /** `rec.get(name)` for `rec = dict(zip(cols, toks))`: the token of the
      last column so named among the first `min(|cols|, |toks|)`. */
  function Field(cols: seq<string>, toks: seq<string>, name: string): (r: Option<string>)
    ensures r.Some? <==> exists j :: 0 <= j < |cols| && j < |toks| && cols[j] == name
    ensures r.Some? ==> r.value in toks
    decreases |cols|
  {
    var n := if |cols| < |toks| then |cols| else |toks|;
    if n == 0 then None
    else if cols[n - 1] == name then Some(toks[n - 1])
    else
      var r := Field(cols[..n - 1], toks[..n - 1], name);
      assert r.Some? ==> r.value in toks by {
        if r.Some? {
          var k :| 0 <= k < n - 1 && toks[..n - 1][k] == r.value;
          assert toks[k] == r.value;
        }
      }
      r
  }

  /** The six virial components of an atom line, if all present and numeric. */
  function StressOf(cols: seq<string>, toks: seq<string>): (r: Option<Tensor6>)
    ensures r.Some? <==> && Component(cols, toks, 0).Some? && Component(cols, toks, 1).Some?
                         && Component(cols, toks, 2).Some? && Component(cols, toks, 3).Some?
                         && Component(cols, toks, 4).Some? && Component(cols, toks, 5).Some?
  {
    var xx := Component(cols, toks, 0);
    var yy := Component(cols, toks, 1);
    var zz := Component(cols, toks, 2);
    var xy := Component(cols, toks, 3);
    var xz := Component(cols, toks, 4);
    var yz := Component(cols, toks, 5);
    if xx.None? || yy.None? || zz.None? || xy.None? || xz.None? || yz.None? then None
    else Some(Tensor6(xx.value, yy.value, zz.value, xy.value, xz.value, yz.value))
  }

  /** `float(rec['c_MyStress[k+1]'])`: missing when the column is absent
      or the line too short to reach it. */
  function Component(cols: seq<string>, toks: seq<string>, k: nat): (r: Option<real>)
    requires k < 6
    ensures Field(cols, toks, StressColumns[k]).None? ==> r.None?
    ensures r.Some? ==> ParseFloat(Field(cols, toks, StressColumns[k]).value) == r
  {
    var f := Field(cols, toks, StressColumns[k]);
    if f.None? then None else ParseFloat(f.value)
  }

  /** The `try` block: the id (the `id` column, else the first token) and
      the six virial components; `None` is the `except: continue`. */
  function AtomRecord(cols: seq<string>, toks: seq<string>): (r: Option<(int, Tensor6)>)
    requires |toks| > 0
    ensures r.Some? <==> StressOf(cols, toks).Some? && ParseInt(Field(cols, toks, "id").GetOr(toks[0])).Some?
    ensures r.Some? ==> Some(r.value.0) == ParseInt(Field(cols, toks, "id").GetOr(toks[0]))
  {
    var aid := ParseInt(Field(cols, toks, "id").GetOr(toks[0]));
    var v := StressOf(cols, toks);
    if aid.None? || v.None? then None else Some((aid.value, v.value))
  }

  /** `atom.setdefault(aid, []).append(sample)`. */
  function Append(t: Trajectories, aid: int, s: Sample): (r: Trajectories)
    requires t.Valid()
    ensures r.Valid()
    ensures aid in r.series && r.series[aid] == (if aid in t.series then t.series[aid] else []) + [s]
    ensures forall a :: a != aid ==> (a in r.series <==> a in t.series)
    ensures forall a :: a != aid && a in t.series ==> r.series[a] == t.series[a]
    ensures t.ids <= r.ids
  {
    if aid in t.series then Trajectories(t.ids, t.series[aid := t.series[aid] + [s]])
    else Trajectories(t.ids + [aid], t.series[aid := [s]])
  }

  /** What a stripped line is to the reader. */
  datatype LineKind = TimestepItem | AtomsItem(cols: seq<string>) | OtherItem | DataLine(toks: seq<string>)

  /** A line with its kind and its value as an integer, when it is one
      (the reader needs the latter for the line after `ITEM: TIMESTEP`). */
  datatype Line = Line(kind: LineKind, asInt: Option<int>)

  function Classify(line: string): (k: LineKind)
    ensures k.DataLine? <==> !StartsWith(Strip(line), "ITEM:")
    ensures k.DataLine? ==> k.toks == Split(Strip(line))
  {
    var s := Strip(line);
    if StartsWith(s, "ITEM:") then
      if Contains(s, "TIMESTEP") then TimestepItem
      else if Contains(s, "ATOMS") then AtomsItem(Split(ReplaceAll(s, "ITEM: ATOMS", "")))
      else OtherItem
    else DataLine(Split(s))
  }

  function ReadLines(lines: seq<string>): (r: seq<Line>)
    ensures |r| == |lines|
    ensures forall i :: 0 <= i < |lines| ==> r[i] == Line(Classify(lines[i]), ParseInt(lines[i]))
  {
    seq(|lines|, i requires 0 <= i < |lines| => Line(Classify(lines[i]), ParseInt(lines[i])))
  }

  /** The reader loop over the remaining lines. The `int()` of a timestep
      line is outside the `try`, so a bad or missing one aborts the parse. */
  function Run(lines: seq<Line>, st: DumpState, dtFs: real): (r: Result<DumpState>)
    requires st.atoms.Valid()
    ensures r.Success? ==> r.value.atoms.Valid() && st.atoms.ids <= r.value.atoms.ids
    decreases |lines|
  {
    if |lines| == 0 then Success(st)
    else
      match lines[0].kind
      case TimestepItem =>
        if |lines| < 2 || lines[1].asInt.None? then Failure("invalid timestep")
        else Run(lines[2..], st.(tps := Some(StepToPs(lines[1].asInt.value as real, dtFs)), reading := false), dtFs)
      case AtomsItem(cols) =>
        Run(lines[1..], st.(cols := Some(cols), reading := true), dtFs)
      case OtherItem =>
        Run(lines[1..], st.(reading := false), dtFs)
      case DataLine(toks) =>
        Run(lines[1..], Consume(st, toks), dtFs)
  }

  /** Whether an atom line is recorded: atoms are being read, the line is
      not blank, the record parses and a frame time is known. */
  predicate Accepted(st: DumpState, toks: seq<string>)
  {
    st.reading && st.cols.Some? && |toks| > 0 && st.tps.Some? && AtomRecord(st.cols.value, toks).Some?
  }

  /** One atom line: an accepted line appends its sample, stamped with the
      frame time, to its atom's series; any other line changes nothing. */
  function Consume(st: DumpState, toks: seq<string>): (r: DumpState)
    requires st.atoms.Valid()
    ensures r.atoms.Valid() && st.atoms.ids <= r.atoms.ids
    ensures r.tps == st.tps && r.cols == st.cols && r.reading == st.reading
    ensures !Accepted(st, toks) ==> r == st
    ensures Accepted(st, toks) ==> var rec := AtomRecord(st.cols.value, toks).value;
              && rec.0 in r.atoms.series
              && r.atoms.series[rec.0] == (if rec.0 in st.atoms.series then st.atoms.series[rec.0] else [])
                                          + [Sample(st.tps.value, rec.1)]
              && forall a :: a != rec.0 && a in st.atoms.series ==> a in r.atoms.series && r.atoms.series[a] == st.atoms.series[a]
  {
    if !st.reading || st.cols.None? || |toks| == 0 then st
    else
      var rec := AtomRecord(st.cols.value, toks);
      if rec.None? || st.tps.None? then st
      else st.(atoms := Append(st.atoms, rec.value.0, Sample(st.tps.value, rec.value.1)))
  }

  function SampleTime(s: Sample): real
  {
    s.time
  }

  /** `parse_ablate_dump`: each atom's samples ordered by time. */
  function ParseDump(lines: seq<string>, dtFs: real): (r: Result<Trajectories>)
    ensures r.Success? ==> r.value.Valid()
    ensures r.Success? ==> forall a :: a in r.value.series ==> SortedBy(r.value.series[a], SampleTime)
    ensures r.Success? <==> Run(ReadLines(lines), Initial(), dtFs).Success?
    ensures r.Success? ==>
              var read := Run(ReadLines(lines), Initial(), dtFs).value.atoms;
              && r.value.ids == read.ids
              && forall a :: a in r.value.series ==> multiset(r.value.series[a]) == multiset(read.series[a])
  {
    var st := Run(ReadLines(lines), Initial(), dtFs);
    if st.Failure? then Failure(st.error)
    else
      var t := st.value.atoms;
      Success(Trajectories(t.ids, map a | a in t.series :: SortBy(t.series[a], SampleTime)))
  }

  /** While atom lines are not being read, lines that are not `ITEM:`
      lines are passed over without effect. */
  lemma {:induction false} IgnoredWhileNotReading(block: seq<Line>, rest: seq<Line>, st: DumpState, dtFs: real)
    requires st.atoms.Valid() && !st.reading
    requires forall k :: 0 <= k < |block| ==> block[k].kind.DataLine?
    ensures Run(block + rest, st, dtFs) == Run(rest, st, dtFs)
    decreases |block|
  {
    if |block| > 0 {
      assert (block + rest)[0] == block[0];
      assert Consume(st, block[0].kind.toks) == st;
      assert (block + rest)[1..] == block[1..] + rest;
      IgnoredWhileNotReading(block[1..], rest, st, dtFs);
    } else {
      assert block + rest == rest;
    }
  }

  /** An `ITEM:` line other than `TIMESTEP` and `ATOMS` stops the reading
      of atom lines until the next `ITEM:` line. */
  lemma OtherItemStopsReading(item: Line, block: seq<Line>, rest: seq<Line>, st: DumpState, dtFs: real)
    requires st.atoms.Valid()
    requires item.kind == OtherItem
    requires forall k :: 0 <= k < |block| ==> block[k].kind.DataLine?
    ensures Run([item] + block + rest, st, dtFs) == Run(rest, st.(reading := false), dtFs)
  {
    assert ([item] + block + rest)[1..] == block + rest;
    IgnoredWhileNotReading(block, rest, st.(reading := false), dtFs);
  }

  /** `ITEM: ATOMS` fixes the column names and starts the reading of atom
      lines. */
  lemma AtomsItemStartsReading(item: Line, rest: seq<Line>, st: DumpState, dtFs: real)
    requires st.atoms.Valid() && item.kind.AtomsItem?
    ensures Run([item] + rest, st, dtFs) == Run(rest, st.(cols := Some(item.kind.cols), reading := true), dtFs)
  {
    assert ([item] + rest)[1..] == rest;
  }

  /** An accepted atom line is recorded: its sample, stamped with the frame
      time, is appended to its atom's series before the rest is read. */
  lemma AtomLineRecorded(line: Line, rest: seq<Line>, st: DumpState, dtFs: real, aid: int, v: Tensor6)
    requires st.atoms.Valid() && st.reading && st.cols.Some? && st.tps.Some?
    requires line.kind.DataLine? && |line.kind.toks| > 0
    requires AtomRecord(st.cols.value, line.kind.toks) == Some((aid, v))
    ensures Run([line] + rest, st, dtFs) == Run(rest, st.(atoms := Append(st.atoms, aid, Sample(st.tps.value, v))), dtFs)
  {
    DataLineStep(line, rest, st, dtFs);
    assert Consume(st, line.kind.toks) == st.(atoms := Append(st.atoms, aid, Sample(st.tps.value, v)));
  }

  /** A line that is not an `ITEM:` line is consumed, then the rest is read. */
  lemma DataLineStep(line: Line, rest: seq<Line>, st: DumpState, dtFs: real)
    requires st.atoms.Valid() && line.kind.DataLine?
    ensures Run([line] + rest, st, dtFs) == Run(rest, Consume(st, line.kind.toks), dtFs)
  {
    assert ([line] + rest)[1..] == rest;
  }

  /** An atom line lacking one of the six stress columns adds nothing. */
  lemma MissingStressSkipped(line: Line, rest: seq<Line>, st: DumpState, dtFs: real, k: nat)
    requires st.atoms.Valid() && st.reading && st.cols.Some?
    requires line.kind.DataLine? && |line.kind.toks| > 0
    requires k < 6 && Field(st.cols.value, line.kind.toks, StressColumns[k]).None?
    ensures Run([line] + rest, st, dtFs) == Run(rest, st, dtFs)
  {
    var toks := line.kind.toks;
    assert Component(st.cols.value, toks, k).None?;
    assert StressOf(st.cols.value, toks).None? by {
      if k == 0 {} else if k == 1 {} else if k == 2 {} else if k == 3 {} else if k == 4 {} else {}
    }
    assert Consume(st, toks) == st;
    assert ([line] + rest)[1..] == rest;
  }

  /** `ITEM: TIMESTEP` followed by a step line sets the frame time to
      `step * dt_fs * 1e-3` and stops atom reading; a following line that
      is not an integer aborts the parse. */
  lemma TimestepSetsTime(item: Line, stepLine: Line, rest: seq<Line>, st: DumpState, dtFs: real)
    requires st.atoms.Valid()
    requires item.kind == TimestepItem
    ensures stepLine.asInt.Some? ==>
              Run([item, stepLine] + rest, st, dtFs)
              == Run(rest, st.(tps := Some(StepToPs(stepLine.asInt.value as real, dtFs)), reading := false), dtFs)
    ensures stepLine.asInt.None? ==> Run([item, stepLine] + rest, st, dtFs).Failure?
  {
    var lines := [item, stepLine] + rest;
    assert lines[0] == item && lines[1] == stepLine;
    assert lines[2..] == rest;
  }
}

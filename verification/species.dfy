/** `parse_species` of stress.py: the LAMMPS species table. Lines starting
    with `#` set the column header, data lines become records keyed by that
    header, the time column is located (case-insensitively), the CO and CO2
    counts are summed per row, the rows are ordered by time with one row per
    time, and the production rate is the gradient of the count over time. */
module Species {
  import opened Wrappers
  import opened Text
  import opened Cells
  import opened Reals
  import opened Sorting

  /** A data line accepted under `header`, as `dict(zip(header, tokens))`. */
  datatype Record = Record(header: seq<string>, cells: map<string, Cell>)

  /** The scanner state: the header in force, if any, and the records so far. */
  datatype ScanState = ScanState(cols: Option<seq<string>>, records: seq<Record>)

  /** One row of the returned table. */
  datatype SpeciesRow = SpeciesRow(timePs: real, timestep: real, total: real, rate: real)

  /** `re.sub(r'^#+\s*', '', s).split()`: the run of leading `#` removed;
      the whitespace after it is dropped by the split anyway. */
  function HeaderOf(s: string): (cols: seq<string>)
    ensures forall k :: 0 <= k < |cols| ==> |cols[k]| > 0 && NoSpace(cols[k])
  {
    Split(DropHashes(s))
  }

  function DropHashes(s: string): (r: string)
    ensures |r| <= |s| && r == s[|s| - |r|..]
    ensures |r| > 0 ==> r[0] != '#'
    ensures forall i :: 0 <= i < |s| - |r| ==> s[i] == '#'
  {
    if |s| > 0 && s[0] == '#' then DropHashes(s[1..]) else s
  }

  /** `dict(zip(cols, vals))` with at least as many tokens as columns: every
      column is a key, and a repeated column keeps its last token. */
  function Zip<V>(cols: seq<string>, vals: seq<V>): (m: map<string, V>)
    requires |cols| <= |vals|
    ensures forall c :: c in m <==> c in cols
    ensures forall j :: 0 <= j < |cols| && LastOccurrence(cols, j) ==> m[cols[j]] == vals[j]
  {
    if |cols| == 0 then map[]
    else
      var n := |cols| - 1;
      var m := Zip(cols[..n], vals);
      ZipStep(cols, vals, m);
      m[cols[n] := vals[n]]
  }

  lemma ZipStep<V>(cols: seq<string>, vals: seq<V>, m: map<string, V>)
    requires 0 < |cols| <= |vals|
    requires forall c :: c in m <==> c in cols[..|cols| - 1]
    requires forall j :: 0 <= j < |cols| - 1 && LastOccurrence(cols[..|cols| - 1], j) ==> m[cols[j]] == vals[j]
    ensures var m' := m[cols[|cols| - 1] := vals[|cols| - 1]];
            (forall c :: c in m' <==> c in cols)
            && forall j :: 0 <= j < |cols| && LastOccurrence(cols, j) ==> m'[cols[j]] == vals[j]
  {
    var n := |cols| - 1;
    var m' := m[cols[n] := vals[n]];
    assert cols == cols[..n] + [cols[n]];
    forall j | 0 <= j < |cols| && LastOccurrence(cols, j)
      ensures m'[cols[j]] == vals[j]
    {
      if j < n {
        assert cols[n] != cols[j];
        assert LastOccurrence(cols[..n], j);
      }
    }
  }

  /** `_safe_num` of every token. */
  function SafeNums(tokens: seq<string>): (cs: seq<Cell>)
    ensures |cs| == |tokens| && forall i :: 0 <= i < |tokens| ==> cs[i] == SafeNum(tokens[i])
  {
    seq(|tokens|, i requires 0 <= i < |tokens| => SafeNum(tokens[i]))
  }

  /** No later column repeats the name of column `j`. */
  predicate LastOccurrence(cols: seq<string>, j: int)
    requires 0 <= j < |cols|
  {
    forall l :: j < l < |cols| ==> cols[l] != cols[j]
  }

  /** The keys of a record are exactly the columns of its header. */
  ghost predicate KeyedByHeader(rec: Record)
  {
    forall c :: c in rec.cells <==> c in rec.header
  }

  /** One iteration of the line loop. */
  function ScanLine(st: ScanState, line: string): (r: ScanState)
    ensures st.records <= r.records && |r.records| <= |st.records| + 1
    ensures r.cols != st.cols ==> |Strip(line)| > 0 && Strip(line)[0] == '#'
    ensures forall k :: |st.records| <= k < |r.records| ==> KeyedByHeader(r.records[k])
  {
    var s := Strip(line);
    if |s| == 0 then st
    else if s[0] == '#' then ScanState(Some(HeaderOf(s)), st.records)
    else if st.cols.None? then st
    else
      var vals := Split(s);
      if |vals| < |st.cols.value| then st
      else ScanState(st.cols, st.records + [Record(st.cols.value, Zip(st.cols.value, SafeNums(vals)))])
  }

  /** The state after the whole file. */
  function Scan(lines: seq<string>): (r: ScanState)
    ensures |r.records| <= |lines|
  {
    if |lines| == 0 then ScanState(None, [])
    else ScanLine(Scan(lines[..|lines| - 1]), lines[|lines| - 1])
  }

  predicate IsHeaderLine(line: string)
  {
    |Strip(line)| > 0 && Strip(line)[0] == '#'
  }

  /** Blank lines change nothing. */
  lemma BlankLineIgnored(lines: seq<string>, line: string)
    requires |Strip(line)| == 0
    ensures Scan(lines + [line]) == Scan(lines)
  {
    assert (lines + [line])[..|lines|] == lines;
  }

  /** A `#` line replaces the header and adds no record. */
  lemma HeaderLineReplaces(lines: seq<string>, line: string)
    requires IsHeaderLine(line)
    ensures Scan(lines + [line]).cols == Some(HeaderOf(Strip(line)))
    ensures Scan(lines + [line]).records == Scan(lines).records
  {
    assert (lines + [line])[..|lines|] == lines;
  }

  /** A data line with fewer tokens than the header is skipped. */
  lemma ShortLineSkipped(lines: seq<string>, line: string)
    requires !IsHeaderLine(line)
    requires Scan(lines).cols.Some? && |Split(Strip(line))| < |Scan(lines).cols.value|
    ensures Scan(lines + [line]) == Scan(lines)
  {
    assert (lines + [line])[..|lines|] == lines;
  }

  /** Until the first `#` line nothing is recorded. */
  lemma {:induction false} NoRecordBeforeHeader(lines: seq<string>)
    requires forall k :: 0 <= k < |lines| ==> !IsHeaderLine(lines[k])
    ensures Scan(lines) == ScanState(None, [])
  {
    if |lines| > 0 {
      NoRecordBeforeHeader(lines[..|lines| - 1]);
    }
  }

  /** Every record carries exactly its header's columns as keys. */
  lemma {:induction false} RecordsKeyedByHeader(lines: seq<string>)
    ensures forall k :: 0 <= k < |Scan(lines).records| ==> KeyedByHeader(Scan(lines).records[k])
  {
    if |lines| > 0 {
      RecordsKeyedByHeader(lines[..|lines| - 1]);
    }
  }

  /** `pd.DataFrame(rows).columns`: the columns in order of first appearance. */
  function Columns(records: seq<Record>): (cs: seq<string>)
    ensures forall c :: c in cs <==> exists k :: 0 <= k < |records| && c in records[k].header
  {
    if |records| == 0 then []
    else
      var cs := AppendNew(Columns(records[..|records| - 1]), records[|records| - 1].header);
      assert forall k :: 0 <= k < |records| - 1 ==> records[..|records| - 1][k] == records[k];
      cs
  }

  function AppendNew(cs: seq<string>, more: seq<string>): (r: seq<string>)
    ensures forall c :: c in r <==> c in cs || c in more
    ensures cs <= r
  {
    if |more| == 0 then cs
    else
      var r := AppendNew(cs, more[..|more| - 1]);
      var c := more[|more| - 1];
      assert forall x :: x in more <==> x in more[..|more| - 1] || x == c by {
        assert more == more[..|more| - 1] + [c];
      }
      if c in r then r else r + [c]
  }

  /** The column used as `Timestep`: itself when present, else the first
      column whose lowercase is `timestep` (renamed); `None` raises. */
  function TimestepColumn(cols: seq<string>): (r: Option<string>)
    ensures "Timestep" in cols ==> r == Some("Timestep")
    ensures r.Some? ==> r.value in cols && Lower(r.value) == "timestep"
    ensures r.None? <==> forall c :: c in cols ==> Lower(c) != "timestep"
    ensures r.Some? && "Timestep" !in cols ==>
      exists i :: 0 <= i < |cols| && cols[i] == r.value && forall j :: 0 <= j < i ==> Lower(cols[j]) != "timestep"
  {
    LowerTimestep();
    if "Timestep" in cols then Some("Timestep") else FirstLowered(cols, "timestep")
  }

  lemma LowerTimestep()
    ensures Lower("Timestep") == "timestep"
  {
  }

  /** `next((c for c in cols if c.lower() == target), None)`. */
  function FirstLowered(cols: seq<string>, target: string): (r: Option<string>)
    ensures r.Some? ==> r.value in cols && Lower(r.value) == target
    ensures r.None? <==> forall c :: c in cols ==> Lower(c) != target
    ensures r.Some? ==>
      exists i :: 0 <= i < |cols| && cols[i] == r.value && forall j :: 0 <= j < i ==> Lower(cols[j]) != target
  {
    if |cols| == 0 then None
    else if Lower(cols[0]) == target then
      assert cols[0] == cols[0];
      Some(cols[0])
    else
      var r := FirstLowered(cols[1..], target);
      assert forall c :: c in cols <==> c == cols[0] || c in cols[1..] by {
        assert cols == [cols[0]] + cols[1..];
      }
      if r.Some? then
        var i :| 0 <= i < |cols[1..]| && cols[1..][i] == r.value && forall j :: 0 <= j < i ==> Lower(cols[1..][j]) != target;
        assert cols[i + 1] == r.value && forall j :: 0 <= j < i + 1 ==> Lower(cols[j]) != target;
        r
      else r
  }

  /** A CO column: its lowercase name contains `co` but not `co2`. */
  predicate IsCoColumn(c: string)
  {
    Contains(Lower(c), "co") && !Contains(Lower(c), "co2")
  }

  /** A CO2 column: its lowercase name contains `co2`. */
  predicate IsCo2Column(c: string)
  {
    Contains(Lower(c), "co2")
  }

  function Filter(cols: seq<string>, p: string -> bool): (r: seq<string>)
    ensures forall c :: c in r <==> c in cols && p(c)
  {
    if |cols| == 0 then []
    else
      var rest := Filter(cols[..|cols| - 1], p);
      var c := cols[|cols| - 1];
      assert forall x :: x in cols <==> x in cols[..|cols| - 1] || x == c by {
        assert cols == cols[..|cols| - 1] + [c];
      }
      if p(c) then rest + [c] else rest
  }

  function CoColumns(cols: seq<string>): seq<string>
  {
    Filter(cols, IsCoColumn)
  }

  function Co2Columns(cols: seq<string>): seq<string>
  {
    Filter(cols, IsCo2Column)
  }

  /** No column is counted both as CO and as CO2. */
  lemma CoCo2Disjoint(cols: seq<string>)
    ensures forall c :: c in CoColumns(cols) ==> c !in Co2Columns(cols)
    ensures forall c :: c in cols && Contains(Lower(c), "co") ==> c in CoColumns(cols) || c in Co2Columns(cols)
  {
  }

  /** The `['CO']` and `['CO2']` fallbacks never fire: a column named `CO`
      or `CO2` is already picked up by the substring test. */
  lemma FallbacksNeverFire(cols: seq<string>)
    ensures "CO" in cols ==> "CO" in CoColumns(cols)
    ensures "CO2" in cols ==> "CO2" in Co2Columns(cols)
  {
    assert Lower("CO") == "co";
    assert Lower("CO2") == "co2";
    assert OccursAt("co", "co", 0);
    assert OccursAt("co2", "co2", 0);
    assert !Contains("co", "co2");
  }

  /** `astype(float).sum(axis=1)` over the listed columns of one record:
      absent cells (NaN) are skipped, text raises. */
  function RowSum(cells: map<string, Cell>, cs: seq<string>): (r: Option<real>)
    ensures (forall c :: c in cs && c in cells ==> cells[c].Num?) ==> r.Some?
  {
    if |cs| == 0 then Some(0.0)
    else
      var rest := RowSum(cells, cs[..|cs| - 1]);
      var c := cs[|cs| - 1];
      if rest.None? then None
      else if c !in cells then rest
      else
        match AsFloat(cells[c])
        case None => None
        case Some(x) => Some(rest.value + x)
  }

  /** Summing the CO and CO2 columns together is summing each group and
      adding (`CO_CO2_total += co sum; += co2 sum`); either group raising
      makes the whole raise. */
  lemma {:induction false} RowSumSplit(cells: map<string, Cell>, a: seq<string>, b: seq<string>)
    ensures RowSum(cells, a + b).Some? <==> RowSum(cells, a).Some? && RowSum(cells, b).Some?
    ensures RowSum(cells, a + b).Some? ==> RowSum(cells, a + b).value == RowSum(cells, a).value + RowSum(cells, b).value
  {
    if |b| == 0 {
      assert a + b == a;
    } else {
      var n := |b| - 1;
      assert (a + b)[..|a + b| - 1] == a + b[..n];
      assert (a + b)[|a + b| - 1] == b[n];
      RowSumSplit(cells, a, b[..n]);
    }
  }

  /** Nonnegative counts give a nonnegative total. */
  lemma {:induction false} RowSumNonneg(cells: map<string, Cell>, cs: seq<string>)
    requires forall c :: c in cs && c in cells ==> cells[c].Num? && cells[c].value >= 0.0
    ensures RowSum(cells, cs).Some? && RowSum(cells, cs).value >= 0.0
  {
    if |cs| > 0 {
      RowSumNonneg(cells, cs[..|cs| - 1]);
    }
  }

  /** A record reduced to what the table keeps of it: its step and
      `time_ps`, or neither (NaN) when the record has no cell in the time
      column, and its CO + CO2 total. */
  datatype Entry = Stamped(step: real, timePs: real, total: real) | Unstamped(total: real)

  /** The reduction of one record; `None` when a cell that is needed is
      text that `float()` rejects (`astype(float)` raises). */
  function RowOf(rec: Record, ts: string, co: seq<string>, co2: seq<string>, dtFs: real): (r: Option<Entry>)
    ensures r.Some? <==> RowSum(rec.cells, co + co2).Some? && (ts in rec.cells ==> AsFloat(rec.cells[ts]).Some?)
    ensures r.Some? ==> r.value.total == RowSum(rec.cells, co + co2).value
    ensures r.Some? ==> (r.value.Stamped? <==> ts in rec.cells)
    ensures r.Some? && ts in rec.cells ==>
              Some(r.value.step) == AsFloat(rec.cells[ts]) && r.value.timePs == StepToPs(r.value.step, dtFs)
  {
    var total := RowSum(rec.cells, co + co2);
    if total.None? then None
    else if ts !in rec.cells then Some(Unstamped(total.value))
    else
      var step := AsFloat(rec.cells[ts]);
      if step.None? then None else Some(Stamped(step.value, StepToPs(step.value, dtFs), total.value))
  }

  function RowsOf(records: seq<Record>, ts: string, co: seq<string>, co2: seq<string>, dtFs: real): (r: Option<seq<Entry>>)
    ensures r.Some? ==> |r.value| == |records|
    ensures r.Some? ==> forall k :: 0 <= k < |records| ==> RowOf(records[k], ts, co, co2, dtFs) == Some(r.value[k])
    ensures r.None? ==> exists k :: 0 <= k < |records| && RowOf(records[k], ts, co, co2, dtFs).None?
  {
    if |records| == 0 then Some([])
    else
      var n := |records| - 1;
      var rest := RowsOf(records[..n], ts, co, co2, dtFs);
      var last := RowOf(records[n], ts, co, co2, dtFs);
      if rest.None? then
        var k :| 0 <= k < n && RowOf(records[..n][k], ts, co, co2, dtFs).None?;
        assert records[..n][k] == records[k];
        None
      else if last.None? then None
      else
        var r := rest.value + [last.value];
        assert forall k :: 0 <= k < n ==> records[..n][k] == records[k];
        Some(r)
  }

  /** The `time_ps` of an entry; `None` stands for NaN. */
  function EntryTime(e: Entry): Option<real>
  {
    if e.Stamped? then Some(e.timePs) else None
  }

  /** No later entry has the time of entry `i` (NaN counting as one value,
      as `drop_duplicates` treats it). */
  predicate NoLaterTime(es: seq<Entry>, i: int)
    requires 0 <= i < |es|
  {
    forall j :: i < j < |es| ==> EntryTime(es[j]) != EntryTime(es[i])
  }

  /** The pre-rate row of an entry with a time. */
  function TimedRow(e: Entry): SpeciesRow
    requires e.Stamped?
  {
    SpeciesRow(e.timePs, e.step, e.total, 0.0)
  }

  /** The rows of the entries with a time, in input order. */
  function Timed(es: seq<Entry>): (rows: seq<SpeciesRow>)
    ensures |rows| <= |es|
    ensures forall i :: 0 <= i < |es| && es[i].Stamped? ==> TimedRow(es[i]) in rows
  {
    if |es| == 0 then []
    else
      var n := |es| - 1;
      var front := Timed(es[..n]);
      assert forall i :: 0 <= i < n ==> es[..n][i] == es[i];
      if es[n].Stamped? then front + [TimedRow(es[n])] else front
  }

  /** A row that is the last of its time among the timed rows comes from an
      entry that no later entry shares a time with. */
  lemma {:induction false} TimedLast(es: seq<Entry>, k: int)
    requires IsLastWithKey(Timed(es), TimeKey, k)
    ensures exists i :: 0 <= i < |es| && es[i].Stamped? && Timed(es)[k] == TimedRow(es[i]) && NoLaterTime(es, i)
  {
    var n := |es| - 1;
    var front := Timed(es[..n]);
    assert forall i :: 0 <= i < n ==> es[..n][i] == es[i];
    if es[n].Stamped? && k == |front| {
      assert Timed(es)[k] == TimedRow(es[n]);
      assert NoLaterTime(es, n);
    } else {
      var t := Timed(es);
      assert forall j :: 0 <= j < |front| ==> t[j] == front[j];
      assert IsLastWithKey(front, TimeKey, k) by {
        forall j | k < j < |front| ensures TimeKey(front[j]) != TimeKey(front[k]) {
          assert TimeKey(t[j]) != TimeKey(t[k]);
        }
      }
      TimedLast(es[..n], k);
      var i :| 0 <= i < n && es[..n][i].Stamped? && front[k] == TimedRow(es[..n][i]) && NoLaterTime(es[..n], i);
      assert NoLaterTime(es, i) by {
        forall j | i < j < |es| ensures EntryTime(es[j]) != EntryTime(es[i]) {
          if j < n {
            assert EntryTime(es[..n][j]) != EntryTime(es[..n][i]);
          } else if es[n].Stamped? {
            assert t[|front|] == TimedRow(es[n]);
          }
        }
      }
    }
  }

  /** The CO + CO2 total of the last entry without a time, if any: after
      `sort_values` the NaN times come last in input order, and
      `drop_duplicates(keep='last')` keeps the last of them. */
  function LastUntimed(es: seq<Entry>): (r: Option<real>)
    ensures r.Some? <==> exists i :: 0 <= i < |es| && es[i].Unstamped?
    ensures r.Some? ==> exists i :: 0 <= i < |es| && es[i] == Unstamped(r.value) && NoLaterTime(es, i)
    ensures UntimedFrom(es, r)
  {
    if |es| == 0 then None
    else
      var n := |es| - 1;
      if es[n].Unstamped? then
        assert NoLaterTime(es, n);
        Some(es[n].total)
      else
        var r := LastUntimed(es[..n]);
        assert forall i :: 0 <= i < n ==> es[..n][i] == es[i];
        if r.Some? then
          var i :| 0 <= i < n && es[..n][i] == Unstamped(r.value) && NoLaterTime(es[..n], i);
          assert NoLaterTime(es, i) by {
            forall j | i < j < |es| ensures EntryTime(es[j]) != EntryTime(es[i]) {
              if j < n {
                assert EntryTime(es[..n][j]) != EntryTime(es[..n][i]);
              }
            }
          }
          r
        else r
  }

  /** The production rate: `np.gradient(y, t)` when there are at least
      three points spanning a positive time, zeros otherwise. The gradient
      itself is the parameter `grad`, giving the estimate at each index. */
  function Rate(t: seq<real>, y: seq<real>, grad: (seq<real>, seq<real>, nat) -> real): (r: seq<real>)
    requires |t| == |y|
    ensures |r| == |y|
    ensures |t| < 3 ==> forall i :: 0 <= i < |r| ==> r[i] == 0.0
  {
    if |t| >= 3 && MaxOf(t) - MinOf(t) > 0.0 then seq(|y|, i requires 0 <= i < |y| => grad(y, t, i))
    else seq(|y|, i => 0.0)
  }

  /** On strictly increasing times the zero-span guard is implied by the
      length guard: two or more distinct times always span a positive time. */
  lemma SpanPositive(t: seq<real>)
    requires StrictlyAscending(t)
    ensures |t| >= 2 ==> MaxOf(t) - MinOf(t) > 0.0
  {
    if |t| >= 2 {
      assert t[0] < t[|t| - 1];
    }
  }

  function Times(rows: seq<SpeciesRow>): (t: seq<real>)
    ensures |t| == |rows| && forall i :: 0 <= i < |rows| ==> t[i] == rows[i].timePs
  {
    seq(|rows|, i requires 0 <= i < |rows| => rows[i].timePs)
  }

  function Totals(rows: seq<SpeciesRow>): (y: seq<real>)
    ensures |y| == |rows| && forall i :: 0 <= i < |rows| ==> y[i] == rows[i].total
  {
    seq(|rows|, i requires 0 <= i < |rows| => rows[i].total)
  }

  function TimeKey(r: SpeciesRow): real
  {
    r.timePs
  }

  /** The rows ordered by time, one per time: the last row read for it. */
  function ByTime(rows: seq<SpeciesRow>): (u: seq<SpeciesRow>)
    ensures |u| <= |rows|
    ensures StrictlyAscending(Times(u))
    ensures forall x :: x in rows ==> exists k :: 0 <= k < |u| && u[k].timePs == x.timePs
    ensures forall k :: 0 <= k < |u| ==> exists i :: 0 <= i < |rows| && u[k] == rows[i] && IsLastWithKey(rows, TimeKey, i)
  {
    var u := LastPerKey(rows, TimeKey);
    assert Times(u) == Keys(u, TimeKey);
    u
  }

  /** The rows with their `rate_per_ps` filled in. With a row of NaN
      time in the table (`untimed`), `np.ptp(t)` is NaN, the guard fails
      and every rate is zero. */
  function WithRate(u: seq<SpeciesRow>, untimed: bool, grad: (seq<real>, seq<real>, nat) -> real): (r: seq<SpeciesRow>)
    ensures |r| == |u| && Times(r) == Times(u)
    ensures forall i :: 0 <= i < |u| ==> r[i] == u[i].(rate := r[i].rate)
    ensures untimed || |u| < 3 ==> forall i :: 0 <= i < |r| ==> r[i].rate == 0.0
  {
    var rate := if untimed then seq(|u|, i => 0.0) else Rate(Times(u), Totals(u), grad);
    seq(|u|, i requires 0 <= i < |u| => u[i].(rate := rate[i]))
  }

  /** The table `parse_species` returns: the rows with a time, ordered by
      time with one row per time, and the CO + CO2 total of the row whose
      time is NaN, which sorts after them, when there is one. */
  datatype SpeciesTable = SpeciesTable(rows: seq<SpeciesRow>, untimed: Option<real>)

  /** The rows: ordered by time with one row per time, each the row of the
      last entry read with its time (`time_ps = Timestep * dt_fs * 1e-3`),
      and every time read having its row. */
  ghost predicate RowsFrom(es: seq<Entry>, rows: seq<SpeciesRow>)
  {
    && StrictlyAscending(Times(rows))
    && (forall k :: 0 <= k < |rows| ==> FromLastEntry(es, rows[k]))
    && (forall t :: t in StampTimes(es) ==> t in Times(rows))
  }

  /** Apart from its rate, `row` is the row of an entry with a time that
      no later entry shares. */
  ghost predicate FromLastEntry(es: seq<Entry>, row: SpeciesRow)
  {
    exists i :: 0 <= i < |es| && es[i].Stamped? && row.(rate := 0.0) == TimedRow(es[i]) && NoLaterTime(es, i)
  }

  /** The times read. */
  function StampTimes(es: seq<Entry>): set<real>
  {
    set i | 0 <= i < |es| && es[i].Stamped? :: es[i].timePs
  }

  /** The NaN-time row: present exactly when some entry has no time, and
      then the total of the last such entry. */
  ghost predicate UntimedFrom(es: seq<Entry>, untimed: Option<real>)
  {
    && (untimed.Some? <==> exists i :: 0 <= i < |es| && es[i].Unstamped?)
    && (untimed.Some? ==> exists i :: 0 <= i < |es| && es[i] == Unstamped(untimed.value) && NoLaterTime(es, i))
  }

  /** The rates: zero unless there are three or more rows, all with a
      time; the gradient of the total over time otherwise. */
  ghost predicate RatesOf(rows: seq<SpeciesRow>, untimed: bool, grad: (seq<real>, seq<real>, nat) -> real)
  {
    && (untimed || |rows| < 3 ==> forall k :: 0 <= k < |rows| ==> rows[k].rate == 0.0)
    && (!untimed && |rows| >= 3 ==> forall k :: 0 <= k < |rows| ==> rows[k].rate == grad(Totals(rows), Times(rows), k))
  }

  /** What the table holds, in terms of the record entries `es`. */
  ghost predicate BuiltFrom(es: seq<Entry>, grad: (seq<real>, seq<real>, nat) -> real, t: SpeciesTable)
  {
    RowsFrom(es, t.rows) && UntimedFrom(es, t.untimed) && RatesOf(t.rows, t.untimed.Some?, grad)
  }

  /** The table from the entries of all records. */
  function Build(es: seq<Entry>, grad: (seq<real>, seq<real>, nat) -> real): (t: SpeciesTable)
    ensures BuiltFrom(es, grad, t)
  {
    var u := ByTime(Timed(es));
    var untimed := LastUntimed(es);
    var rows := WithRate(u, untimed.Some?, grad);
    ByTimeFromEntries(es, u);
    RowsFromRated(es, u, rows);
    RatesOfRated(u, untimed.Some?, grad);
    SpeciesTable(rows, untimed)
  }

  /** Filling in the rates keeps what `RowsFrom` says. */
  lemma RowsFromRated(es: seq<Entry>, u: seq<SpeciesRow>, rows: seq<SpeciesRow>)
    requires RowsFrom(es, u)
    requires |rows| == |u| && forall k :: 0 <= k < |u| ==> rows[k] == u[k].(rate := rows[k].rate)
    ensures RowsFrom(es, rows)
  {
    assert Times(rows) == Times(u);
    forall k | 0 <= k < |rows|
      ensures FromLastEntry(es, rows[k])
    {
      assert FromLastEntry(es, u[k]);
      assert rows[k].(rate := 0.0) == u[k].(rate := 0.0);
    }
  }

  lemma RatesOfRated(u: seq<SpeciesRow>, untimed: bool, grad: (seq<real>, seq<real>, nat) -> real)
    requires StrictlyAscending(Times(u))
    ensures RatesOf(WithRate(u, untimed, grad), untimed, grad)
  {
    var rows := WithRate(u, untimed, grad);
    SpanPositive(Times(u));
    assert Totals(rows) == Totals(u);
  }

  /** Each row of `ByTime(Timed(es))` is the timed row of an entry that is
      the last of its time. */
  lemma ByTimeFromEntries(es: seq<Entry>, u: seq<SpeciesRow>)
    requires u == ByTime(Timed(es))
    ensures RowsFrom(es, u)
  {
    ByTimeLast(es, u);
    ByTimeComplete(es, u);
  }

  lemma ByTimeLast(es: seq<Entry>, u: seq<SpeciesRow>)
    requires u == ByTime(Timed(es))
    ensures forall k :: 0 <= k < |u| ==> FromLastEntry(es, u[k])
  {
    var timed := Timed(es);
    forall k | 0 <= k < |u|
      ensures FromLastEntry(es, u[k])
    {
      var m :| 0 <= m < |timed| && u[k] == timed[m] && IsLastWithKey(timed, TimeKey, m);
      TimedLast(es, m);
    }
  }

  lemma ByTimeComplete(es: seq<Entry>, u: seq<SpeciesRow>)
    requires u == ByTime(Timed(es))
    ensures forall t :: t in StampTimes(es) ==> t in Times(u)
  {
    var timed := Timed(es);
    forall t | t in StampTimes(es) ensures t in Times(u) {
      var i :| 0 <= i < |es| && es[i].Stamped? && es[i].timePs == t;
      assert TimedRow(es[i]) in timed;
      var k :| 0 <= k < |u| && u[k].timePs == t;
      assert Times(u)[k] == t;
    }
  }

  /** Some entry gives some row. */
  lemma BuiltNonempty(es: seq<Entry>, grad: (seq<real>, seq<real>, nat) -> real, t: SpeciesTable)
    requires |es| > 0 && BuiltFrom(es, grad, t)
    ensures |t.rows| > 0 || t.untimed.Some?
  {
    if es[0].Stamped? {
      assert es[0].timePs in StampTimes(es);
      assert es[0].timePs in Times(t.rows);
    } else {
      assert exists i :: 0 <= i < |es| && es[i].Unstamped?;
    }
  }

  /** `parse_species` from the records read: `Failure` for the two
      `RuntimeError`s and for a needed cell that `float()` rejects. */
  function FromRecords(recs: seq<Record>, dtFs: real, grad: (seq<real>, seq<real>, nat) -> real): (r: Result<SpeciesTable>)
    ensures r.Success? ==> |recs| > 0 && TimestepColumn(Columns(recs)).Some?
    ensures r.Success? ==>
              var cols := Columns(recs);
              var es := RowsOf(recs, TimestepColumn(cols).value, CoColumns(cols), Co2Columns(cols), dtFs);
              es.Some? && BuiltFrom(es.value, grad, r.value)
    ensures r.Success? ==> |r.value.rows| > 0 || r.value.untimed.Some?
  {
    if |recs| == 0 then Failure("No data parsed")
    else
      var cols := Columns(recs);
      var ts := TimestepColumn(cols);
      if ts.None? then Failure("No 'Timestep' column in species file")
      else
        var es := RowsOf(recs, ts.value, CoColumns(cols), Co2Columns(cols), dtFs);
        if es.None? then Failure("could not convert to float")
        else
          var t := Build(es.value, grad);
          BuiltNonempty(es.value, grad, t);
          Success(t)
  }

  /** `parse_species`: the records of the file, then the table. */
  function ParseSpecies(lines: seq<string>, dtFs: real, grad: (seq<real>, seq<real>, nat) -> real): Result<SpeciesTable>
  {
    FromRecords(Scan(lines).records, dtFs, grad)
  }

  /** The parse succeeds exactly when there is a record, a time column,
      and every record's needed cells convert. */
  lemma ParseSpeciesSucceeds(recs: seq<Record>, dtFs: real, grad: (seq<real>, seq<real>, nat) -> real)
    ensures var cols := Columns(recs);
            var ts := TimestepColumn(cols);
            FromRecords(recs, dtFs, grad).Success? <==>
              |recs| > 0 && ts.Some? && forall k :: 0 <= k < |recs| ==>
                RowOf(recs[k], ts.value, CoColumns(cols), Co2Columns(cols), dtFs).Some?
  {
    var cols := Columns(recs);
    var ts := TimestepColumn(cols);
    if |recs| > 0 && ts.Some? {
      var es := RowsOf(recs, ts.value, CoColumns(cols), Co2Columns(cols), dtFs);
      if es.None? {
        var k :| 0 <= k < |recs| && RowOf(recs[k], ts.value, CoColumns(cols), Co2Columns(cols), dtFs).None?;
      }
    }
  }
}

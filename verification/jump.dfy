/** The jump detector of the two `05a_jump_analyze.py` scripts. The
    escape time series is cropped to the analysis window; per atom, in time
    order, the baseline height is the mean `z` up to a fixed time after the
    window start, the jump is the first sample rising at least a threshold
    above it, and the temperature (and, in the 500 K script, the six stress
    components) are averaged over the closed window `±Δ` around the jump. */
module Jump {
  import opened Wrappers
  import opened Reals
  import opened Sorting
  import opened Tensor

  /** One row of `escape_timeseries.csv`; `stress` holds the six stress
      columns in the order xx, yy, zz, xy, xz, yz, a missing value as `None`. */
  datatype Obs = Obs(id: int, time: real, z: real, temp: Option<real>, stress: seq<Option<real>>)

  /** The tunables of one script. */
  datatype Config = Config(
    tStart: real, tEnd: real,   // analysis window
    tMin: real, tMax: real,     // legal temperature range
    baseWin: real,              // baseline length after tStart
    zTh: real,                  // jump threshold on z - z0
    dtAvg: real)                // half-width of the averaging window

  /** The configuration of the 500 K script. */
  const Run500: Config := Config(15.0, 45.0, 0.0, 10000.0, 0.05, 5.0, 0.05)
  /** The configuration of the 1000 K script. */
  const Run1000: Config := Config(5.0, 35.0, 500.0, 3000.0, 0.05, 5.0, 0.05)

  /** The 500 K script averages `all_T` over this fixed range, not over its
      legal temperature range. */
  const AllTMin500: real := 500.0
  const AllTMax500: real := 3000.0

  function TimeOf(o: Obs): real { o.time }

  // ---------------------------------------------------------------------
  // Crop and the per-time mean temperature

  /** `df[df["time_ps"].between(TIME_START_PS, TIME_END_PS)]`, exiting when
      nothing is left. */
  function CropTime(obs: seq<Obs>, c: Config): (r: Result<seq<Obs>>)
    ensures r.Failure? <==> forall o :: o in obs ==> !(c.tStart <= o.time <= c.tEnd)
    ensures r.Success? ==> |r.value| > 0
    ensures r.Success? ==> forall o :: o in r.value <==> o in obs && c.tStart <= o.time <= c.tEnd
  {
    var kept := Select(obs, (o: Obs) => c.tStart <= o.time <= c.tEnd);
    if |kept| == 0 then Failure("no data in the time window")
    else
      assert kept[0] in kept;
      Success(kept)
  }

  /** The temperatures of rows known to carry one. */
  function Temps(s: seq<Obs>): (t: seq<real>)
    requires forall o :: o in s ==> o.temp.Some?
    ensures |t| == |s| && forall i :: 0 <= i < |s| ==> t[i] == s[i].temp.value
  {
    seq(|s|, i requires 0 <= i < |s| => s[i].temp.value)
  }

  /** Whether a row carries a temperature in `[lo, hi]`. */
  function Legal(lo: real, hi: real): Obs -> bool
  {
    (o: Obs) => Within(o.temp, lo, hi)
  }

  /** Whether a row is recorded at time `t`. */
  function AtTime(t: real): Obs -> bool
  {
    (o: Obs) => o.time == t
  }

  /** The temperatures in `[lo, hi]` recorded at time `t`, in row order. */
  function LegalTempsAt(obs: seq<Obs>, t: real, lo: real, hi: real): (ts: seq<real>)
    ensures forall x :: x in ts ==> lo <= x <= hi
    ensures |ts| > 0 <==> exists o :: o in obs && o.time == t && Within(o.temp, lo, hi)
  {
    if |obs| == 0 then []
    else
      var o := obs[|obs| - 1];
      var rest := LegalTempsAt(obs[..|obs| - 1], t, lo, hi);
      assert forall y :: y in obs <==> y in obs[..|obs| - 1] || y == o by {
        assert obs == obs[..|obs| - 1] + [o];
      }
      if o.time == t && Within(o.temp, lo, hi) then rest + [o.temp.value] else rest
  }

  /** `all_T`: for each time with at least one temperature in `[lo, hi]`, in
      ascending order, the mean of those temperatures. */
  function AllT(obs: seq<Obs>, lo: real, hi: real): (r: seq<(real, real)>)
    ensures StrictlyAscending(Keys(r, TimeKey))
    ensures forall t :: t in Keys(r, TimeKey) <==> exists o :: o in obs && o.time == t && Within(o.temp, lo, hi)
    ensures forall k :: 0 <= k < |r| ==> |LegalTempsAt(obs, r[k].0, lo, hi)| > 0
    ensures forall k :: 0 <= k < |r| ==> r[k].1 == Mean(LegalTempsAt(obs, r[k].0, lo, hi))
  {
    var valid := Select(obs, Legal(lo, hi));
    var times := SortedDistinct(Keys(valid, TimeOf));
    var r := seq(|times|, k requires 0 <= k < |times| => (times[k], MeanTempAt(obs, valid, times[k], lo, hi)));
    assert Keys(r, TimeKey) == times;
    TimesOf(valid);
    r
  }

  /** The times of some rows are exactly the times some row carries. */
  lemma TimesOf(s: seq<Obs>)
    ensures forall t :: t in Keys(s, TimeOf) <==> exists o :: o in s && o.time == t
  {
    forall t ensures t in Keys(s, TimeOf) <==> exists o :: o in s && o.time == t {
      if t in Keys(s, TimeOf) {
        var i :| 0 <= i < |s| && Keys(s, TimeOf)[i] == t;
        assert s[i] in s;
      }
      if o :| o in s && o.time == t {
        var i :| 0 <= i < |s| && s[i] == o;
        assert Keys(s, TimeOf)[i] == t;
      }
    }
  }

  function TimeKey(p: (real, real)): real { p.0 }

  /** The group at time `t` of the rows with a legal temperature, averaged:
      the mean of the legal temperatures recorded at `t`. */
  function MeanTempAt(obs: seq<Obs>, valid: seq<Obs>, t: real, lo: real, hi: real): (m: real)
    requires valid == Select(obs, Legal(lo, hi))
    requires t in Keys(valid, TimeOf)
    ensures |LegalTempsAt(obs, t, lo, hi)| > 0
    ensures m == Mean(LegalTempsAt(obs, t, lo, hi))
    ensures lo <= m <= hi
  {
    var at := Select(valid, AtTime(t));
    var i :| 0 <= i < |valid| && Keys(valid, TimeOf)[i] == t;
    assert valid[i] in at;
    GroupTemps(obs, t, lo, hi);
    var ts := Temps(at);
    assert forall k :: 0 <= k < |ts| ==> lo <= ts[k] <= hi by {
      forall k | 0 <= k < |ts| ensures lo <= ts[k] <= hi {
        assert ts[k] in LegalTempsAt(obs, t, lo, hi);
      }
    }
    MeanBounds(ts, lo, hi);
    Mean(ts)
  }

  lemma SelectSnoc<T(!new)>(s: seq<T>, x: T, p: T -> bool)
    ensures Select(s + [x], p) == if p(x) then Select(s, p) + [x] else Select(s, p)
  {
    assert (s + [x])[..|s|] == s;
  }

  lemma TempsSnoc(s: seq<Obs>, x: Obs)
    requires forall o :: o in s ==> o.temp.Some?
    requires x.temp.Some?
    ensures Temps(s + [x]) == Temps(s) + [x.temp.value]
  {
  }

  /** Filtering the legal rows and then grouping them at `t` collects
      exactly the legal temperatures recorded at `t`, in row order. */
  lemma {:induction false} GroupTemps(obs: seq<Obs>, t: real, lo: real, hi: real)
    ensures forall o :: o in Select(Select(obs, Legal(lo, hi)), AtTime(t)) ==> o.temp.Some?
    ensures Temps(Select(Select(obs, Legal(lo, hi)), AtTime(t))) == LegalTempsAt(obs, t, lo, hi)
  {
    if |obs| > 0 {
      var n := |obs| - 1;
      var init := obs[..n];
      var x := obs[n];
      assert obs == init + [x];
      GroupTemps(init, t, lo, hi);
      SelectSnoc(init, x, Legal(lo, hi));
      if Legal(lo, hi)(x) {
        SelectSnoc(Select(init, Legal(lo, hi)), x, AtTime(t));
        if AtTime(t)(x) {
          TempsSnoc(Select(Select(init, Legal(lo, hi)), AtTime(t)), x);
        }
      }
    }
  }

  // ---------------------------------------------------------------------
  // Grouping by atom

  function IdsOf(obs: seq<Obs>): (ids: seq<int>)
    ensures |ids| == |obs| && forall i :: 0 <= i < |obs| ==> ids[i] == obs[i].id
  {
    seq(|obs|, i requires 0 <= i < |obs| => obs[i].id)
  }

  /** One atom's rows, `sort_values("time_ps")`. */
  function Group(obs: seq<Obs>, a: int): (g: seq<Obs>)
    ensures SortedBy(g, TimeOf)
    ensures forall o :: o in g <==> o in obs && o.id == a
  {
    var mine := Select(obs, (o: Obs) => o.id == a);
    var g := SortBy(mine, TimeOf);
    assert forall o :: o in g <==> o in mine by {
      forall o ensures o in g <==> o in mine {
        assert o in g <==> o in multiset(g);
        assert o in mine <==> o in multiset(mine);
      }
    }
    g
  }

  /** The loop over the atoms: each atom of `ids` in turn, with its row
      when `f` gives one. */
  function Collect<R>(ids: seq<int>, f: int -> Option<R>): (rows: seq<(int, R)>)
    ensures |rows| <= |ids|
    ensures forall k :: 0 <= k < |rows| ==> rows[k].0 in ids && f(rows[k].0) == Some(rows[k].1)
    ensures forall a :: a in ids && f(a).Some? ==> exists k :: 0 <= k < |rows| && rows[k].0 == a
    ensures (forall i, j :: 0 <= i < j < |ids| ==> ids[i] != ids[j]) ==>
              forall i, j :: 0 <= i < j < |rows| ==> rows[i].0 != rows[j].0
  {
    if |ids| == 0 then []
    else
      var init := ids[..|ids| - 1];
      var a := ids[|ids| - 1];
      var rest := Collect(init, f);
      assert forall x :: x in ids <==> x in init || x == a by {
        assert ids == init + [a];
      }
      assert (forall i, j :: 0 <= i < j < |ids| ==> ids[i] != ids[j]) ==> a !in init;
      match f(a)
      case None => rest
      case Some(row) =>
        var r := rest + [(a, row)];
        assert r[|rest|].0 == a;
        assert forall k :: 0 <= k < |rest| ==> r[k] == rest[k];
        r
  }

  // ---------------------------------------------------------------------
  // Baseline, crossing, window

  function Zs(s: seq<Obs>): (z: seq<real>)
    ensures |z| == |s| && forall i :: 0 <= i < |s| ==> z[i] == s[i].z
  {
    seq(|s|, i requires 0 <= i < |s| => s[i].z)
  }

  /** Whether a sample lies in the baseline window, up to
      `TIME_START_PS + BASE_WIN_PS`. */
  function InBase(c: Config): Obs -> bool
  {
    (o: Obs) => o.time <= c.tStart + c.baseWin
  }

  /** The number of baseline samples, counted along the series. */
  function BaseCount(g: seq<Obs>, c: Config): nat
  {
    if |g| == 0 then 0 else BaseCount(g[..|g| - 1], c) + (if InBase(c)(g[|g| - 1]) then 1 else 0)
  }

  /** The sum of `z` over the baseline samples, along the series. */
  function BaseSum(g: seq<Obs>, c: Config): real
  {
    if |g| == 0 then 0.0 else BaseSum(g[..|g| - 1], c) + (if InBase(c)(g[|g| - 1]) then g[|g| - 1].z else 0.0)
  }

  /** Selecting the baseline samples and summing their heights agrees with
      the running count and sum. */
  lemma {:induction false} BaseSelected(g: seq<Obs>, c: Config)
    ensures |Select(g, InBase(c))| == BaseCount(g, c)
    ensures Sum(Zs(Select(g, InBase(c)))) == BaseSum(g, c)
  {
    if |g| > 0 {
      var init := g[..|g| - 1];
      var x := g[|g| - 1];
      BaseSelected(init, c);
      var rest := Select(init, InBase(c));
      if InBase(c)(x) {
        var z := Zs(rest + [x]);
        assert z[..|z| - 1] == Zs(rest);
      }
    }
  }

  /** `z0`: the mean `z` of the samples up to `TIME_START_PS + BASE_WIN_PS`,
      anchored to the configured start and not to the atom's first sample;
      missing when there is none. */
  function Baseline(g: seq<Obs>, c: Config): (z0: Option<real>)
    ensures z0.None? <==> forall o :: o in g ==> o.time > c.tStart + c.baseWin
    ensures z0.Some? ==> BaseCount(g, c) > 0 && z0.value == BaseSum(g, c) / BaseCount(g, c) as real
    ensures z0.Some? ==> exists o :: o in g && o.time <= c.tStart + c.baseWin && o.z <= z0.value
    ensures z0.Some? ==> exists o :: o in g && o.time <= c.tStart + c.baseWin && z0.value <= o.z
  {
    var b := Select(g, InBase(c));
    if |b| == 0 then None
    else
      var zs := Zs(b);
      BaseSelected(g, c);
      assert forall i :: 0 <= i < |zs| ==> MinOf(zs) <= zs[i] <= MaxOf(zs);
      MeanBounds(zs, MinOf(zs), MaxOf(zs));
      var lo :| 0 <= lo < |zs| && zs[lo] == MinOf(zs);
      var hi :| 0 <= hi < |zs| && zs[hi] == MaxOf(zs);
      assert b[lo] in b && b[hi] in b;
      Some(Mean(zs))
  }

  /** `np.where(z - z0 >= Z_ABS_TH)[0][0]`, searching from index `k`. */
  function FirstCrossing(g: seq<Obs>, z0: real, th: real, k: nat): (i: Option<nat>)
    requires k <= |g|
    ensures i.Some? ==> k <= i.value < |g| && g[i.value].z - z0 >= th
    ensures i.Some? ==> forall j :: k <= j < i.value ==> g[j].z - z0 < th
    ensures i.None? <==> forall j :: k <= j < |g| ==> g[j].z - z0 < th
    decreases |g| - k
  {
    if k == |g| then None
    else if g[k].z - z0 >= th then Some(k)
    else FirstCrossing(g, z0, th, k + 1)
  }

  /** `g["time_ps"].between(t - Δ, t + Δ)`: the closed window, in order. */
  function Window(g: seq<Obs>, t: real, dt: real): (w: seq<Obs>)
    ensures forall o :: o in w <==> o in g && t - dt <= o.time <= t + dt
  {
    Select(g, (o: Obs) => t - dt <= o.time <= t + dt)
  }

  /** The jump sample lies in its own window, so the window is never empty. */
  lemma WindowHoldsJump(g: seq<Obs>, i: nat, dt: real)
    requires i < |g| && dt >= 0.0
    ensures g[i] in Window(g, g[i].time, dt) && |Window(g, g[i].time, dt)| > 0
  {
  }

  /** The baseline and the jump of one atom's sorted series, when both exist. */
  function Detect(g: seq<Obs>, c: Config): (r: Option<(real, nat)>)
    ensures r.Some? <==> Baseline(g, c).Some? && FirstCrossing(g, Baseline(g, c).value, c.zTh, 0).Some?
    ensures r.Some? ==> r.value.0 == Baseline(g, c).value
    ensures r.Some? ==> r.value.1 < |g| && g[r.value.1].z - r.value.0 >= c.zTh
    ensures r.Some? ==> forall j :: 0 <= j < r.value.1 ==> g[j].z - r.value.0 < c.zTh
  {
    var z0 := Baseline(g, c);
    if z0.None? then None
    else
      var i := FirstCrossing(g, z0.value, c.zTh, 0);
      if i.None? then None else Some((z0.value, i.value))
  }

  // ---------------------------------------------------------------------
  // The 1000 K script

  /** One row of its `jump_stats.csv`. */
  datatype Row1000 = Row1000(id: int, tJump: real, winStart: real, winEnd: real, avgT: real)

  /** Per atom: the row, or `None` when the atom has no baseline sample, never
      crosses, or has no temperature in `[T_MIN, T_MAX]` inside the window. */
  function Atom1000(g: seq<Obs>, a: int, c: Config): (r: Option<Row1000>)
    ensures r.Some? ==> Detect(g, c).Some?
    ensures r.Some? ==> r.value.id == a && r.value.tJump == g[Detect(g, c).value.1].time
    ensures r.Some? ==> r.value.winStart == r.value.tJump - c.dtAvg && r.value.winEnd == r.value.tJump + c.dtAvg
    ensures r.Some? ==> c.tMin <= r.value.avgT <= c.tMax
    ensures r.Some? ==> MeanOpt(MaskedTemps(Window(g, r.value.tJump, c.dtAvg), c.tMin, c.tMax)) == Some(r.value.avgT)
    ensures r.Some? <==>
              && Detect(g, c).Some?
              && exists o :: o in Window(g, g[Detect(g, c).value.1].time, c.dtAvg) && Within(o.temp, c.tMin, c.tMax)
  {
    var d := Detect(g, c);
    if d.None? then None
    else
      var tj := g[d.value.1].time;
      var w := Window(g, tj, c.dtAvg);
      var local := Select(w, Legal(c.tMin, c.tMax));
      if |local| == 0 then None
      else
        var ts := Temps(local);
        MaskedPresent(w, c.tMin, c.tMax);
        assert forall k :: 0 <= k < |ts| ==> c.tMin <= ts[k] <= c.tMax by {
          forall k | 0 <= k < |ts| ensures c.tMin <= ts[k] <= c.tMax {
            assert local[k] in local;
          }
        }
        MeanBounds(ts, c.tMin, c.tMax);
        assert local[0] in local;
        Some(Row1000(a, tj, tj - c.dtAvg, tj + c.dtAvg, Mean(ts)))
  }

  /** The row of atom `a` of the cropped table. */
  function AtomRow1000(df: seq<Obs>, a: int): (r: Option<Row1000>)
    ensures r.Some? ==> r.value.id == a && Run1000.tMin <= r.value.avgT <= Run1000.tMax
    ensures r.Some? ==> MeanOpt(MaskedTemps(Window(Group(df, a), r.value.tJump, Run1000.dtAvg), Run1000.tMin, Run1000.tMax))
                        == Some(r.value.avgT)
  {
    Atom1000(Group(df, a), a, Run1000)
  }

  /** The loop of the 1000 K script over the atoms of the cropped table,
      in order of first appearance. */
  function Rows1000(df: seq<Obs>): (rows: seq<Row1000>)
    ensures forall i, j :: 0 <= i < j < |rows| ==> rows[i].id != rows[j].id
    ensures forall k :: 0 <= k < |rows| ==> AtomRow1000(df, rows[k].id) == Some(rows[k])
    ensures forall k :: 0 <= k < |rows| ==> rows[k].id in IdsOf(df)
    ensures forall a :: a in IdsOf(df) && AtomRow1000(df, a).Some? ==> exists k :: 0 <= k < |rows| && rows[k].id == a
  {
    var f := a => AtomRow1000(df, a);
    var pairs := Collect(FirstAppearance(IdsOf(df)), f);
    var rows := Values(pairs);
    forall k | 0 <= k < |rows|
      ensures rows[k].id == pairs[k].0 && AtomRow1000(df, rows[k].id) == Some(rows[k])
      ensures rows[k].id in IdsOf(df)
    {
      assert f(pairs[k].0) == Some(rows[k]);
    }
    forall a | a in IdsOf(df) && f(a).Some? ensures exists k :: 0 <= k < |rows| && rows[k].id == a {
      var k :| 0 <= k < |pairs| && pairs[k].0 == a;
      assert rows[k].id == a;
    }
    rows
  }

  /** The 1000 K script: crop, then one row per atom kept. */
  function Jumps1000(obs: seq<Obs>): (r: Result<seq<Row1000>>)
    ensures r.Failure? <==> forall o :: o in obs ==> !(Run1000.tStart <= o.time <= Run1000.tEnd)
    ensures r.Success? ==> forall i, j :: 0 <= i < j < |r.value| ==> r.value[i].id != r.value[j].id
    ensures r.Success? ==> forall k :: 0 <= k < |r.value| ==>
              && (exists o :: o in obs && o.id == r.value[k].id)
              && Run1000.tMin <= r.value[k].avgT <= Run1000.tMax
    ensures r.Success? ==> CropTime(obs, Run1000).Success?
    ensures r.Success? ==> var df := CropTime(obs, Run1000).value;
              && (forall k :: 0 <= k < |r.value| ==> AtomRow1000(df, r.value[k].id) == Some(r.value[k]))
              && (forall a :: a in IdsOf(df) && AtomRow1000(df, a).Some? ==> exists k :: 0 <= k < |r.value| && r.value[k].id == a)
  {
    var cropped := CropTime(obs, Run1000);
    if cropped.Failure? then Failure(cropped.error)
    else
      var rows := Rows1000(cropped.value);
      forall k | 0 <= k < |rows|
        ensures (exists o :: o in obs && o.id == rows[k].id) && Run1000.tMin <= rows[k].avgT <= Run1000.tMax
      {
        SeenIn(obs, cropped.value, rows[k].id);
      }
      Success(rows)
  }

  /** The second components of `pairs`, in order. */
  function Values<R>(pairs: seq<(int, R)>): (vals: seq<R>)
    ensures |vals| == |pairs| && forall k :: 0 <= k < |pairs| ==> vals[k] == pairs[k].1
  {
    seq(|pairs|, k requires 0 <= k < |pairs| => pairs[k].1)
  }

  /** An id of the cropped rows is an id of the input. */
  lemma SeenIn(obs: seq<Obs>, df: seq<Obs>, a: int)
    requires forall o :: o in df ==> o in obs
    requires a in IdsOf(df)
    ensures exists o :: o in obs && o.id == a
  {
    var i :| 0 <= i < |df| && IdsOf(df)[i] == a;
    assert df[i] in df;
  }

  // ---------------------------------------------------------------------
  // The 500 K script

  /** One row of its `jump_stats.csv`: the temperature and the stress
      averages may be missing. */
  datatype Row500 = Row500(
    id: int, tJump: real, winStart: real, winEnd: real,
    avgT: Option<real>, stress: seq<Option<real>>,
    sigmaDev: Option<Root>, pHydro: Option<real>)

  /** The value of stress column `k` in a row, missing when absent. */
  function StressAt(o: Obs, k: nat): Option<real>
  {
    if k < |o.stress| then o.stress[k] else None
  }

  /** Stress column `k` of the window rows. */
  function StressColumn(w: seq<Obs>, k: nat): (col: seq<Option<real>>)
    ensures |col| == |w| && forall i :: 0 <= i < |w| ==> col[i] == StressAt(w[i], k)
  {
    seq(|w|, i requires 0 <= i < |w| => StressAt(w[i], k))
  }

  /** `wdf[col].mean() if col in wdf else nan`: the mean of the values the
      window holds in that column. */
  function StressMean(w: seq<Obs>, present: seq<bool>, k: nat): (m: Option<real>)
    ensures (k >= |present| || !present[k]) ==> m.None?
    ensures m.Some? <==> k < |present| && present[k] && exists i :: 0 <= i < |w| && StressAt(w[i], k).Some?
    ensures m.Some? ==> |Present(StressColumn(w, k))| > 0 && m.value == Mean(Present(StressColumn(w, k)))
  {
    if k < |present| && present[k] then MeanOpt(StressColumn(w, k))
    else None
  }

  /** `P_hydro` and `sigma_dev` from the three normal averages: missing when
      the xx average is, and otherwise missing exactly when yy or zz is,
      since a missing value propagates through the arithmetic. */
  function Reduce(sxx: Option<real>, syy: Option<real>, szz: Option<real>): (r: (Option<Root>, Option<real>))
    ensures sxx.None? ==> r.0.None? && r.1.None?
    ensures r.0.Some? <==> sxx.Some? && syy.Some? && szz.Some?
    ensures r.0.Some? <==> r.1.Some?
    ensures r.0.Some? ==> 4.0 * r.0.value.square == NormalSpread(sxx.value, syy.value, szz.value)
    ensures r.1.Some? ==> 3.0 * r.1.value == sxx.value + syy.value + szz.value
  {
    if sxx.None? || syy.None? || szz.None? then (None, None)
    else (Some(SigmaDev(sxx.value, syy.value, szz.value)), Some(Hydrostatic(sxx.value, syy.value, szz.value)))
  }

  /** The temperatures of the window with out-of-range ones masked. */
  function MaskedTemps(w: seq<Obs>, lo: real, hi: real): (t: seq<Option<real>>)
    ensures |t| == |w|
    ensures forall i :: 0 <= i < |w| ==> (t[i].Some? <==> Within(w[i].temp, lo, hi))
    ensures forall i :: 0 <= i < |w| && t[i].Some? ==> t[i] == w[i].temp
  {
    seq(|w|, i requires 0 <= i < |w| => if Within(w[i].temp, lo, hi) then w[i].temp else None)
  }

  /** Masking the out-of-range temperatures and skipping the missing ones
      leaves the legal temperatures, in order: the 500 K script's masked
      mean and the 1000 K script's filtered mean agree. */
  lemma {:induction false} MaskedPresent(w: seq<Obs>, lo: real, hi: real)
    ensures forall o :: o in Select(w, Legal(lo, hi)) ==> o.temp.Some?
    ensures Present(MaskedTemps(w, lo, hi)) == Temps(Select(w, Legal(lo, hi)))
  {
    if |w| > 0 {
      var n := |w| - 1;
      var init := w[..n];
      var x := w[n];
      assert w == init + [x];
      SelectSnoc(init, x, Legal(lo, hi));
      MaskedPresent(init, lo, hi);
      var y := if Within(x.temp, lo, hi) then x.temp else None;
      var front := MaskedTemps(init, lo, hi);
      MaskedSnoc(w, lo, hi);
      assert MaskedTemps(w, lo, hi) == front + [y];
      PresentConcat(front, [y]);
      PresentSingle(y);
      assert Present(MaskedTemps(w, lo, hi)) == Present(front) + Present([y]);
      if Within(x.temp, lo, hi) {
        assert Select(w, Legal(lo, hi)) == Select(init, Legal(lo, hi)) + [x];
        TempsSnoc(Select(init, Legal(lo, hi)), x);
      } else {
        assert Select(w, Legal(lo, hi)) == Select(init, Legal(lo, hi));
      }
    }
  }

  lemma MaskedSnoc(w: seq<Obs>, lo: real, hi: real)
    requires |w| > 0
    ensures MaskedTemps(w, lo, hi)
            == MaskedTemps(w[..|w| - 1], lo, hi) + [if Within(w[|w| - 1].temp, lo, hi) then w[|w| - 1].temp else None]
  {
  }

  /** A present mean of masked temperatures lies in the legal range. */
  lemma MaskedMeanWithin(w: seq<Obs>, lo: real, hi: real)
    ensures MeanOpt(MaskedTemps(w, lo, hi)).Some? ==> lo <= MeanOpt(MaskedTemps(w, lo, hi)).value <= hi
  {
    var t := MaskedTemps(w, lo, hi);
    var p := Present(t);
    if |p| > 0 {
      assert forall k :: 0 <= k < |p| ==> lo <= p[k] <= hi by {
        forall k | 0 <= k < |p| ensures lo <= p[k] <= hi {
          assert p[k] in p;
          var i :| 0 <= i < |t| && t[i] == Some(p[k]);
        }
      }
      MeanBounds(p, lo, hi);
    }
  }

  /** Per atom. The guard on the masked temperatures only tests the
      window for emptiness, which never holds, so a missing temperature
      does not discard the atom. */
  function Atom500(g: seq<Obs>, a: int, c: Config, present: seq<bool>): (r: Option<Row500>)
    ensures r.Some? ==> Detect(g, c).Some?
    ensures c.dtAvg >= 0.0 ==> (r.Some? <==> Detect(g, c).Some?)
    ensures r.Some? ==> r.value.id == a && r.value.tJump == g[Detect(g, c).value.1].time
    ensures r.Some? ==> r.value.winStart == r.value.tJump - c.dtAvg && r.value.winEnd == r.value.tJump + c.dtAvg
    ensures r.Some? && r.value.avgT.Some? ==> c.tMin <= r.value.avgT.value <= c.tMax
    ensures r.Some? ==> r.value.avgT == MeanOpt(MaskedTemps(Window(g, r.value.tJump, c.dtAvg), c.tMin, c.tMax))
    ensures r.Some? ==> |r.value.stress| == 6
    ensures r.Some? ==> forall j :: 0 <= j < 6 ==>
              r.value.stress[j] == StressMean(Window(g, r.value.tJump, c.dtAvg), present, j)
    ensures r.Some? ==> (r.value.sigmaDev, r.value.pHydro) == Reduce(r.value.stress[0], r.value.stress[1], r.value.stress[2])
    ensures r.Some? ==> (r.value.sigmaDev.None? <==> r.value.pHydro.None?)
    ensures r.Some? && r.value.stress[0].None? ==> r.value.sigmaDev.None?
  {
    var d := Detect(g, c);
    if d.None? then None
    else
      var tj := g[d.value.1].time;
      var w := Window(g, tj, c.dtAvg);
      var local := MaskedTemps(w, c.tMin, c.tMax);
      if |local| == 0 then None
      else
        MaskedMeanWithin(w, c.tMin, c.tMax);
        var s := seq(6, k requires 0 <= k < 6 => StressMean(w, present, k));
        var red := Reduce(s[0], s[1], s[2]);
        Some(Row500(a, tj, tj - c.dtAvg, tj + c.dtAvg, MeanOpt(local), s, red.0, red.1))
  }

  /** The row of atom `a` of the cropped table. */
  function AtomRow500(df: seq<Obs>, a: int, present: seq<bool>): (r: Option<Row500>)
    ensures r.Some? ==> r.value.id == a
    ensures r.Some? ==> var w := Window(Group(df, a), r.value.tJump, Run500.dtAvg);
              && r.value.avgT == MeanOpt(MaskedTemps(w, Run500.tMin, Run500.tMax))
              && |r.value.stress| == 6
              && (forall j :: 0 <= j < 6 ==> r.value.stress[j] == StressMean(w, present, j))
              && (r.value.sigmaDev, r.value.pHydro) == Reduce(r.value.stress[0], r.value.stress[1], r.value.stress[2])
  {
    Atom500(Group(df, a), a, Run500, present)
  }

  /** The loop of the 500 K script over the atoms of the cropped table,
      in order of first appearance. */
  function Rows500(df: seq<Obs>, present: seq<bool>): (rows: seq<Row500>)
    ensures forall i, j :: 0 <= i < j < |rows| ==> rows[i].id != rows[j].id
    ensures forall k :: 0 <= k < |rows| ==> AtomRow500(df, rows[k].id, present) == Some(rows[k])
    ensures forall k :: 0 <= k < |rows| ==> rows[k].id in IdsOf(df)
    ensures forall a :: a in IdsOf(df) && AtomRow500(df, a, present).Some? ==> exists k :: 0 <= k < |rows| && rows[k].id == a
  {
    var f := a => AtomRow500(df, a, present);
    var pairs := Collect(FirstAppearance(IdsOf(df)), f);
    var rows := Values(pairs);
    forall k | 0 <= k < |rows|
      ensures rows[k].id == pairs[k].0 && AtomRow500(df, rows[k].id, present) == Some(rows[k])
      ensures rows[k].id in IdsOf(df)
    {
      assert f(pairs[k].0) == Some(rows[k]);
    }
    forall a | a in IdsOf(df) && f(a).Some? ensures exists k :: 0 <= k < |rows| && rows[k].id == a {
      var k :| 0 <= k < |pairs| && pairs[k].0 == a;
      assert rows[k].id == a;
    }
    rows
  }

  /** The 500 K script: crop, then one row per atom with a baseline and a
      crossing. `present` says which of the six stress columns the table has. */
  function Jumps500(obs: seq<Obs>, present: seq<bool>): (r: Result<seq<Row500>>)
    ensures r.Failure? <==> forall o :: o in obs ==> !(Run500.tStart <= o.time <= Run500.tEnd)
    ensures r.Success? ==> forall i, j :: 0 <= i < j < |r.value| ==> r.value[i].id != r.value[j].id
    ensures r.Success? ==> forall k :: 0 <= k < |r.value| ==> exists o :: o in obs && o.id == r.value[k].id
    ensures r.Success? ==> CropTime(obs, Run500).Success?
    ensures r.Success? ==> var df := CropTime(obs, Run500).value;
              && (forall k :: 0 <= k < |r.value| ==> AtomRow500(df, r.value[k].id, present) == Some(r.value[k]))
              && (forall a :: a in IdsOf(df) && AtomRow500(df, a, present).Some? ==> exists k :: 0 <= k < |r.value| && r.value[k].id == a)
  {
    var cropped := CropTime(obs, Run500);
    if cropped.Failure? then Failure(cropped.error)
    else
      var rows := Rows500(cropped.value, present);
      forall k | 0 <= k < |rows| ensures exists o :: o in obs && o.id == rows[k].id {
        SeenIn(obs, cropped.value, rows[k].id);
      }
      Success(rows)
  }

  // ---------------------------------------------------------------------
  // Worked examples

  /** A series whose baseline is its first sample alone: heights
      0, 0, 2, 6, 9 at 0, 0.01, ..., 0.04 ps with temperatures 600 to 625 K. */
  function ExampleSeries(): seq<Obs>
  {
    [Obs(1, 0.0, 0.0, Some(600.0), []), Obs(1, 0.01, 0.0, Some(610.0), []),
     Obs(1, 0.02, 2.0, Some(615.0), []), Obs(1, 0.03, 6.0, Some(620.0), []),
     Obs(1, 0.04, 9.0, Some(625.0), [])]
  }

  const ExampleConfig: Config := Config(0.0, 1.0, 500.0, 3000.0, 0.005, 5.0, 0.02)

  /** The jump is at 0.03 ps, the first height 5 above the baseline 0, and
      the closed window `[0.01, 0.05]` takes in the sample at 0.01 ps too, so
      the mean temperature is 617.5 K. */
  lemma ExampleJump()
    ensures Atom1000(ExampleSeries(), 1, ExampleConfig) == Some(Row1000(1, 0.03, 0.01, 0.05, 617.5))
  {
    var g := ExampleSeries();
    ExampleBaseline();
    assert FirstCrossing(g, 0.0, 5.0, 0) == Some(3);
    ExampleWindow();
    ExampleMean();
  }

  lemma ExampleBaseline()
    ensures Baseline(ExampleSeries(), ExampleConfig) == Some(0.0)
  {
    var g := ExampleSeries();
    var c := ExampleConfig;
    var p := InBase(c);
    var front, back := g[..1], g[1..];
    assert g == front + back;
    assert p(front[0]);
    SelectAll(front, p);
    assert !p(back[0]) && !p(back[1]) && !p(back[2]) && !p(back[3]);
    SelectNone(back, p);
    SelectConcat(front, back, p);
    assert Select(g, p) == [g[0]];
    assert Zs([g[0]]) == [0.0];
  }

  function ExampleWindowRows(): seq<Obs>
  {
    ExampleSeries()[1..]
  }

  lemma ExampleWindow()
    ensures Window(ExampleSeries(), 0.03, 0.02) == ExampleWindowRows()
  {
    var g := ExampleSeries();
    var q := (o: Obs) => 0.03 - 0.02 <= o.time <= 0.03 + 0.02;
    assert Select(g[..1], q) == [];
    assert Select(g[..2], q) == [g[1]] by { assert g[..2][..1] == g[..1]; }
    assert Select(g[..3], q) == [g[1], g[2]] by { assert g[..3][..2] == g[..2]; }
    assert Select(g[..4], q) == [g[1], g[2], g[3]] by { assert g[..4][..3] == g[..3]; }
    assert Select(g, q) == [g[1], g[2], g[3], g[4]] by { assert g[..4] == g[..|g| - 1]; }
  }

  lemma ExampleMean()
    ensures var w := ExampleWindowRows();
            var local := Select(w, Legal(ExampleConfig.tMin, ExampleConfig.tMax));
            local == w && Mean(Temps(local)) == 617.5
  {
    ExampleAllLegal();
    ExampleTemps();
  }

  lemma ExampleAllLegal()
    ensures var w := ExampleWindowRows();
            Select(w, Legal(ExampleConfig.tMin, ExampleConfig.tMax)) == w
  {
    var w := ExampleWindowRows();
    var c := ExampleConfig;
    var v := Legal(c.tMin, c.tMax);
    assert v(w[0]) && v(w[1]) && v(w[2]) && v(w[3]);
    assert |w| == 4;
    SelectAll(w, v);
  }

  lemma ExampleTemps()
    ensures Mean(Temps(ExampleWindowRows())) == 617.5
  {
    var ts := [610.0, 615.0, 620.0, 625.0];
    assert Temps(ExampleWindowRows()) == ts;
    assert Sum(ts[..1]) == 610.0;
    assert Sum(ts[..2]) == 1225.0 by { assert ts[..2][..1] == ts[..1]; }
    assert Sum(ts[..3]) == 1845.0 by { assert ts[..3][..2] == ts[..2]; }
    assert Sum(ts) == 2470.0 by { assert ts[..3] == ts[..|ts| - 1]; }
  }

  /** Nothing places the jump after the baseline samples: heights 0 and 10
      at 5 and 5.01 ps give the 1000 K script the baseline 5, and the sample
      at 5.01 ps, itself a baseline sample, is already the jump. */
  lemma JumpInsideBaseline()
    ensures var g := [Obs(1, 5.0, 0.0, None, []), Obs(1, 5.01, 10.0, None, [])];
            && Detect(g, Run1000) == Some((5.0, 1))
            && g[1].time <= Run1000.tStart + Run1000.baseWin
  {
    var g := [Obs(1, 5.0, 0.0, None, []), Obs(1, 5.01, 10.0, None, [])];
    var b := Select(g, (o: Obs) => o.time <= Run1000.tStart + Run1000.baseWin);
    assert b == g;
    var zs := Zs(b);
    assert zs == [0.0, 10.0];
    assert Sum(zs[..1]) == 0.0;
    assert Sum(zs) == 10.0 by { assert zs[..1] == zs[..|zs| - 1]; }
    assert FirstCrossing(g, 5.0, 5.0, 0) == Some(1);
  }
}

/** 10_prepare_escape_map.py: the training set for the escape map. Every
    row of the jump table is a positive sample; for every atom of a time
    series whose id the jump table knows, ten evenly spaced rows of the
    half-open window `[t_jump - 3, t_jump)` are negative samples. */
module EscapeMap {
  import opened Wrappers
  import opened Reals
  import opened Sorting
  import opened Tensor
  import opened RunTag

  const Target := "sigma_dev_signed_GPa"
  const DevCol := "sigma_dev_GPa"
  const VmCol := "sigma_vm_GPa"
  const Sxx := "v_s_xx_gpa"
  const Syy := "v_s_yy_gpa"
  const Szz := "v_s_zz_gpa"
  const Txy := "v_s_xy_gpa"
  const Txz := "v_s_xz_gpa"
  const Tyz := "v_s_yz_gpa"

  /** How far before the jump the pool of negatives reaches, in ps. */
  const PreWindow: real := 3.0
  /** How many negatives each atom gives. */
  const NegPerId: nat := 10
  /** The closed temperature range a negative's `T` must lie in. */
  const TLow: real := 500.0
  const THigh: real := 3000.0

  /** One row of a table: the columns read by name, plus the numeric
      columns looked up by `add_sigma_signed`. In a time series `time` is
      `time_ps` and `temp` is `T`; in the jump table they are `t_jump_ps`
      and `avg_T_K`, and `runT` is `run_T_K`. */
  datatype Row = Row(id: int, time: real, temp: Option<real>, runT: Option<int>,
                     num: map<string, Option<real>>)

  /** A table with the set of numeric column names every row carries. */
  datatype Table = Table(names: set<string>, rows: seq<Row>) {
    predicate WellFormed()
    {
      forall k :: 0 <= k < |rows| ==> rows[k].num.Keys == names
    }
  }

  // ---------------------------------------------------------------------
  // add_sigma_signed

  /** The signed stress column: a copy of an existing column, or the
      signed equivalent stress computed from the six components. */
  datatype Sigma = Copied(v: Option<real>) | Signed(r: Option<Root>)

  predicate HasSix(names: set<string>)
  {
    Sxx in names && Syy in names && Szz in names && Txy in names && Txz in names && Tyz in names
  }

  /** The column `add_sigma_signed` reads, or `None` when it computes
      from the six components or raises. */
  function Source(names: set<string>): (c: Option<string>)
    ensures c.Some? ==> c.value in names
    ensures c.Some? <==> Target in names || DevCol in names || VmCol in names
    ensures Target in names ==> c == Some(Target)
    ensures DevCol in names && Target !in names ==> c == Some(DevCol)
  {
    if Target in names then Some(Target)
    else if DevCol in names then Some(DevCol)
    else if VmCol in names then Some(VmCol)
    else None
  }

  /** The six components of a row, or `None` when any is missing. */
  function StressOf(row: Row): (t: Option<Tensor6>)
    requires HasSix(row.num.Keys)
    ensures t.None? <==> (row.num[Sxx].None? || row.num[Syy].None? || row.num[Szz].None?
                          || row.num[Txy].None? || row.num[Txz].None? || row.num[Tyz].None?)
    ensures t.Some? ==> t.value.zz == row.num[Szz].value
  {
    if row.num[Sxx].None? || row.num[Syy].None? || row.num[Szz].None?
       || row.num[Txy].None? || row.num[Txz].None? || row.num[Tyz].None?
    then None
    else Some(Tensor6(row.num[Sxx].value, row.num[Syy].value, row.num[Szz].value,
                      row.num[Txy].value, row.num[Txz].value, row.num[Tyz].value))
  }

  /** One row's signed stress: its magnitude is the von Mises stress of
      the row's components, its sign that of `zz`, so it is zero when `zz`
      is; a missing component makes it missing. */
  function SignedCell(row: Row): (r: Option<Root>)
    requires HasSix(row.num.Keys)
    ensures r.None? <==> StressOf(row).None?
    ensures r.Some? ==> r.value.Valid() && r.value.square == VonMises(StressOf(row).value).square
    ensures r.Some? ==> r.value.sign == Sign(row.num[Szz].value)
    ensures r.Some? && row.num[Szz].value == 0.0 ==> Denotes(r.value, 0.0)
  {
    match StressOf(row)
    case None => None
    case Some(t) => Some(SignedEquivalent(t))
  }

  /** `add_sigma_signed`: `KeyError` when there is neither a column to
      copy nor all six components. */
  function AddSigma(t: Table): (r: Result<seq<Sigma>>)
    requires t.WellFormed()
    ensures r.Failure? <==> Source(t.names).None? && !HasSix(t.names)
    ensures r.Success? ==> |r.value| == |t.rows|
    ensures r.Success? && Source(t.names).Some? ==> forall k :: 0 <= k < |t.rows| ==>
              r.value[k] == Copied(t.rows[k].num[Source(t.names).value])
    ensures r.Success? && Source(t.names).None? ==> forall k :: 0 <= k < |t.rows| ==>
              HasSix(t.rows[k].num.Keys) && r.value[k] == Signed(SignedCell(t.rows[k]))
  {
    var src := Source(t.names);
    if src.Some? then
      Success(seq(|t.rows|, k requires 0 <= k < |t.rows| => Copied(t.rows[k].num[src.value])))
    else if HasSix(t.names) then
      Success(seq(|t.rows|, k requires 0 <= k < |t.rows| => Signed(SignedCell(t.rows[k]))))
    else Failure("KeyError: cannot build " + Target)
  }

  // ---------------------------------------------------------------------
  // Samples

  /** One row of the training set: `id, T_K, run_T_K, sigma_GPa, escape`. */
  datatype Sample = Sample(id: int, tempK: Option<real>, runT: Option<int>, sigma: Sigma, escape: int)

  /** The jump rows, each a positive sample, in order. */
  function Positives(jump: seq<Row>, sig: seq<Sigma>): (pos: seq<Sample>)
    requires |sig| == |jump|
    ensures |pos| == |jump|
    ensures forall k :: 0 <= k < |pos| ==> pos[k].escape == 1
    ensures forall k :: 0 <= k < |pos| ==>
              pos[k].id == jump[k].id && pos[k].tempK == jump[k].temp && pos[k].runT == jump[k].runT
              && pos[k].sigma == sig[k]
  {
    seq(|jump|, k requires 0 <= k < |jump| => Sample(jump[k].id, jump[k].temp, jump[k].runT, sig[k], 1))
  }

  /** Row `k` is the last row of atom `a`. */
  predicate LastRow(rows: seq<Row>, a: int, k: int)
  {
    0 <= k < |rows| && rows[k].id == a && forall j :: k < j < |rows| ==> rows[j].id != a
  }

  /** A last row stays last when a row of another atom follows. */
  lemma LastRowExtend(rows: seq<Row>, a: int, k: int)
    requires |rows| > 0 && LastRow(rows[..|rows| - 1], a, k) && rows[|rows| - 1].id != a
    ensures LastRow(rows, a, k)
  {
    assert forall j :: k < j < |rows| - 1 ==> rows[..|rows| - 1][j] == rows[j];
  }

  /** `set_index("id")["t_jump_ps"].to_dict()`: the ids of the jump table,
      each mapped to the jump time of its last row. */
  function JumpTimes(rows: seq<Row>): (m: map<int, real>)
    ensures forall k :: 0 <= k < |rows| ==> rows[k].id in m
    ensures forall a :: a in m ==> exists k :: LastRow(rows, a, k) && m[a] == rows[k].time
  {
    if |rows| == 0 then map[]
    else
      var n := |rows| - 1;
      var m := JumpTimes(rows[..n]);
      var r := m[rows[n].id := rows[n].time];
      JumpTimesStep(rows, rows[..n], m, r);
      r
  }

  /** Writing the last row's jump time over the map of the rows before it. */
  lemma JumpTimesStep(rows: seq<Row>, init: seq<Row>, m: map<int, real>, r: map<int, real>)
    requires |rows| > 0 && init == rows[..|rows| - 1]
    requires forall k :: 0 <= k < |init| ==> init[k].id in m
    requires forall a :: a in m ==> exists k :: LastRow(init, a, k) && m[a] == init[k].time
    requires r == m[rows[|rows| - 1].id := rows[|rows| - 1].time]
    ensures forall k :: 0 <= k < |rows| ==> rows[k].id in r
    ensures forall a :: a in r ==> exists k :: LastRow(rows, a, k) && r[a] == rows[k].time
  {
    var n := |rows| - 1;
    forall k | 0 <= k < |rows| ensures rows[k].id in r {
      if k < n {
        assert init[k] == rows[k];
      }
    }
    forall a | a in r
      ensures exists k :: LastRow(rows, a, k) && r[a] == rows[k].time
    {
      if a == rows[n].id {
        assert LastRow(rows, a, n);
      } else {
        var k :| LastRow(init, a, k) && m[a] == init[k].time;
        LastRowExtend(rows, a, k);
      }
    }
  }

  // ---------------------------------------------------------------------
  // Index sampling

  /** `np.linspace(0, n - 1, 10, dtype=int)[i]`, with the float rounding
      left out: `floor(i * (n - 1) / 9)`. */
  function PickIndex(n: nat, i: nat): nat
    requires n > 0
  {
    (i * (n - 1)) / (NegPerId - 1)
  }

  /** The ten picked positions of a window of `n` rows. */
  function Picks(n: nat): (idx: seq<nat>)
    requires n > 0
    ensures |idx| == NegPerId
    ensures forall i :: 0 <= i < NegPerId ==> idx[i] == PickIndex(n, i)
  {
    seq(NegPerId, i requires 0 <= i < NegPerId => PickIndex(n, i))
  }

  lemma DivMonotone(x: nat, y: nat)
    requires x <= y
    ensures x / 9 <= y / 9
  {
  }

  lemma DivStep(x: nat, d: nat)
    requires d >= 9
    ensures x / 9 < (x + d) / 9
  {
  }

  lemma MulMonotone(i: nat, j: nat, m: nat)
    requires i <= j
    ensures i * m <= j * m
  {
  }

  lemma MulBelow(i: nat, m: nat)
    requires i <= 9
    ensures i * m <= 9 * m
  {
  }

  /** The picks run from the first row to the last without going back;
      with ten or more rows they are all different. */
  lemma PicksSpan(n: nat)
    requires n > 0
    ensures Picks(n)[0] == 0 && Picks(n)[NegPerId - 1] == n - 1
    ensures forall i :: 0 <= i < NegPerId ==> Picks(n)[i] < n
    ensures forall i, j :: 0 <= i <= j < NegPerId ==> Picks(n)[i] <= Picks(n)[j]
    ensures n >= NegPerId ==> forall i, j :: 0 <= i < j < NegPerId ==> Picks(n)[i] < Picks(n)[j]
  {
    var idx := Picks(n);
    forall i | 0 <= i < NegPerId
      ensures idx[i] < n
    {
      MulBelow(i, n - 1);
      DivMonotone(i * (n - 1), 9 * (n - 1));
    }
    forall i, j | 0 <= i <= j < NegPerId
      ensures idx[i] <= idx[j]
    {
      MulMonotone(i, j, n - 1);
      DivMonotone(i * (n - 1), j * (n - 1));
    }
    if n >= NegPerId {
      forall i, j | 0 <= i < j < NegPerId
        ensures idx[i] < idx[j]
      {
        MulMonotone(i + 1, j, n - 1);
        assert (i + 1) * (n - 1) == i * (n - 1) + (n - 1);
        DivStep(i * (n - 1), n - 1);
        DivMonotone((i + 1) * (n - 1), j * (n - 1));
      }
    }
  }

  /** A window of three rows repeats its positions. */
  lemma PicksOfThree()
    ensures Picks(3) == [0, 0, 0, 0, 0, 1, 1, 1, 1, 2]
  {
  }

  // ---------------------------------------------------------------------
  // Negatives of one time series

  /** The rows of a table paired with their signed stress. */
  function Zip(rows: seq<Row>, sig: seq<Sigma>): (z: seq<(Row, Sigma)>)
    requires |sig| == |rows|
    ensures |z| == |rows| && forall k :: 0 <= k < |rows| ==> z[k] == (rows[k], sig[k])
  {
    seq(|rows|, k requires 0 <= k < |rows| => (rows[k], sig[k]))
  }

  /** `T.between(500, 3000)` and `id.isin(id2tjump)`. */
  predicate Eligible(x: (Row, Sigma), times: map<int, real>)
  {
    Within(x.0.temp, TLow, THigh) && x.0.id in times
  }

  /** `time_ps.between(t_jump - 3, t_jump, inclusive="left")`. */
  predicate InWindow(t: real, tj: real)
  {
    tj - PreWindow <= t < tj
  }

  predicate InWindowOf(x: (Row, Sigma), a: int, tj: real)
  {
    x.0.id == a && InWindow(x.0.time, tj)
  }

  /** The window of atom `a`: its rows, in table order, whose time is in
      the pre-jump window. */
  function WindowRows(pool: seq<(Row, Sigma)>, a: int, tj: real): (w: seq<(Row, Sigma)>)
    ensures |w| <= |pool|
    ensures forall x :: x in w <==> x in pool && InWindowOf(x, a, tj)
  {
    Select(pool, (x: (Row, Sigma)) => InWindowOf(x, a, tj))
  }

  function ToSample(x: (Row, Sigma), runT: Option<int>): Sample
  {
    Sample(x.0.id, x.0.temp, runT, x.1, 0)
  }

  /** The sample came from a pool row of atom `a` inside its window. */
  predicate DrawnFrom(s: Sample, pool: seq<(Row, Sigma)>, a: int, tj: real, runT: Option<int>)
  {
    s.escape == 0 && s.id == a && s.runT == runT
    && exists x :: x in pool && InWindowOf(x, a, tj) && s == ToSample(x, runT)
  }

  /** The ten negatives of atom `a`, or none when its window is empty; the
      first is the window's first row, the last its last row. */
  function IdNegatives(pool: seq<(Row, Sigma)>, a: int, tj: real, runT: Option<int>): (neg: seq<Sample>)
    ensures |neg| == 0 || |neg| == NegPerId
    ensures |neg| == 0 <==> forall x :: x in pool ==> !InWindowOf(x, a, tj)
    ensures |neg| > 0 ==> neg[0] == ToSample(WindowRows(pool, a, tj)[0], runT)
    ensures |neg| > 0 ==> var w := WindowRows(pool, a, tj);
              neg[NegPerId - 1] == ToSample(w[|w| - 1], runT)
  {
    var w := WindowRows(pool, a, tj);
    if |w| == 0 then []
    else
      assert w[0] in w;
      PicksSpan(|w|);
      Draw(w, Picks(|w|), runT)
  }

  /** The samples of the rows of `w` at the positions `idx`. */
  function Draw(w: seq<(Row, Sigma)>, idx: seq<nat>, runT: Option<int>): (neg: seq<Sample>)
    requires forall i :: 0 <= i < |idx| ==> idx[i] < |w|
    ensures |neg| == |idx| && forall i :: 0 <= i < |idx| ==> neg[i] == ToSample(w[idx[i]], runT)
  {
    seq(|idx|, i requires 0 <= i < |idx| => ToSample(w[idx[i]], runT))
  }

  /** Every negative of atom `a` comes from a pool row of `a` inside its
      window. */
  lemma IdNegativesDrawn(pool: seq<(Row, Sigma)>, a: int, tj: real, runT: Option<int>)
    ensures forall s :: s in IdNegatives(pool, a, tj, runT) ==> DrawnFrom(s, pool, a, tj, runT)
  {
    var w := WindowRows(pool, a, tj);
    var neg := IdNegatives(pool, a, tj, runT);
    if |w| > 0 {
      PicksSpan(|w|);
      var idx := Picks(|w|);
      forall s | s in neg ensures DrawnFrom(s, pool, a, tj, runT) {
        var k :| 0 <= k < |neg| && neg[k] == s;
        assert neg[k] == ToSample(w[idx[k]], runT);
        assert w[idx[k]] in w;
      }
    }
  }

  /** A pool row inside its atom's window gives that atom negatives. */
  lemma IdNegativesHit(pool: seq<(Row, Sigma)>, x: (Row, Sigma), tj: real, runT: Option<int>)
    requires x in pool && InWindowOf(x, x.0.id, tj)
    ensures |IdNegatives(pool, x.0.id, tj, runT)| > 0
    ensures IdNegatives(pool, x.0.id, tj, runT)[0].id == x.0.id
  {
    IdNegativesDrawn(pool, x.0.id, tj, runT);
    assert IdNegatives(pool, x.0.id, tj, runT)[0] in IdNegatives(pool, x.0.id, tj, runT);
  }

  // ---------------------------------------------------------------------
  // Whole groups of ten

  /** `n` is a whole number of groups of ten. */
  predicate Grouped(n: nat)
    decreases n
  {
    n == 0 || (n >= NegPerId && Grouped(n - NegPerId))
  }

  /** Whole groups are exactly the multiples of ten. */
  lemma {:induction false} GroupedIsMultiple(n: nat)
    ensures Grouped(n) <==> n % NegPerId == 0
    decreases n
  {
    if n >= NegPerId {
      GroupedIsMultiple(n - NegPerId);
    }
  }

  lemma {:induction false} GroupedSum(a: nat, b: nat)
    requires Grouped(a) && Grouped(b)
    ensures Grouped(a + b)
    decreases a
  {
    if a > 0 {
      GroupedSum(a - NegPerId, b);
    }
  }

  lemma GroupedSame(a: nat, b: nat)
    requires Grouped(a) && a == b
    ensures Grouped(b)
  {
  }

  // ---------------------------------------------------------------------
  // The per-atom frames and their concatenation

  /** `neg_frames`: the negatives of each listed atom, one frame per atom
      (an empty window gives an empty frame, which adds nothing). */
  function Groups(ids: seq<int>, pool: seq<(Row, Sigma)>, times: map<int, real>, runT: Option<int>)
    : (gs: seq<seq<Sample>>)
    requires forall i :: 0 <= i < |ids| ==> ids[i] in times
    ensures |gs| == |ids|
    ensures forall i :: 0 <= i < |ids| ==> gs[i] == IdNegatives(pool, ids[i], times[ids[i]], runT)
  {
    seq(|ids|, i requires 0 <= i < |ids| => IdNegatives(pool, ids[i], times[ids[i]], runT))
  }

  /** Every frame holds whole groups of ten, each sample drawn from its
      own atom's window. */
  lemma GroupsDrawn(ids: seq<int>, pool: seq<(Row, Sigma)>, times: map<int, real>, runT: Option<int>)
    requires forall i :: 0 <= i < |ids| ==> ids[i] in times
    ensures forall i :: 0 <= i < |ids| ==> Grouped(|Groups(ids, pool, times, runT)[i]|)
    ensures forall i, s :: 0 <= i < |ids| && s in Groups(ids, pool, times, runT)[i] ==>
              DrawnFrom(s, pool, ids[i], times[ids[i]], runT)
  {
    var gs := Groups(ids, pool, times, runT);
    assert Grouped(NegPerId - NegPerId);
    forall i | 0 <= i < |ids|
      ensures Grouped(|gs[i]|)
      ensures forall s :: s in gs[i] ==> DrawnFrom(s, pool, ids[i], times[ids[i]], runT)
    {
      IdNegativesDrawn(pool, ids[i], times[ids[i]], runT);
    }
  }

  /** `pd.concat`: the frames one after the other. */
  function Flatten<T>(gs: seq<seq<T>>): seq<T>
  {
    if |gs| == 0 then [] else Flatten(gs[..|gs| - 1]) + gs[|gs| - 1]
  }

  /** The concatenation holds exactly the members of the frames. */
  lemma {:induction false} FlattenMembers<T>(gs: seq<seq<T>>)
    ensures forall x :: x in Flatten(gs) <==> exists i :: 0 <= i < |gs| && x in gs[i]
  {
    if |gs| > 0 {
      var n := |gs| - 1;
      FlattenMembers(gs[..n]);
      forall x
        ensures x in Flatten(gs) <==> exists i :: 0 <= i < |gs| && x in gs[i]
      {
        if x in Flatten(gs[..n]) {
          var i :| 0 <= i < n && x in gs[..n][i];
          assert gs[i] == gs[..n][i];
        }
        if exists i :: 0 <= i < |gs| && x in gs[i] {
          var i :| 0 <= i < |gs| && x in gs[i];
          if i < n {
            assert gs[..n][i] == gs[i];
          }
        }
      }
    }
  }

  /** Frames of whole groups concatenate to whole groups. */
  lemma {:induction false} FlattenCount<T>(gs: seq<seq<T>>)
    requires forall i :: 0 <= i < |gs| ==> Grouped(|gs[i]|)
    ensures Grouped(|Flatten(gs)|)
  {
    if |gs| > 0 {
      var n := |gs| - 1;
      FlattenCount(gs[..n]);
      GroupedSum(|Flatten(gs[..n])|, |gs[n]|);
    }
  }

  predicate IdsNondecreasing(s: seq<Sample>)
  {
    forall i, j :: 0 <= i < j < |s| ==> s[i].id <= s[j].id
  }

  /** Frames of single atoms, the atoms ascending, concatenate to samples
      whose ids never decrease. */
  lemma {:induction false} FlattenOrdered(gs: seq<seq<Sample>>, ids: seq<int>)
    requires |gs| == |ids|
    requires forall i, j :: 0 <= i < j < |ids| ==> ids[i] < ids[j]
    requires forall i, s :: 0 <= i < |gs| && s in gs[i] ==> s.id == ids[i]
    ensures IdsNondecreasing(Flatten(gs))
  {
    if |gs| > 0 {
      var n := |gs| - 1;
      var front := Flatten(gs[..n]);
      var last := gs[n];
      assert forall i :: 0 <= i < n ==> gs[..n][i] == gs[i];
      FlattenOrdered(gs[..n], ids[..n]);
      FlattenMembers(gs[..n]);
      var all := front + last;
      forall i, j | 0 <= i < j < |all|
        ensures all[i].id <= all[j].id
      {
        if j >= |front| {
          assert all[j] == last[j - |front|] && all[j] in last;
          if i < |front| {
            assert all[i] == front[i] && front[i] in front;
            var p :| 0 <= p < n && front[i] in gs[..n][p];
          } else {
            assert all[i] == last[i - |front|] && all[i] in last;
          }
        } else {
          assert all[i] == front[i] && all[j] == front[j];
        }
      }
    }
  }

  // ---------------------------------------------------------------------
  // One time series file, all files, the training set

  /** `run_T_K` of a file name, `None` when the name carries no tag. */
  function RunTOf(name: string): (r: Option<int>)
    ensures r.Some? <==> RunTemp(name).Some?
  {
    if RunTemp(name).Some? then Some(RunTemp(name).value) else None
  }

  /** The rows that survive the temperature and id filters, paired with
      their signed stress. */
  function Pool(t: Table, sig: seq<Sigma>, times: map<int, real>): (pool: seq<(Row, Sigma)>)
    requires |sig| == |t.rows|
    ensures forall x :: x in pool <==> x in Zip(t.rows, sig) && Eligible(x, times)
    ensures forall i :: 0 <= i < |pool| ==> pool[i].0.id in times
  {
    var pool := Select(Zip(t.rows, sig), (x: (Row, Sigma)) => Eligible(x, times));
    assert forall i :: 0 <= i < |pool| ==> pool[i] in pool;
    pool
  }

  function PoolIds(pool: seq<(Row, Sigma)>): (ids: seq<int>)
    ensures |ids| == |pool| && forall i :: 0 <= i < |pool| ==> ids[i] == pool[i].0.id
  {
    seq(|pool|, i requires 0 <= i < |pool| => pool[i].0.id)
  }

  /** The atoms the negatives are drawn for: the distinct ids of the
      filtered rows, ascending. */
  function PoolAtoms(t: Table, sig: seq<Sigma>, times: map<int, real>): (ids: seq<int>)
    requires |sig| == |t.rows|
    ensures forall i :: 0 <= i < |ids| ==> ids[i] in times
    ensures forall i, j :: 0 <= i < j < |ids| ==> ids[i] < ids[j]
    ensures forall x :: x in Pool(t, sig, times) ==> x.0.id in ids
  {
    var pool := Pool(t, sig, times);
    var ids := SortedIds(PoolIds(pool));
    assert forall i :: 0 <= i < |ids| ==> ids[i] in times by {
      forall i | 0 <= i < |ids|
        ensures ids[i] in times
      {
        assert ids[i] in PoolIds(pool);
        var j :| 0 <= j < |pool| && PoolIds(pool)[j] == ids[i];
      }
    }
    assert forall x :: x in pool ==> x.0.id in ids by {
      forall x | x in pool
        ensures x.0.id in ids
      {
        var i :| 0 <= i < |pool| && pool[i] == x;
        assert PoolIds(pool)[i] == x.0.id;
      }
    }
    ids
  }

  /** The negatives of a table whose signed stress is `sig`: the frames
      of the filtered atoms, ascending, concatenated. */
  function PoolNegatives(t: Table, sig: seq<Sigma>, times: map<int, real>, runT: Option<int>): seq<Sample>
    requires |sig| == |t.rows|
  {
    Flatten(Groups(PoolAtoms(t, sig, times), Pool(t, sig, times), times, runT))
  }

  /** A row that can become a negative: its temperature is in range, the
      jump table knows its atom, and its time is in that atom's window. */
  predicate Candidate(row: Row, times: map<int, real>)
  {
    Within(row.temp, TLow, THigh) && row.id in times && InWindow(row.time, times[row.id])
  }

  /** Some row of the table is a candidate. */
  predicate Hit(t: Table, times: map<int, real>)
  {
    exists k :: 0 <= k < |t.rows| && Candidate(t.rows[k], times)
  }

  /** A negative drawn from a candidate row of the table. */
  predicate NegativeOf(t: Table, sig: seq<Sigma>, s: Sample, times: map<int, real>, runT: Option<int>)
    requires |sig| == |t.rows|
  {
    s.escape == 0 && s.runT == runT
    && exists k :: 0 <= k < |t.rows| && Candidate(t.rows[k], times) && s == ToSample((t.rows[k], sig[k]), runT)
  }

  /** The ids of the samples, in order. */
  function SampleIds(s: seq<Sample>): (ids: seq<int>)
    ensures |ids| == |s| && forall j :: 0 <= j < |s| ==> ids[j] == s[j].id
  {
    seq(|s|, j requires 0 <= j < |s| => s[j].id)
  }

  /** Negative samples of atoms the jump table knows. */
  predicate KnownNegatives(s: seq<Sample>, times: map<int, real>)
  {
    forall k :: 0 <= k < |s| ==> s[k].escape == 0 && s[k].id in times
  }

  /** Every negative of a table comes from one of its candidate rows; they
      come in whole groups of ten with ids ascending. */
  lemma PoolNegativesSound(t: Table, sig: seq<Sigma>, times: map<int, real>, runT: Option<int>)
    requires |sig| == |t.rows|
    ensures Grouped(|PoolNegatives(t, sig, times, runT)|)
    ensures IdsNondecreasing(PoolNegatives(t, sig, times, runT))
    ensures KnownNegatives(PoolNegatives(t, sig, times, runT), times)
    ensures forall s :: s in PoolNegatives(t, sig, times, runT) ==> NegativeOf(t, sig, s, times, runT)
  {
    var pool := Pool(t, sig, times);
    var ids := PoolAtoms(t, sig, times);
    var gs := Groups(ids, pool, times, runT);
    GroupsDrawn(ids, pool, times, runT);
    FlattenCount(gs);
    FlattenOrdered(gs, ids);
    FlattenMembers(gs);
    var neg := Flatten(gs);
    forall s | s in neg
      ensures NegativeOf(t, sig, s, times, runT)
    {
      var i :| 0 <= i < |gs| && s in gs[i];
      DrawnIsNegative(t, sig, times, runT, s, ids[i]);
    }
    assert forall k :: 0 <= k < |neg| ==> neg[k] in neg;
  }

  /** Every candidate row yields negatives for its atom. */
  lemma PoolNegativesComplete(t: Table, sig: seq<Sigma>, times: map<int, real>, runT: Option<int>, k: nat)
    requires |sig| == |t.rows| && k < |t.rows| && Candidate(t.rows[k], times)
    ensures t.rows[k].id in SampleIds(PoolNegatives(t, sig, times, runT))
  {
    var pool := Pool(t, sig, times);
    var ids := PoolAtoms(t, sig, times);
    var gs := Groups(ids, pool, times, runT);
    var x := (t.rows[k], sig[k]);
    assert Zip(t.rows, sig)[k] == x;
    assert x in pool;
    var i :| 0 <= i < |ids| && ids[i] == x.0.id;
    IdNegativesHit(pool, x, times[ids[i]], runT);
    assert gs[i][0] in gs[i];
    FlattenMembers(gs);
    IdOfMember(Flatten(gs), gs[i][0]);
  }

  /** A sample drawn from the window of atom `a` in the pool of a table is
      a negative of that table. */
  lemma DrawnIsNegative(t: Table, sig: seq<Sigma>, times: map<int, real>, runT: Option<int>, s: Sample, a: int)
    requires |sig| == |t.rows| && a in times
    requires DrawnFrom(s, Pool(t, sig, times), a, times[a], runT)
    ensures NegativeOf(t, sig, s, times, runT)
  {
    var x :| x in Pool(t, sig, times) && InWindowOf(x, a, times[a]) && s == ToSample(x, runT);
    var z := Zip(t.rows, sig);
    var j :| 0 <= j < |z| && z[j] == x;
    assert Candidate(t.rows[j], times);
  }

  lemma IdOfMember(s: seq<Sample>, x: Sample)
    requires x in s
    ensures x.id in SampleIds(s)
  {
    var j :| 0 <= j < |s| && s[j] == x;
    assert SampleIds(s)[j] == x.id;
  }

  /** A nonempty table whose signed stress cannot be built. */
  predicate Broken(t: Table)
  {
    |t.rows| > 0 && Source(t.names).None? && !HasSix(t.names)
  }

  /** The negatives of one time series file named `name`: none for an
      empty table, `KeyError` when its signed stress cannot be built, and
      otherwise negatives exactly when some row is a candidate, each drawn
      from a candidate row, in whole groups of ten with ascending ids. */
  method TableNegatives(t: Table, name: string, times: map<int, real>) returns (r: Result<seq<Sample>>)
    requires t.WellFormed()
    ensures r.Failure? <==> Broken(t)
    ensures |t.rows| == 0 ==> r == Success([])
    ensures r.Success? ==> Grouped(|r.value|) && IdsNondecreasing(r.value) && KnownNegatives(r.value, times)
    ensures r.Success? ==> (|r.value| > 0 <==> Hit(t, times))
    ensures r.Success? && |t.rows| > 0 ==> forall s :: s in r.value ==>
              NegativeOf(t, AddSigma(t).value, s, times, RunTOf(name))
    ensures r.Success? ==> forall k :: 0 <= k < |t.rows| && Candidate(t.rows[k], times) ==>
              t.rows[k].id in SampleIds(r.value)
  {
    if |t.rows| == 0 {
      return Success([]);
    }
    var sig := AddSigma(t);
    if sig.Failure? {
      return Failure(sig.error);
    }
    var runT := RunTOf(name);
    var neg := PoolNegatives(t, sig.value, times, runT);
    PoolNegativesSound(t, sig.value, times, runT);
    forall k | 0 <= k < |t.rows| && Candidate(t.rows[k], times)
      ensures t.rows[k].id in SampleIds(neg)
    {
      PoolNegativesComplete(t, sig.value, times, runT, k);
    }
    if |neg| > 0 {
      assert neg[0] in neg;
    }
    return Success(neg);
  }

  /** A time series file: the basename of its path and its table. */
  datatype Series = Series(name: string, table: Table)

  predicate AllWellFormed(files: seq<Series>)
  {
    forall i :: 0 <= i < |files| ==> files[i].table.WellFormed()
  }

  /** Some file is broken. */
  predicate AnyBroken(files: seq<Series>)
  {
    exists i :: 0 <= i < |files| && Broken(files[i].table)
  }

  /** Some file has a candidate row. */
  predicate AnyHit(files: seq<Series>, times: map<int, real>)
  {
    exists i :: 0 <= i < |files| && Hit(files[i].table, times)
  }

  lemma AnyStep(files: seq<Series>, times: map<int, real>, i: nat)
    requires i < |files|
    ensures AnyBroken(files[..i + 1]) <==> AnyBroken(files[..i]) || Broken(files[i].table)
    ensures AnyHit(files[..i + 1], times) <==> AnyHit(files[..i], times) || Hit(files[i].table, times)
  {
    assert forall j :: 0 <= j < i ==> files[..i + 1][j] == files[..i][j];
    assert files[..i + 1][i] == files[i];
  }

  lemma KnownAppend(a: seq<Sample>, b: seq<Sample>, times: map<int, real>)
    requires KnownNegatives(a, times) && KnownNegatives(b, times)
    ensures KnownNegatives(a + b, times)
  {
    var c := a + b;
    forall k | 0 <= k < |c| ensures c[k].escape == 0 && c[k].id in times {
      if k < |a| {
        assert c[k] == a[k];
      } else {
        assert c[k] == b[k - |a|];
      }
    }
  }

  /** A negative drawn from a candidate row of the file's table. */
  predicate FromFile(f: Series, s: Sample, times: map<int, real>)
  {
    f.table.WellFormed() && AddSigma(f.table).Success?
    && NegativeOf(f.table, AddSigma(f.table).value, s, times, RunTOf(f.name))
  }

  /** Every candidate row of the table has its atom among the samples. */
  predicate CandidatesDrawn(t: Table, neg: seq<Sample>, times: map<int, real>)
  {
    forall k :: 0 <= k < |t.rows| && Candidate(t.rows[k], times) ==> t.rows[k].id in SampleIds(neg)
  }

  lemma SampleIdsAppend(a: seq<Sample>, b: seq<Sample>)
    ensures SampleIds(a + b) == SampleIds(a) + SampleIds(b)
  {
  }

  /** Appending samples keeps the atoms already drawn. */
  lemma DrawnAppend(t: Table, a: seq<Sample>, b: seq<Sample>, times: map<int, real>)
    requires CandidatesDrawn(t, a, times) || CandidatesDrawn(t, b, times)
    ensures CandidatesDrawn(t, a + b, times)
  {
    SampleIdsAppend(a, b);
  }

  /** The negatives gathered from the files before `i`, each drawn from a
      candidate row of one of them, with every candidate atom of each drawn. */
  predicate Gathered(files: seq<Series>, i: nat, acc: seq<Sample>, times: map<int, real>)
    requires i <= |files|
  {
    && (forall s :: s in acc ==> exists j :: 0 <= j < i && FromFile(files[j], s, times))
    && (forall j :: 0 <= j < i ==> CandidatesDrawn(files[j].table, acc, times))
  }

  /** Appending the negatives of file `i` extends what has been gathered. */
  lemma GatheredStep(files: seq<Series>, i: nat, acc: seq<Sample>, last: seq<Sample>, times: map<int, real>)
    requires i < |files| && files[i].table.WellFormed()
    requires Gathered(files, i, acc, times)
    requires |files[i].table.rows| == 0 ==> last == []
    requires |files[i].table.rows| > 0 ==> AddSigma(files[i].table).Success? && forall s :: s in last ==>
               NegativeOf(files[i].table, AddSigma(files[i].table).value, s, times, RunTOf(files[i].name))
    requires CandidatesDrawn(files[i].table, last, times)
    ensures Gathered(files, i + 1, acc + last, times)
  {
    forall s | s in acc + last
      ensures exists j :: 0 <= j < i + 1 && FromFile(files[j], s, times)
    {
      if s in acc {
        var j :| 0 <= j < i && FromFile(files[j], s, times);
      } else {
        assert FromFile(files[i], s, times);
      }
    }
    forall j | 0 <= j < i + 1
      ensures CandidatesDrawn(files[j].table, acc + last, times)
    {
      DrawnAppend(files[j].table, acc, last, times);
    }
  }

  /** The negatives of every file, in file order; the first broken file
      stops the script. There are negatives exactly when some file has a
      candidate row; each is drawn from a candidate row of some file, and
      every candidate row of every file has its atom drawn. */
  method AllNegatives(files: seq<Series>, times: map<int, real>) returns (r: Result<seq<Sample>>)
    requires AllWellFormed(files)
    ensures r.Failure? <==> AnyBroken(files)
    ensures r.Success? ==> Grouped(|r.value|) && KnownNegatives(r.value, times)
    ensures r.Success? ==> (|r.value| > 0 <==> AnyHit(files, times))
    ensures r.Success? ==> forall s :: s in r.value ==> exists i :: 0 <= i < |files| && FromFile(files[i], s, times)
    ensures r.Success? ==> forall i :: 0 <= i < |files| ==> CandidatesDrawn(files[i].table, r.value, times)
  {
    var acc: seq<Sample> := [];
    var i := 0;
    while i < |files|
      invariant i <= |files|
      invariant !AnyBroken(files[..i])
      invariant Grouped(|acc|) && KnownNegatives(acc, times)
      invariant |acc| > 0 <==> AnyHit(files[..i], times)
      invariant Gathered(files, i, acc, times)
    {
      var last := TableNegatives(files[i].table, files[i].name, times);
      AnyStep(files, times, i);
      if last.Failure? {
        assert Broken(files[i].table);
        return Failure(last.error);
      }
      GroupedSum(|acc|, |last.value|);
      KnownAppend(acc, last.value, times);
      GatheredStep(files, i, acc, last.value, times);
      acc := acc + last.value;
      i := i + 1;
    }
    assert files[..i] == files;
    return Success(acc);
  }

  /** The positives of the jump rows followed by known negatives, in
      whole groups of ten. */
  lemma Assemble(jump: seq<Row>, sig: seq<Sigma>, neg: seq<Sample>, times: map<int, real>)
    requires |sig| == |jump| && KnownNegatives(neg, times) && Grouped(|neg|)
    ensures var out := Positives(jump, sig) + neg;
            forall k :: 0 <= k < |jump| ==>
              out[k].escape == 1 && out[k].id == jump[k].id && out[k].tempK == jump[k].temp && out[k].runT == jump[k].runT
              && out[k].sigma == sig[k]
    ensures var out := Positives(jump, sig) + neg;
            forall k :: |jump| <= k < |out| ==> out[k].escape == 0 && out[k].id in times
    ensures Grouped(|(Positives(jump, sig) + neg)[|jump|..]|)
  {
    var pos := Positives(jump, sig);
    var out := pos + neg;
    forall k | |pos| <= k < |out|
      ensures out[k].escape == 0 && out[k].id in times
    {
      assert out[k] == neg[k - |pos|];
    }
    GroupedSame(|neg|, |out[|jump|..]|);
  }

  /** The columns of the jump table read by name: `id` and `t_jump_ps` for
      the jump times, `avg_T_K` and `run_T_K` for the output. */
  const JumpLabels: set<string> := {"id", "t_jump_ps", "avg_T_K", "run_T_K"}

  /** The script: `KeyError` when the jump table's signed stress cannot be
      built, when its header `jumpCols` lacks one of the columns read by
      name, or when a nonempty time series' signed stress cannot be built;
      `ValueError` when no row of any time series is a candidate; otherwise
      every jump row as a positive, followed by the negatives in whole
      groups of ten. */
  method TrainingSet(jump: Table, jumpCols: set<string>, files: seq<Series>) returns (r: Result<seq<Sample>>)
    requires jump.WellFormed() && AllWellFormed(files)
    ensures r.Failure? <==>
              || (Source(jump.names).None? && !HasSix(jump.names))
              || !(JumpLabels <= jumpCols)
              || AnyBroken(files)
              || !AnyHit(files, JumpTimes(jump.rows))
    ensures r.Success? ==> |r.value| > |jump.rows|
    ensures r.Success? ==> forall k :: 0 <= k < |jump.rows| ==>
              r.value[k].escape == 1 && r.value[k].id == jump.rows[k].id
              && r.value[k].tempK == jump.rows[k].temp && r.value[k].runT == jump.rows[k].runT
    ensures r.Success? ==> AddSigma(jump).Success? && forall k :: 0 <= k < |jump.rows| ==>
              r.value[k].sigma == AddSigma(jump).value[k]
    ensures r.Success? ==> Grouped(|r.value[|jump.rows|..]|)
    ensures r.Success? ==> forall k :: |jump.rows| <= k < |r.value| ==>
              r.value[k].escape == 0 && r.value[k].id in JumpTimes(jump.rows)
    ensures r.Success? ==> forall k :: |jump.rows| <= k < |r.value| ==>
              exists i :: 0 <= i < |files| && FromFile(files[i], r.value[k], JumpTimes(jump.rows))
    ensures r.Success? ==> forall i :: 0 <= i < |files| ==>
              CandidatesDrawn(files[i].table, r.value[|jump.rows|..], JumpTimes(jump.rows))
  {
    var sig := AddSigma(jump);
    if sig.Failure? {
      return Failure(sig.error);
    }
    if !(JumpLabels <= jumpCols) {
      return Failure("KeyError: a column of the jump table is missing");
    }
    var times := JumpTimes(jump.rows);
    var neg := AllNegatives(files, times);
    if neg.Failure? {
      return Failure(neg.error);
    }
    if |neg.value| == 0 {
      return Failure("ValueError: No objects to concatenate");
    }
    Assemble(jump.rows, sig.value, neg.value, times);
    var out := Positives(jump.rows, sig.value) + neg.value;
    assert out[|jump.rows|..] == neg.value;
    forall k | |jump.rows| <= k < |out|
      ensures exists i :: 0 <= i < |files| && FromFile(files[i], out[k], times)
    {
      assert out[k] == neg.value[k - |jump.rows|];
      assert out[k] in neg.value;
    }
    return Success(out);
  }
}

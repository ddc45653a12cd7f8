/** The particle filter of ovito_filter_dump.py: which particles of a frame
    are kept (by type, by id list and by height above the top surface),
    the frame range check and the export column list. */
module OvitoFilter {
  import opened Wrappers
  import opened Text
  import opened Numbers
  import opened Reals
  import opened Sorting
  import opened IdCsv
  import opened Surface

  // ---------------------------------------------------------------------
  // Command-line values

  /** `int()` accepts every field. */
  predicate AllInts(fields: seq<string>)
  {
    forall k :: 0 <= k < |fields| ==> ParseInt(fields[k]).Some?
  }

  lemma AllIntsSnoc(fields: seq<string>)
    requires |fields| > 0
    ensures AllInts(fields) <==> AllInts(fields[..|fields| - 1]) && ParseInt(fields[|fields| - 1]).Some?
  {
    assert forall k :: 0 <= k < |fields| - 1 ==> fields[..|fields| - 1][k] == fields[k];
  }

  /** `vals[k]` is the integer of field `k`, for every field. */
  predicate IntsOf(fields: seq<string>, vals: seq<int>)
  {
    |vals| == |fields| && forall k :: 0 <= k < |fields| ==> ParseInt(fields[k]) == Some(vals[k])
  }

  lemma IntsOfSnoc(fields: seq<string>, vals: seq<int>, x: int)
    requires |fields| > 0 && IntsOf(fields[..|fields| - 1], vals)
    requires ParseInt(fields[|fields| - 1]) == Some(x)
    ensures IntsOf(fields, vals + [x])
  {
    var n := |fields| - 1;
    var front := fields[..n];
    var r := vals + [x];
    forall k | 0 <= k < |fields| ensures ParseInt(fields[k]) == Some(r[k]) {
      if k < n {
        assert ParseInt(front[k]) == Some(vals[k]);
        assert front[k] == fields[k] && r[k] == vals[k];
      } else {
        assert r[k] == x;
      }
    }
  }

  /** The integers of a list of fields, or the first one `int()` rejects. */
  function ParseInts(fields: seq<string>): (r: Result<seq<int>>)
    ensures r.Success? <==> AllInts(fields)
    ensures r.Success? ==> IntsOf(fields, r.value)
  {
    if |fields| == 0 then Success([])
    else
      var n := |fields| - 1;
      var front := ParseInts(fields[..n]);
      var last := ParseInt(fields[n]);
      AllIntsSnoc(fields);
      if front.Failure? then Failure(front.error)
      else if last.None? then Failure("invalid literal for int(): " + fields[n])
      else
        IntsOfSnoc(fields, front.value, last.value);
        Success(front.value + [last.value])
  }

  /** `--types`: absent or empty means no type filter; otherwise the
      integers of the comma-separated, stripped, nonblank fields. */
  function ParseTypes(arg: Option<string>): (r: Result<Option<seq<int>>>)
    ensures arg.None? || arg == Some("") ==> r == Success(None)
    ensures arg.Some? && arg.value != "" ==>
              (r.Success? <==> AllInts(Fields(arg.value, ',')))
    ensures arg.Some? && arg.value != "" && r.Success? ==>
              r.value.Some? && IntsOf(Fields(arg.value, ','), r.value.value)
  {
    if arg.None? || arg.value == "" then Success(None)
    else
      var ts := ParseInts(Fields(arg.value, ','));
      if ts.Failure? then Failure(ts.error) else Success(Some(ts.value))
  }

  // ---------------------------------------------------------------------
  // --ids-csv

  /** The integers the `--ids-csv` loop appends, in file order. */
  function FilterParsed(rows: seq<seq<string>>): (ids: seq<int>)
    ensures |ids| <= |rows|
  {
    if |rows| == 0 then []
    else
      var front := FilterParsed(rows[..|rows| - 1]);
      match FilterId(rows[|rows| - 1])
      case None => front
      case Some(a) => front + [a]
  }

  /** The loop appends exactly what `load_ids_from_csv` of trace_out_c.py
      does, row by row. */
  lemma {:induction false} FilterParsedIsParsed(rows: seq<seq<string>>)
    ensures FilterParsed(rows) == Parsed(rows)
  {
    if |rows| > 0 {
      FilterParsedIsParsed(rows[..|rows| - 1]);
      HeaderIsNoInt(rows[|rows| - 1]);
      RowIdsPrefix(rows);
    }
  }

  /** `ids_keep`: no file means no id filter; otherwise the sorted distinct
      integers of the file, which may be none. */
  function IdsKeep(file: Option<seq<seq<string>>>): (r: Option<seq<int>>)
    ensures r.None? <==> file.None?
    ensures r.Some? ==> forall i, j :: 0 <= i < j < |r.value| ==> r.value[i] < r.value[j]
    ensures r.Some? ==> forall a :: a in r.value <==> a in FilterParsed(file.value)
  {
    match file
    case None => None
    case Some(rows) => Some(SortedIds(FilterParsed(rows)))
  }

  /** Both scripts read the same id list from the same file. */
  lemma IdsKeepIsLoadIds(rows: seq<seq<string>>)
    ensures IdsKeep(Some(rows)) == Some(LoadIds(rows))
  {
    FilterParsedIsParsed(rows);
  }

  // ---------------------------------------------------------------------
  // particle_filter

  /** The particle arrays the filter reads. */
  datatype Particles = Particles(ids: seq<int>, types: seq<int>, z: seq<real>)

  predicate WellFormed(p: Particles)
  {
    |p.types| == |p.ids| && |p.z| == |p.ids|
  }

  /** The parsed command line. */
  datatype Options = Options(types: Option<seq<int>>, ids: Option<seq<int>>, keepOnlyIds: bool,
                             detachThresh: Option<real>, carbonType: int)

  /** `robust_top_surface_z` as this script has it: the core test always
      uses 5.0, whatever `core_width` is, so only the height estimate
      matters here. */
  function RobustTop(z: seq<real>): (r: Option<real>)
    ensures r.None? <==> |z| == 0
    ensures r.Some? ==> MinOf(z) <= r.value <= MaxOf(z)
  {
    match TopSurface(z, 5.0)
    case None => None
    case Some(t) => Some(t.0)
  }

  /** This script's estimate is the shared top-surface estimate of
      find_out_c.py with the core half-width fixed at 5.0. */
  lemma RobustTopIsTopSurface(z: seq<real>)
    ensures RobustTop(z).Some? <==> TopSurface(z, 5.0).Some?
    ensures RobustTop(z).Some? ==> RobustTop(z).value == TopSurface(z, 5.0).value.0
  {
  }

  /** `type_mask & id_mask`: the type passes (when types are given) and the
      id passes (when ids are given). */
  predicate Base(p: Particles, o: Options, i: nat)
    requires WellFormed(p) && i < |p.ids|
  {
    (o.types.None? || p.types[i] in o.types.value) && (o.ids.None? || p.ids[i] in o.ids.value)
  }

  /** `z[current_keep & isC]`: the heights of the carbons that pass the
      type and id filters, among the first `n`. */
  function KeptCarbonHeights(p: Particles, o: Options, n: nat): (zs: seq<real>)
    requires WellFormed(p) && n <= |p.ids|
    ensures forall x :: x in zs <==>
              exists i :: 0 <= i < n && Base(p, o, i) && p.types[i] == o.carbonType && p.z[i] == x
  {
    if n == 0 then []
    else
      var front := KeptCarbonHeights(p, o, n - 1);
      var i := n - 1;
      if Base(p, o, i) && p.types[i] == o.carbonType then front + [p.z[i]] else front
  }

  /** The surface the detach step measures from; `None` when there is no
      detach threshold or no kept carbon. */
  function DetachTop(p: Particles, o: Options): (r: Option<real>)
    requires WellFormed(p)
    ensures r.Some? <==> o.detachThresh.Some?
                         && exists i :: 0 <= i < |p.ids| && Base(p, o, i) && p.types[i] == o.carbonType
    ensures r.Some? ==> exists i, j :: 0 <= i < |p.ids| && 0 <= j < |p.ids|
                          && Base(p, o, i) && p.types[i] == o.carbonType
                          && Base(p, o, j) && p.types[j] == o.carbonType
                          && p.z[i] <= r.value <= p.z[j]
  {
    if o.detachThresh.None? then None
    else
      var zs := KeptCarbonHeights(p, o, |p.ids|);
      if |zs| == 0 then
        assert forall i :: 0 <= i < |p.ids| ==> !(Base(p, o, i) && p.types[i] == o.carbonType) by {
          forall i | 0 <= i < |p.ids|
            ensures !(Base(p, o, i) && p.types[i] == o.carbonType)
          {
            assert p.z[i] !in zs;
          }
        }
        None
      else
        assert MinOf(zs) in zs && MaxOf(zs) in zs;
        RobustTop(zs)
  }

  /** `final_keep[i]`. */
  predicate Keep(p: Particles, o: Options, i: nat)
    requires WellFormed(p) && i < |p.ids|
  {
    if o.keepOnlyIds && o.ids.Some? then p.ids[i] in o.ids.value
    else
      var top := DetachTop(p, o);
      Base(p, o, i)
      && !(top.Some? && p.types[i] == o.carbonType && p.z[i] - top.value <= o.detachThresh.value)
  }

  /** The `Selection` property: 1 marks a particle to delete. */
  function Selection(p: Particles, o: Options): (sel: seq<bool>)
    requires WellFormed(p)
    ensures |sel| == |p.ids|
    ensures forall i :: 0 <= i < |p.ids| ==> (sel[i] <==> !Keep(p, o, i))
  {
    seq(|p.ids|, i requires 0 <= i < |p.ids| => !Keep(p, o, i))
  }

  /** With `--keep-only-ids` and an id list, only the list counts: type and
      detach are ignored. */
  lemma KeepOnlyIds(p: Particles, o: Options, i: nat)
    requires WellFormed(p) && i < |p.ids| && o.keepOnlyIds && o.ids.Some?
    ensures !Selection(p, o)[i] <==> p.ids[i] in o.ids.value
  {
  }

  /** Otherwise a kept particle passes the type and id filters; a particle
      that is not a carbon is kept exactly when it passes them; and a kept
      carbon under a detach threshold lies strictly more than the
      threshold above the surface of the kept carbons. */
  lemma KeepIntersects(p: Particles, o: Options, i: nat)
    requires WellFormed(p) && i < |p.ids| && !(o.keepOnlyIds && o.ids.Some?)
    ensures !Selection(p, o)[i] ==> Base(p, o, i)
    ensures p.types[i] != o.carbonType ==> (!Selection(p, o)[i] <==> Base(p, o, i))
    ensures o.detachThresh.None? ==> (!Selection(p, o)[i] <==> Base(p, o, i))
    ensures DetachTop(p, o).Some? && p.types[i] == o.carbonType ==>
              (!Selection(p, o)[i] <==> Base(p, o, i) && p.z[i] - DetachTop(p, o).value > o.detachThresh.value)
  {
  }

  /** With a threshold but no kept carbon there is no surface, and nothing
      is removed. */
  lemma NoCarbonNoRemoval(p: Particles, o: Options, i: nat)
    requires WellFormed(p) && i < |p.ids| && !(o.keepOnlyIds && o.ids.Some?)
    requires forall j :: 0 <= j < |p.ids| ==> !(Base(p, o, j) && p.types[j] == o.carbonType)
    ensures !Selection(p, o)[i] <==> Base(p, o, i)
  {
  }

  // ---------------------------------------------------------------------
  // Frame range and export columns

  /** `[start, end)` must be a nonempty range of frames. */
  function FrameRange(start: int, end: int, numFrames: nat): (r: Result<(nat, nat)>)
    ensures r.Success? <==> 0 <= start < end <= numFrames
    ensures r.Success? ==> r.value == (start, end)
  {
    if start < 0 || end <= start || end > numFrames then Failure("invalid frame range")
    else Success((start, end))
  }

  /** `name_map`: the short names OVITO knows under another name. */
  const NameMap: map<string, string> := map[
    "id" := "Particle Identifier", "type" := "Particle Type",
    "x" := "Position.X", "y" := "Position.Y", "z" := "Position.Z",
    "vx" := "Velocity.X", "vy" := "Velocity.Y", "vz" := "Velocity.Z"]

  const DefaultColumns: seq<string> :=
    ["Particle Identifier", "Particle Type", "Position.X", "Position.Y", "Position.Z"]

  /** The export name of one requested column, if it has one. */
  function ExportName(c: string, present: set<string>): (r: Option<string>)
    ensures c in NameMap ==> r == Some(NameMap[c])
    ensures c !in NameMap ==> (r.Some? <==> c in present)
    ensures c !in NameMap && r.Some? ==> r.value == c
  {
    if c in NameMap then Some(NameMap[c]) else if c in present then Some(c) else None
  }

  /** The export names of the requests, in request order. */
  function MapColumns(req: seq<string>, present: set<string>): (cols: seq<string>)
    ensures |cols| <= |req|
    ensures forall x :: x in cols <==> exists k :: 0 <= k < |req| && ExportName(req[k], present) == Some(x)
  {
    if |req| == 0 then []
    else
      var n := |req| - 1;
      var front := MapColumns(req[..n], present);
      assert forall k :: 0 <= k < n ==> req[..n][k] == req[k];
      match ExportName(req[n], present)
      case None => front
      case Some(x) => front + [x]
  }

  /** The export columns: the requested ones that map or exist, or the five
      basic columns when none does. */
  function Columns(arg: string, present: set<string>): (cols: seq<string>)
    ensures |cols| > 0
    ensures MapColumns(Fields(arg, ','), present) != [] ==> cols == MapColumns(Fields(arg, ','), present)
    ensures MapColumns(Fields(arg, ','), present) == [] ==> cols == DefaultColumns
  {
    var cols := MapColumns(Fields(arg, ','), present);
    if cols == [] then DefaultColumns else cols
  }

  /** A request that names nothing known falls back to the five basic
      columns. */
  lemma UnknownColumnsFallBack(arg: string, present: set<string>)
    requires forall k :: 0 <= k < |Fields(arg, ',')| ==>
               Fields(arg, ',')[k] !in NameMap && Fields(arg, ',')[k] !in present
    ensures Columns(arg, present) == DefaultColumns
  {
    FirstIsMember(MapColumns(Fields(arg, ','), present));
  }

  lemma FirstIsMember(s: seq<string>)
    ensures |s| > 0 ==> s[0] in s
  {
  }
}

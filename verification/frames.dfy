/** Tables with named columns, as pandas data frames read from CSV files:
    every row maps each column name to a cell. */
module Frames {
  import opened Wrappers
  import opened Numbers
  import opened Tensor

  /** A cell: missing (NaN or empty), a number, text, or a square root
      known by its square (a value a script computed with `np.sqrt`). */
  datatype Val = Missing | Num(x: real) | Text(s: string) | Sqrt(r: Root)

  type Row = map<string, Val>

  datatype Frame = Frame(cols: seq<string>, rows: seq<Row>)
  {
    /** Column names are distinct and every row has exactly those keys. */
    ghost predicate Valid()
    {
      && (forall i, j :: 0 <= i < j < |cols| ==> cols[i] != cols[j])
      && (forall k :: 0 <= k < |rows| ==> forall c :: c in rows[k] <==> c in cols)
    }

    /** What `read_csv` can produce: no computed roots. */
    predicate FromCsv()
    {
      forall k, c :: 0 <= k < |rows| && c in rows[k] ==> !rows[k][c].Sqrt?
    }
  }

  /** `astype(float)` of one cell read from CSV: text that `float()`
      rejects raises. */
  function AsFloat(v: Val): (r: Result<Option<real>>)
    requires !v.Sqrt?
    ensures v.Missing? ==> r == Success(None)
    ensures v.Num? ==> r == Success(Some(v.x))
    ensures v.Text? ==> (r.Success? <==> ParseFloat(v.s).Some?)
    ensures r.Success? && r.value.Some? ==> v.Num? || v.Text?
  {
    match v
    case Missing => Success(None)
    case Num(x) => Success(Some(x))
    case Text(s) => if ParseFloat(s).Some? then Success(ParseFloat(s)) else Failure("ValueError: could not convert string to float")
  }

  /** `df[c].astype(float)`: the whole column, or the first failure. */
  function ColumnFloats(f: Frame, c: string): (r: Result<seq<Option<real>>>)
    requires f.Valid() && f.FromCsv() && c in f.cols
    ensures r.Failure? <==> exists k :: 0 <= k < |f.rows| && AsFloat(f.rows[k][c]).Failure?
    ensures r.Success? ==> |r.value| == |f.rows|
    ensures r.Success? ==> forall k :: 0 <= k < |f.rows| ==> AsFloat(f.rows[k][c]) == Success(r.value[k])
  {
    FloatsOf(ColumnVals(f, c))
  }

  /** The cells of column `c`, row by row. */
  function ColumnVals(f: Frame, c: string): (vs: seq<Val>)
    requires f.Valid() && f.FromCsv() && c in f.cols
    ensures |vs| == |f.rows|
    ensures forall k :: 0 <= k < |f.rows| ==> vs[k] == f.rows[k][c]
    ensures NoRoots(vs)
  {
    seq(|f.rows|, k requires 0 <= k < |f.rows| => f.rows[k][c])
  }

  predicate NoRoots(vs: seq<Val>)
  {
    forall k :: 0 <= k < |vs| ==> !vs[k].Sqrt?
  }

  /** `float()` of any cell; a computed root never reaches it. */
  function CellFloat(v: Val): (r: Result<Option<real>>)
    ensures !v.Sqrt? ==> r == AsFloat(v)
  {
    if v.Sqrt? then Failure("TypeError") else AsFloat(v)
  }

  /** Applies `f` to every element, or gives the first failure. */
  function MapAll<A, B>(vs: seq<A>, f: A -> Result<B>): (r: Result<seq<B>>)
    ensures r.Success? <==> forall k :: 0 <= k < |vs| ==> f(vs[k]).Success?
    ensures r.Success? ==> |r.value| == |vs| && forall k :: 0 <= k < |vs| ==> f(vs[k]) == Success(r.value[k])
  {
    if |vs| == 0 then Success([])
    else
      var n := |vs| - 1;
      assert forall k :: 0 <= k < n ==> vs[..n][k] == vs[k];
      var front := MapAll(vs[..n], f);
      var v := f(vs[n]);
      if front.Failure? then Failure(front.error)
      else if v.Failure? then Failure(v.error)
      else
        var r := front.value + [v.value];
        assert forall k :: 0 <= k < n ==> r[k] == front.value[k];
        Success(r)
  }

  /** `astype(float)` of a run of cells: every value, or the first failure. */
  function FloatsOf(vs: seq<Val>): (r: Result<seq<Option<real>>>)
    requires NoRoots(vs)
    ensures r.Failure? <==> exists k :: 0 <= k < |vs| && AsFloat(vs[k]).Failure?
    ensures r.Success? ==> |r.value| == |vs| && forall k :: 0 <= k < |vs| ==> AsFloat(vs[k]) == Success(r.value[k])
  {
    MapAll(vs, CellFloat)
  }

  /** `df[c] = vals`: an existing column is overwritten in place, a new one
      is appended; every other cell is left as it was. */
  function SetColumn(f: Frame, c: string, vals: seq<Val>): (r: Frame)
    requires f.Valid() && |vals| == |f.rows|
    ensures r.Valid()
    ensures r.cols == if c in f.cols then f.cols else f.cols + [c]
    ensures |r.rows| == |f.rows|
    ensures forall k :: 0 <= k < |r.rows| ==> r.rows[k][c] == vals[k]
    ensures forall k, d :: 0 <= k < |r.rows| && d in f.rows[k] && d != c ==> r.rows[k][d] == f.rows[k][d]
  {
    var cols := if c in f.cols then f.cols else f.cols + [c];
    Frame(cols, seq(|f.rows|, k requires 0 <= k < |f.rows| => f.rows[k][c := vals[k]]))
  }
}

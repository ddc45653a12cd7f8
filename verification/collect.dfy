/** The merge of 06_collect_all_jumps.py: every nonempty per-run jump
    table gets its run temperature (from the file name) and its source path,
    the six stress columns are added where missing, the tables are stacked,
    and the key columns are moved to the front. */
module Collect {
  import opened Wrappers
  import opened Text
  import opened Frames
  import opened RunTag

  const StressCols: seq<string> := ["v_s_xx_gpa", "v_s_yy_gpa", "v_s_zz_gpa",
                                    "v_s_xy_gpa", "v_s_xz_gpa", "v_s_yz_gpa"]
  const FrontCols: seq<string> := ["id", "avg_T_K", "t_jump_ps"] + StressCols

  predicate Distinct(s: seq<string>)
  {
    forall i, j :: 0 <= i < j < |s| ==> s[i] != s[j]
  }

  /** The six stress column names differ in their axis letters. */
  lemma StressColsDistinct()
    ensures Distinct(StressCols)
  {
    var s := StressCols;
    forall i, j | 0 <= i < j < |s|
      ensures s[i] != s[j]
    {
      assert s[i][4] != s[j][4] || s[i][5] != s[j][5];
    }
  }

  /** A column holding one value in every row. */
  function Fill(n: nat, v: Val): (vals: seq<Val>)
    ensures |vals| == n && forall k :: 0 <= k < n ==> vals[k] == v
  {
    seq(n, k => v)
  }

  /** The `run_T_K` cell of a file: the temperature tag of its name, or
      missing when the name has none. */
  function TempCell(path: string): (v: Val)
    ensures RunTemp(Basename(path)).Some? ==> v == Num(RunTemp(Basename(path)).value as real)
    ensures RunTemp(Basename(path)).None? ==> v == Missing
  {
    match RunTemp(Basename(path))
    case Some(t) => Num(t as real)
    case None => Missing
  }

  /** A row of an input file as the merged table has to show it: its own
      cells, with `run_T_K` and `src` set. */
  function TagRow(row: Row, path: string, src: string): Row
  {
    row["run_T_K" := TempCell(path)]["src" := Text(src)]
  }

  /** `big` holds every cell of `small`, and only empty cells besides. */
  predicate Extends(big: Row, small: Row)
  {
    && (forall c :: c in small ==> c in big && big[c] == small[c])
    && (forall c :: c in big && c !in small ==> big[c] == Missing)
  }

  /** Row by row, `big` extends `small`. */
  predicate ExtendsAll(big: seq<Row>, small: seq<Row>)
  {
    |big| == |small| && forall k :: 0 <= k < |big| ==> Extends(big[k], small[k])
  }

  lemma ExtendsAllTrans(a: seq<Row>, b: seq<Row>, c: seq<Row>)
    requires ExtendsAll(a, b) && ExtendsAll(b, c)
    ensures ExtendsAll(a, c)
  {
    forall k | 0 <= k < |a|
      ensures Extends(a[k], c[k])
    {
      assert Extends(a[k], b[k]) && Extends(b[k], c[k]);
    }
  }

  lemma ExtendsAllSame(a: seq<Row>, b: seq<Row>)
    requires |a| == |b| && forall k :: 0 <= k < |a| ==> a[k] == b[k]
    ensures ExtendsAll(a, b)
  {
  }

  lemma ExtendsAllAppend(a1: seq<Row>, b1: seq<Row>, a2: seq<Row>, b2: seq<Row>)
    requires ExtendsAll(a1, b1) && ExtendsAll(a2, b2)
    ensures ExtendsAll(a1 + a2, b1 + b2)
  {
    forall k | 0 <= k < |a1 + a2|
      ensures Extends((a1 + a2)[k], (b1 + b2)[k])
    {
      if k < |a1| {
        assert (a1 + a2)[k] == a1[k] && (b1 + b2)[k] == b1[k];
      } else {
        assert (a1 + a2)[k] == a2[k - |a1|] && (b1 + b2)[k] == b2[k - |a1|];
      }
    }
  }

  /** The rows of a valid table extend themselves padded with new empty
      columns: cells in the table's own columns are kept. */
  lemma ExtendsFromCells(f: Frame, r: Frame)
    requires f.Valid() && r.Valid() && |r.rows| == |f.rows|
    requires forall k, d :: 0 <= k < |r.rows| && d in f.rows[k] ==> d in r.rows[k] && r.rows[k][d] == f.rows[k][d]
    requires forall k, d :: 0 <= k < |r.rows| && d in r.rows[k] && d !in f.cols ==> r.rows[k][d] == Missing
    ensures ExtendsAll(r.rows, f.rows)
  {
  }

  /** `run_T_K` and `src`: the temperature tag of the file name (missing
      when there is none) and the path relative to the scan root. */
  function Tag(f: Frame, path: string, src: string): (r: Frame)
    requires f.Valid()
    ensures r.Valid() && |r.rows| == |f.rows|
    ensures "run_T_K" in r.cols && "src" in r.cols
    ensures forall c :: c in r.cols <==> c in f.cols || c == "run_T_K" || c == "src"
  {
    var g := SetColumn(f, "run_T_K", Fill(|f.rows|, TempCell(path)));
    SetColumn(g, "src", Fill(|f.rows|, Text(src)))
  }

  /** Row by row, tagging gives exactly the tagged input row. */
  lemma TagRows(f: Frame, path: string, src: string)
    requires f.Valid()
    ensures forall k :: 0 <= k < |f.rows| ==> Tag(f, path, src).rows[k] == TagRow(f.rows[k], path, src)
  {
    var g := SetColumn(f, "run_T_K", Fill(|f.rows|, TempCell(path)));
    var h := SetColumn(g, "src", Fill(|f.rows|, Text(src)));
    forall k | 0 <= k < |f.rows|
      ensures h.rows[k] == TagRow(f.rows[k], path, src)
    {
      assert g.rows[k] == f.rows[k]["run_T_K" := TempCell(path)];
      assert h.rows[k] == g.rows[k]["src" := Text(src)];
    }
  }

  /** The columns of `cols` that `f` lacks added, in order, empty in
      every row. */
  function Pad(f: Frame, cols: seq<string>): (r: Frame)
    requires f.Valid() && Distinct(cols)
    ensures r.Valid() && |r.rows| == |f.rows|
    ensures forall c :: c in r.cols <==> c in f.cols || c in cols
    ensures forall k, d :: 0 <= k < |r.rows| && d in f.rows[k] ==> r.rows[k][d] == f.rows[k][d]
    ensures forall k, d :: 0 <= k < |r.rows| && d in cols && d !in f.cols ==> r.rows[k][d] == Missing
  {
    var added := Keep(cols, f.cols, false);
    var all := f.cols + added;
    assert Distinct(all) by {
      forall i, j | 0 <= i < j < |all|
        ensures all[i] != all[j]
      {
        if i < |f.cols| && j >= |f.cols| {
          assert all[i] in f.cols;
          assert all[j] in added;
        }
      }
    }
    Frame(all, WidenAll(f.rows, all))
  }

  /** A table that can be stacked: valid, with every stress column. */
  ghost predicate Ready(t: Frame)
  {
    t.Valid() && forall c :: c in StressCols ==> c in t.cols
  }

  ghost predicate AllReady(tables: seq<Frame>)
  {
    forall i :: 0 <= i < |tables| ==> Ready(tables[i])
  }

  lemma AllReadySnoc(tables: seq<Frame>, t: Frame)
    requires AllReady(tables) && Ready(t)
    ensures AllReady(tables + [t])
  {
    var r := tables + [t];
    assert forall i :: 0 <= i < |tables| ==> r[i] == tables[i];
    assert r[|tables|] == t;
  }

  /** One input file after tagging and padding; `None` for an empty table,
      which is skipped. */
  function Prepare(f: Frame, path: string, src: string): (r: Option<Frame>)
    requires f.Valid()
    ensures r.None? <==> |f.rows| == 0
    ensures r.Some? ==> Ready(r.value) && |r.value.rows| == |f.rows|
  {
    if |f.rows| == 0 then None
    else
      StressColsDistinct();
      Some(Pad(Tag(f, path, src), StressCols))
  }

  /** The rows of one input file as the merged table has to show them. */
  function TaggedRows(f: Frame, path: string, src: string): (rows: seq<Row>)
    ensures |rows| == |f.rows|
    ensures forall k :: 0 <= k < |rows| ==> rows[k] == TagRow(f.rows[k], path, src)
  {
    seq(|f.rows|, k requires 0 <= k < |f.rows| => TagRow(f.rows[k], path, src))
  }

  /** Padding only adds empty cells. */
  lemma PadExtends(f: Frame, cols: seq<string>)
    requires f.Valid() && Distinct(cols)
    ensures ExtendsAll(Pad(f, cols).rows, f.rows)
  {
    ExtendsFromCells(f, Pad(f, cols));
  }

  /** A nonempty input file comes out with its tagged rows, padded with
      empty stress cells. */
  lemma PrepareRows(f: Frame, path: string, src: string)
    requires f.Valid() && |f.rows| > 0
    ensures ExtendsAll(Prepare(f, path, src).value.rows, TaggedRows(f, path, src))
  {
    var g := Tag(f, path, src);
    StressColsDistinct();
    TagRows(f, path, src);
    ExtendsAllSame(g.rows, TaggedRows(f, path, src));
    PadExtends(g, StressCols);
    ExtendsAllTrans(Pad(g, StressCols).rows, g.rows, TaggedRows(f, path, src));
  }

  // ---------------------------------------------------------------------
  // pd.concat

  /** The position of the first `c` in `s`. */
  function FirstIndex(s: seq<string>, c: string): (k: nat)
    requires c in s
    ensures k < |s| && s[k] == c && c !in s[..k]
    decreases |s|
  {
    if s[0] == c then 0
    else
      assert s == [s[0]] + s[1..];
      var k := 1 + FirstIndex(s[1..], c);
      assert s[..k] == [s[0]] + s[1..][..k - 1];
      k
  }

  /** An occurrence of `c` with none before it is the first one. */
  lemma FirstIndexUnique(s: seq<string>, c: string, k: nat)
    requires k < |s| && s[k] == c && c !in s[..k]
    ensures FirstIndex(s, c) == k
  {
  }

  /** In a list without repeats, the first position of `s[i]` is `i`. */
  lemma FirstIndexDistinct(s: seq<string>, i: nat)
    requires Distinct(s) && i < |s|
    ensures FirstIndex(s, s[i]) == i
  {
    assert s[i] !in s[..i] by {
      forall j | 0 <= j < i
        ensures s[..i][j] != s[i]
      {
        assert s[..i][j] == s[j];
      }
    }
    FirstIndexUnique(s, s[i], i);
  }

  /** Appending `t` moves no first position in `s`, and a name first met
      in `t` sits after all of `s`. */
  lemma FirstIndexAppend(s: seq<string>, t: seq<string>, c: string)
    requires c in s + t
    ensures c in s ==> FirstIndex(s + t, c) == FirstIndex(s, c)
    ensures c !in s ==> c in t && FirstIndex(s + t, c) == |s| + FirstIndex(t, c)
  {
    if c in s {
      var k := FirstIndex(s, c);
      assert (s + t)[..k] == s[..k];
      FirstIndexUnique(s + t, c, k);
    } else {
      var k := FirstIndex(t, c);
      assert (s + t)[..|s| + k] == s + t[..k];
      FirstIndexUnique(s + t, c, |s| + k);
    }
  }

  /** `r` lists names of `s` in the order they first appear in `s`. */
  predicate FirstAppearanceOrder(r: seq<string>, s: seq<string>)
  {
    && (forall c :: c in r ==> c in s)
    && forall i, j :: 0 <= i < j < |r| ==> FirstIndex(s, r[i]) < FirstIndex(s, r[j])
  }

  /** `cols` followed by the columns of `more` not yet present, in the order
      they first appear in `more`: the distinct names of `cols + more`
      in order of first appearance. */
  function Union(cols: seq<string>, more: seq<string>): (r: seq<string>)
    requires Distinct(cols)
    ensures Distinct(r) && |r| >= |cols| && r[..|cols|] == cols
    ensures forall c :: c in r <==> c in cols || c in more
    ensures FirstAppearanceOrder(r, cols + more)
    decreases |more|
  {
    if |more| == 0 then
      assert cols + more == cols;
      forall i, j | 0 <= i < j < |cols|
        ensures FirstIndex(cols, cols[i]) < FirstIndex(cols, cols[j])
      {
        FirstIndexDistinct(cols, i);
        FirstIndexDistinct(cols, j);
      }
      cols
    else
      var next := if more[0] in cols then cols else cols + [more[0]];
      var r := Union(next, more[1..]);
      assert forall c :: c in more <==> c == more[0] || c in more[1..] by {
        assert more == [more[0]] + more[1..];
      }
      assert r[..|cols|] == r[..|next|][..|cols|];
      UnionOrder(cols, more, next, r);
      r
  }

  /** One step of `Union`: ordering the rest of `more` after `next` orders
      all of `more` after `cols`. */
  lemma UnionOrder(cols: seq<string>, more: seq<string>, next: seq<string>, r: seq<string>)
    requires Distinct(cols) && |more| > 0
    requires next == if more[0] in cols then cols else cols + [more[0]]
    requires Distinct(r) && |r| >= |next| && r[..|next|] == next
    requires forall c :: c in r <==> c in next || c in more[1..]
    requires FirstAppearanceOrder(r, next + more[1..])
    ensures FirstAppearanceOrder(r, cols + more)
  {
    var s := cols + more;
    var s' := next + more[1..];
    if more[0] in cols {
      assert s == cols + ([more[0]] + more[1..]);
      // A name met first in `more` moves one place later; the others stay.
      forall i, j | 0 <= i < j < |r|
        ensures FirstIndex(s, r[i]) < FirstIndex(s, r[j])
      {
        FirstIndexShift(cols, more, r[i]);
        FirstIndexShift(cols, more, r[j]);
      }
    } else {
      assert s == s';
    }
  }

  /** Appending the columns of a further table keeps the first-appearance
      order over the longer list of names. */
  lemma UnionAfter(cols: seq<string>, more: seq<string>, seen: seq<string>)
    requires Distinct(cols) && FirstAppearanceOrder(cols, seen)
    requires forall c :: c in seen ==> c in cols
    ensures FirstAppearanceOrder(Union(cols, more), seen + more)
  {
    var r := Union(cols, more);
    var s := seen + more;
    forall c | c in r
      ensures c in s
    {
    }
    forall i, j | 0 <= i < j < |r|
      ensures FirstIndex(s, r[i]) < FirstIndex(s, r[j])
    {
      FirstIndexAppend(seen, more, r[i]);
      FirstIndexAppend(seen, more, r[j]);
      FirstIndexAppend(cols, more, r[i]);
      FirstIndexAppend(cols, more, r[j]);
      if j < |cols| {
        assert r[i] == cols[i] && r[j] == cols[j];
      } else if i < |cols| {
        assert r[i] == cols[i];
      }
      assert FirstIndex(cols + more, r[i]) < FirstIndex(cols + more, r[j]);
    }
  }

  /** Dropping a name of `cols` from the head of `more` moves the later
      first positions by one place only. */
  lemma FirstIndexShift(cols: seq<string>, more: seq<string>, c: string)
    requires |more| > 0 && more[0] in cols && c in cols + more[1..]
    ensures c in cols + more
    ensures c in cols ==> FirstIndex(cols + more, c) == FirstIndex(cols + more[1..], c)
    ensures c !in cols ==> FirstIndex(cols + more, c) == FirstIndex(cols + more[1..], c) + 1
  {
    assert more == [more[0]] + more[1..];
    FirstIndexAppend(cols, more, c);
    FirstIndexAppend(cols, more[1..], c);
    if c !in cols {
      FirstIndexAppend([more[0]], more[1..], c);
    }
  }

  /** A row on the columns `cols`, the missing ones empty. */
  function Widen(row: Row, cols: seq<string>): (r: Row)
    ensures forall c :: c in r <==> c in cols
    ensures forall c :: c in cols && c in row ==> r[c] == row[c]
    ensures forall c :: c in cols && c !in row ==> r[c] == Missing
  {
    map c | c in cols :: if c in row then row[c] else Missing
  }

  /** Some table has column `c`. */
  predicate HasCol(tables: seq<Frame>, c: string)
  {
    exists i :: 0 <= i < |tables| && c in tables[i].cols
  }

  lemma HasColSnoc(tables: seq<Frame>, c: string)
    requires |tables| > 0
    ensures HasCol(tables, c) <==> HasCol(tables[..|tables| - 1], c) || c in tables[|tables| - 1].cols
  {
    var n := |tables| - 1;
    if HasCol(tables[..n], c) {
      var i :| 0 <= i < n && c in tables[..n][i].cols;
      assert tables[i] == tables[..n][i];
    }
    if HasCol(tables, c) {
      var i :| 0 <= i < |tables| && c in tables[i].cols;
      if i < n {
        assert tables[..n][i] == tables[i];
      }
    }
  }

  /** Every row widened to `cols`. */
  function WidenAll(rows: seq<Row>, cols: seq<string>): (r: seq<Row>)
    ensures |r| == |rows|
    ensures forall k :: 0 <= k < |r| ==> r[k] == Widen(rows[k], cols)
  {
    seq(|rows|, k requires 0 <= k < |rows| => Widen(rows[k], cols))
  }

  /** The column lists of every table, one after the other. */
  function AllCols(tables: seq<Frame>): seq<string>
  {
    if |tables| == 0 then [] else AllCols(tables[..|tables| - 1]) + tables[|tables| - 1].cols
  }

  /** `pd.concat(rows, ignore_index=True)`: the rows of every table in
      turn, on the union of the columns in order of first appearance. */
  function Concat(tables: seq<Frame>): (r: Frame)
    requires forall i :: 0 <= i < |tables| ==> tables[i].Valid()
    ensures r.Valid()
    ensures forall c :: c in r.cols <==> HasCol(tables, c)
    ensures forall c :: c in r.cols <==> c in AllCols(tables)
    ensures FirstAppearanceOrder(r.cols, AllCols(tables))
    ensures |r.rows| == RowCount(tables)
  {
    if |tables| == 0 then Frame([], [])
    else
      var n := |tables| - 1;
      var front := Concat(tables[..n]);
      var cols := Union(front.cols, tables[n].cols);
      forall c
        ensures HasCol(tables, c) <==> HasCol(tables[..n], c) || c in tables[n].cols
      {
        HasColSnoc(tables, c);
      }
      assert AllCols(tables) == AllCols(tables[..n]) + tables[n].cols;
      UnionAfter(front.cols, tables[n].cols, AllCols(tables[..n]));
      var rows := WidenAll(front.rows, cols) + WidenAll(tables[n].rows, cols);
      Frame(cols, rows)
  }

  function RowCount(tables: seq<Frame>): nat
  {
    if |tables| == 0 then 0 else RowCount(tables[..|tables| - 1]) + |tables[|tables| - 1].rows|
  }

  /** The rows of every table in turn. */
  function AllRows(tables: seq<Frame>): seq<Row>
  {
    if |tables| == 0 then [] else AllRows(tables[..|tables| - 1]) + tables[|tables| - 1].rows
  }

  /** Widening a row whose columns are among `cols` only adds empty cells. */
  lemma WidenAllExtends(rows: seq<Row>, cols: seq<string>)
    requires forall k, c :: 0 <= k < |rows| && c in rows[k] ==> c in cols
    ensures ExtendsAll(WidenAll(rows, cols), rows)
  {
  }

  /** The stacked table holds the rows of every table in turn, each with
      its own cells and empty cells in the columns its table lacked. */
  lemma {:induction false} ConcatRows(tables: seq<Frame>)
    requires forall i :: 0 <= i < |tables| ==> tables[i].Valid()
    ensures ExtendsAll(Concat(tables).rows, AllRows(tables))
  {
    if |tables| > 0 {
      var n := |tables| - 1;
      var front := Concat(tables[..n]);
      assert forall i :: 0 <= i < n ==> tables[..n][i] == tables[i];
      ConcatRows(tables[..n]);
      var cols := Union(front.cols, tables[n].cols);
      assert Concat(tables).rows == WidenAll(front.rows, cols) + WidenAll(tables[n].rows, cols);
      WidenAllExtends(front.rows, cols);
      ExtendsAllTrans(WidenAll(front.rows, cols), front.rows, AllRows(tables[..n]));
      WidenAllExtends(tables[n].rows, cols);
      ExtendsAllAppend(WidenAll(front.rows, cols), AllRows(tables[..n]), WidenAll(tables[n].rows, cols), tables[n].rows);
    }
  }

  // ---------------------------------------------------------------------
  // Column order

  /** The names of `s` that are (or are not) in `names`, in order. */
  function Keep(s: seq<string>, names: seq<string>, inside: bool): (r: seq<string>)
    ensures forall c :: c in r <==> c in s && (c in names <==> inside)
    ensures Distinct(s) ==> Distinct(r)
  {
    if |s| == 0 then []
    else
      var n := |s| - 1;
      var front := Keep(s[..n], names, inside);
      assert forall c :: c in s <==> c in s[..n] || c == s[n] by {
        assert s == s[..n] + [s[n]];
      }
      if (s[n] in names) == inside then front + [s[n]] else front
  }

  /** `front_cols + [others]`: the key columns present, in their listed
      order, then every other column in its own order. */
  function Reorder(f: Frame): (r: Frame)
    requires f.Valid()
    ensures r.rows == f.rows
    ensures Distinct(r.cols)
    ensures forall c :: c in r.cols <==> c in f.cols
    ensures r.cols == Keep(FrontCols, f.cols, true) + Keep(f.cols, FrontCols, false)
  {
    var front := Keep(FrontCols, f.cols, true);
    var rest := Keep(f.cols, FrontCols, false);
    assert Distinct(front + rest) by {
      forall i, j | 0 <= i < j < |front + rest|
        ensures (front + rest)[i] != (front + rest)[j]
      {
        if i < |front| && j >= |front| {
          assert (front + rest)[i] in front;
          assert (front + rest)[j] in rest;
        }
      }
    }
    Frame(front + rest, f.rows)
  }

  /** The merged table, or nothing when no input file has a row. */
  function CollectAll(inputs: seq<(Frame, string, string)>): (r: Option<Frame>)
    requires forall i :: 0 <= i < |inputs| ==> inputs[i].0.Valid()
    ensures r.None? <==> forall i :: 0 <= i < |inputs| ==> |inputs[i].0.rows| == 0
    ensures r.Some? ==> r.value.Valid()
    ensures r.Some? ==> forall c :: c in StressCols ==> c in r.value.cols
    ensures r.Some? ==> Distinct(r.value.cols)
    ensures r.Some? ==> var all := Concat(Prepared(inputs)).cols;
              r.value.cols == Keep(FrontCols, all, true) + Keep(all, FrontCols, false)
  {
    Merge(Prepared(inputs))
  }

  /** `pd.concat` of the prepared tables with the key columns moved to the
      front; nothing for no tables. */
  function Merge(tables: seq<Frame>): (r: Option<Frame>)
    requires AllReady(tables)
    ensures r.None? <==> |tables| == 0
    ensures r.Some? ==> r.value.Valid() && r.value.rows == Concat(tables).rows
    ensures r.Some? ==> forall c :: c in StressCols ==> c in r.value.cols
    ensures r.Some? ==> Distinct(r.value.cols)
    ensures r.Some? ==> r.value.cols == Keep(FrontCols, Concat(tables).cols, true) + Keep(Concat(tables).cols, FrontCols, false)
  {
    if |tables| == 0 then None
    else
      var master := Concat(tables);
      assert Ready(tables[0]);
      Some(Reorder(master))
  }

  /** Every row of every input file, tagged, in order. */
  function Expected(inputs: seq<(Frame, string, string)>): (rows: seq<Row>)
    ensures |rows| == TotalRows(inputs)
  {
    if |inputs| == 0 then []
    else
      var n := |inputs| - 1;
      Expected(inputs[..n]) + TaggedRows(inputs[n].0, inputs[n].1, inputs[n].2)
  }

  /** The number of rows of all input files together. */
  function TotalRows(inputs: seq<(Frame, string, string)>): nat
  {
    if |inputs| == 0 then 0 else TotalRows(inputs[..|inputs| - 1]) + |inputs[|inputs| - 1].0.rows|
  }

  /** The merged table has one row per input row, in input order; each
      carries that row's cells with `run_T_K` and `src` set, and is empty
      in every other column. */
  lemma CollectAllRows(inputs: seq<(Frame, string, string)>)
    requires forall i :: 0 <= i < |inputs| ==> inputs[i].0.Valid()
    requires CollectAll(inputs).Some?
    ensures |CollectAll(inputs).value.rows| == TotalRows(inputs)
    ensures ExtendsAll(CollectAll(inputs).value.rows, Expected(inputs))
  {
    var tables := Prepared(inputs);
    ConcatRows(tables);
    PreparedRows(inputs);
    ExtendsAllTrans(Concat(tables).rows, AllRows(tables), Expected(inputs));
  }

  /** The nonempty inputs, tagged and padded, in order. */
  function Prepared(inputs: seq<(Frame, string, string)>): (tables: seq<Frame>)
    requires forall i :: 0 <= i < |inputs| ==> inputs[i].0.Valid()
    ensures |tables| == 0 <==> forall i :: 0 <= i < |inputs| ==> |inputs[i].0.rows| == 0
    ensures AllReady(tables)
  {
    if |inputs| == 0 then []
    else
      var n := |inputs| - 1;
      var front := Prepared(inputs[..n]);
      assert forall i :: 0 <= i < n ==> inputs[..n][i] == inputs[i];
      match Prepare(inputs[n].0, inputs[n].1, inputs[n].2)
      case None => front
      case Some(t) => AllReadySnoc(front, t); front + [t]
  }

  /** Stacked, the prepared tables extend the tagged input rows. */
  lemma {:induction false} PreparedRows(inputs: seq<(Frame, string, string)>)
    requires forall i :: 0 <= i < |inputs| ==> inputs[i].0.Valid()
    ensures ExtendsAll(AllRows(Prepared(inputs)), Expected(inputs))
  {
    if |inputs| > 0 {
      var n := |inputs| - 1;
      var front := Prepared(inputs[..n]);
      assert forall i :: 0 <= i < n ==> inputs[..n][i] == inputs[i];
      PreparedRows(inputs[..n]);
      var (f, path, src) := inputs[n];
      if |f.rows| == 0 {
        assert Prepared(inputs) == front;
        assert Expected(inputs) == Expected(inputs[..n]) + [];
      } else {
        var t := Prepare(f, path, src).value;
        assert Prepared(inputs) == front + [t];
        assert (front + [t])[..|front|] == front;
        PrepareRows(f, path, src);
        ExtendsAllAppend(AllRows(front), Expected(inputs[..n]), t.rows, TaggedRows(f, path, src));
      }
    }
  }
}

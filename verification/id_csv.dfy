/** The id lists read back from a CSV file by `load_ids_from_csv` in
    trace_out_c.py and by the `--ids-csv` loader of ovito_filter_dump.py:
    the first field of every row that parses as an integer, as a sorted
    list without duplicates. Comment rows (`#`), empty rows and the `id`
    header are skipped, and so is any other first field `int()` rejects. */
module IdCsv {
  import opened Wrappers
  import opened Text
  import opened Numbers
  import opened Sorting

  /** `csv.reader` on a line without quoting: an empty line is an empty
      row, any other line its comma-separated fields. */
  function CsvRow(line: string): (row: seq<string>)
    ensures line == "" <==> |row| == 0
    ensures ',' !in line ==> line != "" ==> row == [line]
  {
    if line == "" then [] else SplitOn(line, ',')
  }

  function CsvRows(lines: seq<string>): (rows: seq<seq<string>>)
    ensures |rows| == |lines| && forall k :: 0 <= k < |lines| ==> rows[k] == CsvRow(lines[k])
  {
    seq(|lines|, k requires 0 <= k < |lines| => CsvRow(lines[k]))
  }

  /** `not row or row[0].startswith("#")`. */
  predicate Comment(row: seq<string>)
  {
    |row| == 0 || StartsWith(row[0], "#")
  }

  /** The id a row contributes in trace_out_c.py: comment rows none; a
      first field that `int()` rejects (the `id` header among them) none. */
  function TraceId(row: seq<string>): (r: Option<int>)
    ensures r.Some? <==> !Comment(row) && ParseInt(row[0]).Some?
    ensures r.Some? ==> r == ParseInt(row[0])
  {
    if Comment(row) then None else ParseInt(row[0])
  }

  /** The id a row contributes in ovito_filter_dump.py, which tests for the
      `id` header (in any case) before trying `int()`. */
  function FilterId(row: seq<string>): Option<int>
  {
    if Comment(row) then None
    else if Lower(row[0]) == "id" then None
    else ParseInt(row[0])
  }

  /** A line that starts with `#` is a comment row. */
  lemma CommentLine(line: string)
    requires |line| > 0 && line[0] == '#'
    ensures Comment(CsvRow(line))
  {
    if ',' in line {
      var i := IndexOf(line, ',');
      assert CsvRow(line)[0] == line[..i];
    }
  }

  /** `int()` never accepts the header, so the two loaders read the same
      ids. */
  lemma HeaderIsNoInt(row: seq<string>)
    ensures FilterId(row) == TraceId(row)
  {
    if !Comment(row) && Lower(row[0]) == "id" {
      HeaderLetters(row[0]);
      StripOfSpaceFree(row[0]);
    }
  }

  lemma HeaderLetters(s: string)
    requires Lower(s) == "id"
    ensures |s| == 2 && (s[0] == 'i' || s[0] == 'I') && (s[1] == 'd' || s[1] == 'D')
  {
    assert LowerChar(s[0]) == 'i' && LowerChar(s[1]) == 'd';
  }

  /** The id each row contributes, row by row. */
  function RowIds(rows: seq<seq<string>>): (r: seq<Option<int>>)
    ensures |r| == |rows| && forall k :: 0 <= k < |rows| ==> r[k] == TraceId(rows[k])
  {
    seq(|rows|, k requires 0 <= k < |rows| => TraceId(rows[k]))
  }

  lemma RowIdsPrefix(rows: seq<seq<string>>)
    requires |rows| > 0
    ensures RowIds(rows)[..|rows| - 1] == RowIds(rows[..|rows| - 1])
  {
  }

  /** Some row of the file contributes `a`. */
  predicate Holds(rows: seq<seq<string>>, a: int)
  {
    Some(a) in RowIds(rows)
  }

  /** The integers of the rows, in file order. */
  function Parsed(rows: seq<seq<string>>): (ids: seq<int>)
    ensures forall a :: a in ids <==> Holds(rows, a)
  {
    Somes(RowIds(rows))
  }

  /** `np.array(sorted(set(ids)))`: strictly increasing, and an integer is
      listed iff some row holds it. */
  function LoadIds(rows: seq<seq<string>>): (ids: seq<int>)
    ensures forall i, j :: 0 <= i < j < |ids| ==> ids[i] < ids[j]
    ensures forall a :: a in ids <==> Holds(rows, a)
  {
    SortedIds(Parsed(rows))
  }

  predicate IdsAscending(s: seq<int>)
  {
    forall i, j :: 0 <= i < j < |s| ==> s[i] < s[j]
  }

  /** The last of a strictly increasing list is its largest member, and
      without it the list keeps its other members and its order. */
  lemma DropLargest(s: seq<int>)
    requires IdsAscending(s) && |s| > 0
    ensures forall z :: z in s ==> z <= s[|s| - 1]
    ensures IdsAscending(s[..|s| - 1])
    ensures forall z :: z in s[..|s| - 1] <==> z in s && z != s[|s| - 1]
  {
    var n := |s| - 1;
    assert s == s[..n] + [s[n]];
    forall z | z in s ensures z <= s[n] {
      var i :| 0 <= i < |s| && s[i] == z;
    }
    forall z | z in s[..n] ensures z != s[n] {
      var i :| 0 <= i < n && s[..n][i] == z;
      assert s[i] == z;
    }
  }

  /** Two strictly increasing lists with the same members are equal. */
  lemma {:induction false} AscendingUnique(a: seq<int>, b: seq<int>)
    requires IdsAscending(a) && IdsAscending(b)
    requires forall x :: x in a <==> x in b
    ensures a == b
    decreases |a|
  {
    if |a| > 0 && |b| > 0 {
      DropLargest(a);
      DropLargest(b);
      var x := a[|a| - 1];
      var y := b[|b| - 1];
      assert x in a && y in b;
      assert x == y;
      var a' := a[..|a| - 1];
      var b' := b[..|b| - 1];
      forall z ensures z in a' <==> z in b' {
        assert z in a <==> z in b;
      }
      AscendingUnique(a', b');
      assert a == a' + [x] && b == b' + [y];
    } else {
      EmptyTogether(a, b);
    }
  }

  /** Lists with the same members are empty together. */
  lemma EmptyTogether(a: seq<int>, b: seq<int>)
    requires forall x :: x in a <==> x in b
    ensures |a| == 0 <==> |b| == 0
  {
    if |a| > 0 {
      var x := a[0];
      assert x in a;
      assert x in b;
    }
    if |b| > 0 {
      var x := b[0];
      assert x in b;
      assert x in a;
    }
  }
}

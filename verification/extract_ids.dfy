/** The escaped-carbon id list of 01_extract_ids_ovito.py: the ids of the
    atoms of one frame whose type is `C` and whose height is strictly above
    `Z_THRESH_A`, in frame order, written one per line below three comment
    lines. */
module ExtractIds {
  import opened Wrappers
  import opened Text
  import opened Numbers
  import opened Sorting
  import opened IdCsv

  const FrameIdx: nat := 0
  const CarbonTag: string := "C"
  const ZThresh: real := 27.0

  /** The arrays of the frame: ids, heights, the named per-atom string
      columns and the chemical symbols. */
  datatype Atoms = Atoms(ids: seq<int>, z: seq<real>, arrays: map<string, seq<string>>,
                         symbols: seq<string>)

  predicate WellFormed(at: Atoms)
  {
    |at.z| == |at.ids| && |at.symbols| == |at.ids|
    && forall n :: n in at.arrays ==> |at.arrays[n]| == |at.ids|
  }

  /** `get_type_array`: `type` if present, else `species`, else the
      chemical symbols. */
  function TypeArray(at: Atoms): (types: seq<string>)
    requires WellFormed(at)
    ensures |types| == |at.ids|
    ensures "type" in at.arrays ==> types == at.arrays["type"]
    ensures "type" !in at.arrays && "species" in at.arrays ==> types == at.arrays["species"]
    ensures "type" !in at.arrays && "species" !in at.arrays ==> types == at.symbols
  {
    if "type" in at.arrays then at.arrays["type"]
    else if "species" in at.arrays then at.arrays["species"]
    else at.symbols
  }

  /** `mask_escape[i]`: carbon and strictly above the threshold. */
  predicate Escaped(types: seq<string>, z: seq<real>, i: nat)
    requires i < |types| && i < |z|
  {
    types[i] == CarbonTag && z[i] > ZThresh
  }

  /** The indices where the mask holds, in increasing order. */
  function MaskIndices(types: seq<string>, z: seq<real>, n: nat): (idx: seq<nat>)
    requires n <= |types| && n <= |z|
    ensures forall k :: 0 <= k < |idx| ==> idx[k] < n && Escaped(types, z, idx[k])
    ensures forall i :: 0 <= i < n && Escaped(types, z, i) ==> i in idx
    ensures forall k, m :: 0 <= k < m < |idx| ==> idx[k] < idx[m]
  {
    if n == 0 then []
    else
      var front := MaskIndices(types, z, n - 1);
      if Escaped(types, z, n - 1) then front + [n - 1] else front
  }

  /** `ids[mask_escape]`: the ids of the escaped atoms, in frame order. */
  function EscapedIds(at: Atoms): (r: seq<int>)
    requires WellFormed(at)
    ensures forall a :: a in r <==>
              exists i :: 0 <= i < |at.ids| && Escaped(TypeArray(at), at.z, i) && at.ids[i] == a
    ensures |r| == |MaskIndices(TypeArray(at), at.z, |at.ids|)|
    ensures forall k :: 0 <= k < |r| ==> r[k] == at.ids[MaskIndices(TypeArray(at), at.z, |at.ids|)[k]]
  {
    var idx := MaskIndices(TypeArray(at), at.z, |at.ids|);
    var r := seq(|idx|, k requires 0 <= k < |idx| => at.ids[idx[k]]);
    forall a ensures a in r <==> exists i :: 0 <= i < |at.ids| && Escaped(TypeArray(at), at.z, i) && at.ids[i] == a {
      PickedMember(at, r, a);
    }
    r
  }

  /** An id is picked exactly when some escaped atom carries it. */
  lemma PickedMember(at: Atoms, r: seq<int>, a: int)
    requires WellFormed(at)
    requires |r| == |MaskIndices(TypeArray(at), at.z, |at.ids|)|
    requires forall k :: 0 <= k < |r| ==> r[k] == at.ids[MaskIndices(TypeArray(at), at.z, |at.ids|)[k]]
    ensures a in r <==> exists i :: 0 <= i < |at.ids| && Escaped(TypeArray(at), at.z, i) && at.ids[i] == a
  {
    var types := TypeArray(at);
    var idx := MaskIndices(types, at.z, |at.ids|);
    if a in r {
      var k :| 0 <= k < |r| && r[k] == a;
      assert Escaped(types, at.z, idx[k]);
    }
    if exists i :: 0 <= i < |at.ids| && Escaped(types, at.z, i) && at.ids[i] == a {
      var i :| 0 <= i < |at.ids| && Escaped(types, at.z, i) && at.ids[i] == a;
      var k :| 0 <= k < |idx| && idx[k] == i;
      assert r[k] == a;
    }
  }

  /** The three comment lines of the output file. */
  const Header: seq<string> := ["# frame_idx,0", "# z_threshold,27.0", "# id"]

  /** The lines of `escaped_ids.csv`. */
  function Output(ids: seq<int>): (lines: seq<string>)
    ensures |lines| == |Header| + |ids|
    ensures forall k :: 0 <= k < |Header| ==> lines[k] == Header[k]
    ensures forall k :: 0 <= k < |ids| ==> lines[|Header| + k] == IntToString(ids[k])
  {
    Header + seq(|ids|, k requires 0 <= k < |ids| => IntToString(ids[k]))
  }

  /** One more id is one more line at the end. */
  lemma OutputSnoc(ids: seq<int>)
    requires |ids| > 0
    ensures Output(ids) == Output(ids[..|ids| - 1]) + [IntToString(ids[|ids| - 1])]
  {
    var n := |ids| - 1;
    var a := Output(ids);
    var b := Output(ids[..n]) + [IntToString(ids[n])];
    forall k | 0 <= k < |a|
      ensures a[k] == b[k]
    {
      if k >= |Header| {
        var m := k - |Header|;
        assert a[|Header| + m] == IntToString(ids[m]);
        if m < n {
          assert ids[..n][m] == ids[m];
          assert b[|Header| + m] == Output(ids[..n])[|Header| + m];
        }
      }
    }
  }

  /** A printed integer holds no comma and does not start with `#`. */
  lemma PrintedIdIsOneField(i: int)
    ensures IntToString(i) != "" && ',' !in IntToString(i)
    ensures CsvRow(IntToString(i)) == [IntToString(i)]
    ensures !Comment(CsvRow(IntToString(i)))
  {
    var digits := NatToString(if i < 0 then -i else i);
    assert forall k :: 0 <= k < |digits| ==> IsDigit(digits[k]);
    var s := IntToString(i);
    assert s[0] == '-' || s[0] == digits[0];
    assert ',' !in s by {
      if i < 0 {
        assert s == "-" + digits;
      }
    }
  }

  /** The three header lines are skipped as comments. */
  lemma HeaderIsComment(lines: seq<string>)
    requires |lines| >= |Header| && forall k :: 0 <= k < |Header| ==> lines[k] == Header[k]
    ensures forall k :: 0 <= k < |Header| ==> TraceId(CsvRow(lines[k])).None?
  {
    forall k | 0 <= k < |Header|
      ensures TraceId(CsvRow(lines[k])).None?
    {
      assert Header[k][0] == '#';
      CommentLine(lines[k]);
    }
  }

  /** Reading the output back with the id loader of trace_out_c.py gives
      the escaped ids, sorted and without repeats. */
  lemma OutputReadsBack(ids: seq<int>)
    ensures LoadIds(CsvRows(Output(ids))) == SortedIds(ids)
  {
    var rows := CsvRows(Output(ids));
    OutputRowIds(ids);
    forall a
      ensures a in LoadIds(rows) <==> a in SortedIds(ids)
    {
      SomeIdsHold(ids, a);
    }
    AscendingUnique(LoadIds(rows), SortedIds(ids));
  }

  /** `Some` of every id, in order. */
  function SomeIds(ids: seq<int>): (r: seq<Option<int>>)
    ensures |r| == |ids| && forall j :: 0 <= j < |ids| ==> r[j] == Some(ids[j])
  {
    seq(|ids|, j requires 0 <= j < |ids| => Some(ids[j]))
  }

  /** The header rows contribute nothing; the others are the ids. */
  lemma SomeIdsHold(ids: seq<int>, a: int)
    ensures Some(a) in [None, None, None] + SomeIds(ids) <==> a in ids
  {
    var r := [None, None, None] + SomeIds(ids);
    if Some(a) in r {
      var j :| 0 <= j < |r| && r[j] == Some(a);
      assert SomeIds(ids)[j - 3] == Some(a);
    }
    if a in ids {
      var j :| 0 <= j < |ids| && ids[j] == a;
      assert r[3 + j] == Some(a);
    }
  }

  /** Row by row, what the id loader makes of the output: nothing for the
      three header lines, then each id in printed order. */
  lemma {:induction false} OutputRowIds(ids: seq<int>)
    ensures RowIds(CsvRows(Output(ids))) == [None, None, None] + SomeIds(ids)
  {
    if |ids| == 0 {
      HeaderRowIds(ids);
    } else {
      var n := |ids| - 1;
      OutputRowIds(ids[..n]);
      OutputSnoc(ids);
      RowIdsSnoc(Output(ids[..n]), IntToString(ids[n]));
      PrintedRow(ids[n]);
      SomeIdsSnoc(ids);
      AppendAssoc([None, None, None], SomeIds(ids[..n]), [Some(ids[n])]);
    }
  }

  lemma SomeIdsSnoc(ids: seq<int>)
    requires |ids| > 0
    ensures SomeIds(ids) == SomeIds(ids[..|ids| - 1]) + [Some(ids[|ids| - 1])]
  {
    var n := |ids| - 1;
    assert forall k :: 0 <= k < n ==> ids[..n][k] == ids[k];
  }

  lemma AppendAssoc<T>(a: seq<T>, b: seq<T>, c: seq<T>)
    ensures (a + b) + c == a + (b + c)
  {
  }

  lemma HeaderRowIds(ids: seq<int>)
    requires ids == []
    ensures RowIds(CsvRows(Output(ids))) == [None, None, None]
  {
    HeaderIsComment(Output(ids));
  }

  /** One more line is one more row id at the end. */
  lemma RowIdsSnoc(lines: seq<string>, line: string)
    ensures RowIds(CsvRows(lines + [line])) == RowIds(CsvRows(lines)) + [TraceId(CsvRow(line))]
  {
    var a := RowIds(CsvRows(lines + [line]));
    var b := RowIds(CsvRows(lines)) + [TraceId(CsvRow(line))];
    forall k | 0 <= k < |a|
      ensures a[k] == b[k]
    {
      assert (lines + [line])[k] == if k < |lines| then lines[k] else line;
    }
  }

  /** The row of a printed integer gives that integer back. */
  lemma PrintedRow(i: int)
    ensures TraceId(CsvRow(IntToString(i))) == Some(i)
  {
    PrintedIdIsOneField(i);
    IntRoundTrip(i);
  }
}

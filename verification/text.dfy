/** The Python string operations the parsers rely on: `strip`, `split`
    (on whitespace and on a separator), `startswith`, `in`, `lower`,
    `replace` and `os.path.basename`. */
module Text {

  /** Python's `str.isspace` for one character. */
  predicate IsSpace(c: char)
  {
    c == ' ' || ('\t' <= c <= '\r') || ('\U{1c}' <= c <= '\U{1f}')
    || c == '\U{85}' || c == '\U{a0}' || c == '\U{1680}'
    || ('\U{2000}' <= c <= '\U{200a}') || c == '\U{2028}' || c == '\U{2029}'
    || c == '\U{202f}' || c == '\U{205f}' || c == '\U{3000}'
  }

  predicate NoSpace(s: string)
  {
    forall i :: 0 <= i < |s| ==> !IsSpace(s[i])
  }

  function TrimLeft(s: string): (r: string)
    ensures |r| <= |s| && r == s[|s| - |r|..]
    ensures |r| > 0 ==> !IsSpace(r[0])
    ensures forall i :: 0 <= i < |s| - |r| ==> IsSpace(s[i])
  {
    if |s| > 0 && IsSpace(s[0]) then TrimLeft(s[1..]) else s
  }

  function TrimRight(s: string): (r: string)
    ensures |r| <= |s| && r == s[..|r|]
    ensures |r| > 0 ==> !IsSpace(r[|r| - 1])
    ensures forall i :: |r| <= i < |s| ==> IsSpace(s[i])
  {
    if |s| > 0 && IsSpace(s[|s| - 1]) then TrimRight(s[..|s| - 1]) else s
  }

  /** `str.strip()`: the longest slice of `s` that neither starts nor ends
      with whitespace, everything cut away being whitespace. */
  function Strip(s: string): (r: string)
    ensures |r| > 0 ==> !IsSpace(r[0]) && !IsSpace(r[|r| - 1])
    ensures exists i :: StrippedAt(s, r, i)
  {
    var l := TrimLeft(s);
    var r := TrimRight(l);
    var i := |s| - |l|;
    assert StrippedAt(s, r, i);
    r
  }

  /** `r` is the slice of `s` starting at `i`, and only whitespace lies
      around it. */
  predicate StrippedAt(s: string, r: string, i: int)
  {
    && 0 <= i <= |s| - |r| && r == s[i..i + |r|]
    && (forall k :: 0 <= k < i ==> IsSpace(s[k]))
    && (forall k :: i + |r| <= k < |s| ==> IsSpace(s[k]))
  }

  lemma StripOfSpaceFree(s: string)
    requires |s| > 0 ==> !IsSpace(s[0]) && !IsSpace(s[|s| - 1])
    ensures Strip(s) == s
  {
  }

  /** Length of the leading run of non-whitespace characters. */
  function WordLength(s: string): (n: nat)
    ensures n <= |s|
    ensures NoSpace(s[..n])
    ensures n < |s| ==> IsSpace(s[n])
  {
    if |s| == 0 || IsSpace(s[0]) then 0
    else
      var n := 1 + WordLength(s[1..]);
      assert s[..n] == [s[0]] + s[1..][..n - 1];
      n
  }

  /** `str.split()` with no separator: the maximal runs of non-whitespace. */
  function Split(s: string): (r: seq<string>)
    ensures forall k :: 0 <= k < |r| ==> |r[k]| > 0 && NoSpace(r[k])
    decreases |s|
  {
    var t := TrimLeft(s);
    if |t| == 0 then []
    else
      var n := WordLength(t);
      assert n > 0 by {
        assert !IsSpace(t[0]);
      }
      var rest := Split(t[n..]);
      ConsWords(t[..n], rest);
      [t[..n]] + rest
  }

  lemma ConsWords(w: string, rest: seq<string>)
    requires |w| > 0 && NoSpace(w)
    requires forall k :: 0 <= k < |rest| ==> |rest[k]| > 0 && NoSpace(rest[k])
    ensures forall k :: 0 <= k < |[w] + rest| ==> |([w] + rest)[k]| > 0 && NoSpace(([w] + rest)[k])
  {
  }

  /** Joining nonempty whitespace-free words with single spaces and
      splitting the line again gives the words back. */
  lemma {:induction false} SplitJoin(words: seq<string>)
    requires forall k :: 0 <= k < |words| ==> |words[k]| > 0 && NoSpace(words[k])
    ensures Split(JoinSpaces(words)) == words
  {
    if |words| == 1 {
      SplitWordThen(words[0], "");
      assert words[0] + "" == words[0];
    } else if |words| > 1 {
      SplitJoin(words[1..]);
      SplitJoinStep(words);
    }
  }

  lemma SplitJoinStep(words: seq<string>)
    requires |words| > 1
    requires |words[0]| > 0 && NoSpace(words[0])
    requires Split(JoinSpaces(words[1..])) == words[1..]
    ensures Split(JoinSpaces(words)) == words
  {
    JoinSpacesCons(words);
    SplitWordSpace(words[0], JoinSpaces(words[1..]));
    assert words == [words[0]] + words[1..];
  }

  /** A word, a space and more text: the word, then the split of the text. */
  lemma SplitWordSpace(w: string, tail: string)
    requires |w| > 0 && NoSpace(w)
    ensures Split(w + (" " + tail)) == [w] + Split(tail)
  {
    var rest := " " + tail;
    assert rest[0] == ' ';
    SplitWordThen(w, rest);
    SplitLeadingSpace(tail);
  }

  lemma JoinSpacesCons(words: seq<string>)
    requires |words| > 1
    ensures JoinSpaces(words) == words[0] + (" " + JoinSpaces(words[1..]))
  {
  }

  /** A word followed by nothing or by whitespace is split off whole. */
  lemma SplitWordThen(w: string, rest: string)
    requires |w| > 0 && NoSpace(w)
    requires |rest| == 0 || IsSpace(rest[0])
    ensures Split(w + rest) == [w] + Split(rest)
  {
    var line := w + rest;
    assert TrimLeft(line) == line;
    WordLengthOfWord(w, rest);
    assert line[..|w|] == w;
    assert line[|w|..] == rest;
  }

  lemma SplitLeadingSpace(x: string)
    ensures Split(" " + x) == Split(x)
  {
    assert (" " + x)[1..] == x;
    assert TrimLeft(" " + x) == TrimLeft(x);
  }

  lemma WordLengthOfWord(w: string, rest: string)
    requires NoSpace(w)
    requires |rest| == 0 || IsSpace(rest[0])
    ensures WordLength(w + rest) == |w|
    decreases |w|
  {
    if |w| > 0 {
      NoSpaceTail(w);
      WordLengthOfWord(w[1..], rest);
      WordLengthCons(w, rest);
    }
  }

  lemma WordLengthCons(w: string, rest: string)
    requires |w| > 0 && !IsSpace(w[0])
    ensures WordLength(w + rest) == 1 + WordLength(w[1..] + rest)
  {
    assert (w + rest)[0] == w[0];
    assert (w + rest)[1..] == w[1..] + rest;
  }

  lemma NoSpaceTail(w: string)
    requires |w| > 0 && NoSpace(w)
    ensures NoSpace(w[1..])
  {
    assert forall i :: 0 <= i < |w| - 1 ==> w[1..][i] == w[i + 1];
  }

  function JoinSpaces(words: seq<string>): string
  {
    if |words| == 0 then ""
    else if |words| == 1 then words[0]
    else words[0] + " " + JoinSpaces(words[1..])
  }

  predicate StartsWith(s: string, prefix: string)
  {
    |prefix| <= |s| && s[..|prefix|] == prefix
  }

  /** Python's `needle in s` for strings. */
  predicate Contains(s: string, needle: string)
  {
    exists i | 0 <= i <= |s| - |needle| :: OccursAt(s, needle, i)
  }

  predicate OccursAt(s: string, needle: string, i: int)
  {
    0 <= i <= |s| - |needle| && s[i..i + |needle|] == needle
  }

  function LowerChar(c: char): char
  {
    if 'A' <= c <= 'Z' then (c as int + 32) as char else c
  }

  /** `str.lower()` on ASCII letters. */
  function Lower(s: string): (r: string)
    ensures |r| == |s|
    ensures forall i :: 0 <= i < |s| ==> r[i] == LowerChar(s[i])
  {
    seq(|s|, i requires 0 <= i < |s| => LowerChar(s[i]))
  }

  /** `str.replace(pat, rep)`: every non-overlapping occurrence, scanning
      left to right. */
  function ReplaceAll(s: string, pat: string, rep: string): string
    requires |pat| > 0
    decreases |s|
  {
    if |s| < |pat| then s
    else if s[..|pat|] == pat then rep + ReplaceAll(s[|pat|..], pat, rep)
    else [s[0]] + ReplaceAll(s[1..], pat, rep)
  }

  lemma ReplaceAbsent(s: string, pat: string, rep: string)
    requires |pat| > 0
    requires !Contains(s, pat)
    ensures ReplaceAll(s, pat, rep) == s
    decreases |s|
  {
    if |s| >= |pat| {
      assert s[0..|pat|] == s[..|pat|];
      assert !OccursAt(s, pat, 0);
      assert !Contains(s[1..], pat) by {
        forall i | OccursAt(s[1..], pat, i) ensures false {
          assert s[1..][i..i + |pat|] == s[i + 1..i + 1 + |pat|];
          assert OccursAt(s, pat, i + 1);
        }
      }
      ReplaceAbsent(s[1..], pat, rep);
    }
  }

  /** `str.split(sep)` with a one-character separator: keeps empty pieces,
      and the empty string gives one empty piece. */
  function SplitOn(s: string, sep: char): (r: seq<string>)
    ensures |r| > 0
    ensures forall k :: 0 <= k < |r| ==> sep !in r[k]
    decreases |s|
  {
    if sep !in s then [s]
    else
      var i := IndexOf(s, sep);
      [s[..i]] + SplitOn(s[i + 1..], sep)
  }

  /** Index of the first occurrence of `c` in `s`. */
  function IndexOf(s: string, c: char): (i: nat)
    requires c in s
    ensures i < |s| && s[i] == c && c !in s[..i]
  {
    if s[0] == c then 0
    else
      var i := 1 + IndexOf(s[1..], c);
      assert s[..i] == [s[0]] + s[1..][..i - 1];
      i
  }

  /** The pieces between separators, glued back with the separator,
      give the original string. */
  lemma {:induction false} SplitOnJoin(s: string, sep: char)
    ensures JoinWith(SplitOn(s, sep), sep) == s
    decreases |s|
  {
    if sep in s {
      var i := IndexOf(s, sep);
      SplitOnJoin(s[i + 1..], sep);
      assert s == s[..i] + [sep] + s[i + 1..];
    }
  }

  function JoinWith(pieces: seq<string>, sep: char): string
  {
    if |pieces| == 0 then ""
    else if |pieces| == 1 then pieces[0]
    else pieces[0] + [sep] + JoinWith(pieces[1..], sep)
  }

  /** `[c.strip() for c in s.split(sep) if c.strip() != '']`: the
      stripped pieces, blank ones dropped, in order. */
  function Fields(s: string, sep: char): (r: seq<string>)
    ensures forall k :: 0 <= k < |r| ==> r[k] != "" && sep !in r[k]
    ensures forall x :: x in r <==> x != "" && x in StripAll(SplitOn(s, sep))
  {
    var pieces := SplitOn(s, sep);
    var stripped := StripAll(pieces);
    assert forall k :: 0 <= k < |stripped| ==> sep !in stripped[k] by {
      forall k | 0 <= k < |stripped|
        ensures sep !in stripped[k]
      {
        StripKeepsOut(pieces[k], sep);
      }
    }
    NonBlank(stripped, sep)
  }

  /** Every piece stripped. */
  function StripAll(pieces: seq<string>): (r: seq<string>)
    ensures |r| == |pieces| && forall k :: 0 <= k < |r| ==> r[k] == Strip(pieces[k])
  {
    seq(|pieces|, k requires 0 <= k < |pieces| => Strip(pieces[k]))
  }

  /** The nonblank pieces, in order. */
  function NonBlank(pieces: seq<string>, sep: char): (r: seq<string>)
    requires forall k :: 0 <= k < |pieces| ==> sep !in pieces[k]
    ensures |r| <= |pieces|
    ensures forall k :: 0 <= k < |r| ==> r[k] != "" && sep !in r[k]
    ensures forall x :: x in r <==> x != "" && x in pieces
  {
    if |pieces| == 0 then []
    else
      var n := |pieces| - 1;
      assert forall y :: y in pieces <==> y in pieces[..n] || y == pieces[n] by {
        assert pieces == pieces[..n] + [pieces[n]];
      }
      var front := NonBlank(pieces[..n], sep);
      if pieces[n] == "" then front else front + [pieces[n]]
  }

  /** Stripping adds no character. */
  lemma StripKeepsOut(s: string, c: char)
    requires c !in s
    ensures c !in Strip(s)
  {
    var x := Strip(s);
    var i :| StrippedAt(s, x, i);
    assert forall m :: 0 <= m < |x| ==> x[m] == s[i + m];
  }

  /** Words with no separator and no surrounding whitespace, joined with
      the separator, come back from `Fields` unchanged. */
  lemma {:induction false} FieldsJoin(words: seq<string>, sep: char)
    requires forall k :: 0 <= k < |words| ==> words[k] != "" && sep !in words[k]
    requires forall k :: 0 <= k < |words| ==> !IsSpace(words[k][0]) && !IsSpace(words[k][|words[k]| - 1])
    ensures Fields(JoinWith(words, sep), sep) == words
  {
    if |words| > 0 {
      SplitOnJoinWith(words, sep);
      StripAllOfStripped(words);
      NonBlankOfNonblank(words, sep);
    } else {
      assert SplitOn("", sep) == [""];
      assert Strip("") == "";
    }
  }

  /** Splitting joined separator-free pieces gives them back. */
  lemma {:induction false} SplitOnJoinWith(pieces: seq<string>, sep: char)
    requires |pieces| > 0
    requires forall k :: 0 <= k < |pieces| ==> sep !in pieces[k]
    ensures SplitOn(JoinWith(pieces, sep), sep) == pieces
  {
    if |pieces| > 1 {
      var w := pieces[0];
      var rest := JoinWith(pieces[1..], sep);
      var s := w + [sep] + rest;
      assert s[|w|] == sep;
      assert s[..|w|] == w;
      assert IndexOf(s, sep) == |w|;
      assert s[|w| + 1..] == rest;
      SplitOnJoinWith(pieces[1..], sep);
    }
  }

  lemma StripAllOfStripped(words: seq<string>)
    requires forall k :: 0 <= k < |words| ==> words[k] != ""
    requires forall k :: 0 <= k < |words| ==> !IsSpace(words[k][0]) && !IsSpace(words[k][|words[k]| - 1])
    ensures StripAll(words) == words
  {
    forall k | 0 <= k < |words|
      ensures Strip(words[k]) == words[k]
    {
      StripOfSpaceFree(words[k]);
    }
  }

  lemma {:induction false} NonBlankOfNonblank(words: seq<string>, sep: char)
    requires forall k :: 0 <= k < |words| ==> words[k] != "" && sep !in words[k]
    ensures NonBlank(words, sep) == words
  {
    if |words| > 0 {
      var n := |words| - 1;
      NonBlankOfNonblank(words[..n], sep);
      assert words[..n] + [words[n]] == words;
    }
  }

  /** `os.path.basename`: what follows the last `/`. */
  function Basename(path: string): (r: string)
    ensures '/' !in r
    ensures StartsWith(Reverse(path), Reverse(r))
  {
    if '/' !in path then
      path
    else
      var k := LastIndexOf(path, '/');
      var r := path[k + 1..];
      assert path == path[..k + 1] + r;
      ReverseAppend(path[..k + 1], r);
      r
  }

  function LastIndexOf(s: string, c: char): (i: nat)
    requires c in s
    ensures i < |s| && s[i] == c && c !in s[i + 1..]
  {
    if s[|s| - 1] == c then |s| - 1
    else
      assert c in s[..|s| - 1] by {
        var j :| 0 <= j < |s| && s[j] == c;
        assert s[..|s| - 1][j] == c;
      }
      var i := LastIndexOf(s[..|s| - 1], c);
      assert s[i + 1..] == s[..|s| - 1][i + 1..] + [s[|s| - 1]];
      i
  }

  function Reverse(s: string): (r: string)
    ensures |r| == |s|
    ensures forall i :: 0 <= i < |s| ==> r[i] == s[|s| - 1 - i]
  {
    seq(|s|, i requires 0 <= i < |s| => s[|s| - 1 - i])
  }

  lemma ReverseAppend(a: string, b: string)
    ensures Reverse(a + b) == Reverse(b) + Reverse(a)
  {
  }
}

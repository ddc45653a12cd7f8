/** The run-temperature tag shared by 06_collect_all_jumps.py and
    10_prepare_escape_map.py: `re.search(r'(\d+)[Kk]', name)` and the
    integer of its group, or `None` when the pattern does not occur. */
module RunTag {
  import opened Wrappers
  import opened Numbers

  predicate IsKelvin(c: char)
  {
    c == 'K' || c == 'k'
  }

  /** The regular expression matches `s[i..j + 1]`: a nonempty run of
      digits `s[i..j]` followed by `K` or `k`. */
  predicate MatchesAt(s: string, i: nat, j: nat)
  {
    i < j < |s| && AllDigits(s[i..j]) && IsKelvin(s[j])
  }

  /** End of the maximal digit run that starts at `i`. */
  function RunEnd(s: string, i: nat): (e: nat)
    requires i <= |s|
    ensures i <= e <= |s| && AllDigits(s[i..e])
    ensures e == |s| || !IsDigit(s[e])
    decreases |s| - i
  {
    if i == |s| || !IsDigit(s[i]) then i
    else
      var e := RunEnd(s, i + 1);
      assert s[i..e] == [s[i]] + s[i + 1..e];
      e
  }

  /** Some match starts at `i`. Since a digit is not `K`, the only `j`
      that can close it is the end of the digit run. */
  predicate StartsMatch(s: string, i: nat)
  {
    i < |s| && IsDigit(s[i]) && RunEnd(s, i) < |s| && IsKelvin(s[RunEnd(s, i)])
  }

  /** A match from `i` ends exactly where the digit run ends: the greedy
      `\d+` can only stop there. */
  lemma {:induction false} MatchEndIsRunEnd(s: string, i: nat, j: nat)
    requires i <= |s|
    ensures MatchesAt(s, i, j) <==> StartsMatch(s, i) && j == RunEnd(s, i)
  {
  }

  /** The leftmost match start at or after `i`. */
  function SearchFrom(s: string, i: nat): (r: Option<nat>)
    requires i <= |s|
    ensures r.Some? ==> i <= r.value < |s| && StartsMatch(s, r.value)
    ensures forall q :: i <= q < (if r.Some? then r.value else |s|) ==> !StartsMatch(s, q)
    decreases |s| - i
  {
    if i == |s| then None
    else if StartsMatch(s, i) then Some(i)
    else SearchFrom(s, i + 1)
  }

  /** `int(m.group(1))` of the leftmost match, if any. */
  function RunTemp(name: string): (r: Option<nat>)
    ensures r.None? <==> forall i, j :: 0 <= i <= j ==> !MatchesAt(name, i, j)
    ensures r.Some? ==> exists i, j :: 0 <= i <= j && MatchesAt(name, i, j)
                          && (forall q, e :: 0 <= q < i && q <= e ==> !MatchesAt(name, q, e))
                          && r.value == DigitsValue(name[i..j])
  {
    var p := SearchFrom(name, 0);
    if p.None? then
      assert forall i, j :: 0 <= i <= j ==> !MatchesAt(name, i, j) by {
        forall i: nat, j: nat | i <= j
          ensures !MatchesAt(name, i, j)
        {
          if i <= |name| { MatchEndIsRunEnd(name, i, j); }
        }
      }
      None
    else
      var i := p.value;
      var j := RunEnd(name, i);
      MatchEndIsRunEnd(name, i, j);
      assert forall q, e :: 0 <= q < i && q <= e ==> !MatchesAt(name, q, e) by {
        forall q: nat, e: nat | q < i && q <= e
          ensures !MatchesAt(name, q, e)
        {
          MatchEndIsRunEnd(name, q, e);
        }
      }
      Some(DigitsValue(name[i..j]))
  }

  /** A tag at the start of the name, as in `1200K_jump_stats.csv`. */
  lemma TagAtStart()
    ensures RunTemp("1200K_jump_stats.csv") == Some(1200)
  {
    var a := "1200K_jump_stats.csv";
    assert RunEnd(a, 3) == 4;
    assert RunEnd(a, 0) == 4;
    assert SearchFrom(a, 0) == Some(0);
    assert RunTemp(a) == Some(DigitsValue(a[0..4]));
    assert a[0..4] == "1200";
    assert "1200"[..3] == "120" && "120"[..2] == "12" && "12"[..1] == "1" && "1"[..0] == "";
    assert DigitsValue("1200") == 1200;
  }

  /** A lower-case tag after a prefix. */
  lemma TagAfterPrefix()
    ensures RunTemp("t500k.csv") == Some(500)
  {
    var b := "t500k.csv";
    assert RunEnd(b, 3) == 4;
    assert RunEnd(b, 1) == 4;
    assert SearchFrom(b, 1) == Some(1);
    assert RunTemp(b) == Some(DigitsValue(b[1..4]));
    assert b[1..4] == "500";
    assert "500"[..2] == "50" && "50"[..1] == "5" && "5"[..0] == "";
    assert DigitsValue("500") == 500;
  }

  /** A digit run not followed by `K` is passed over, and the tag is the
      next run that is. */
  lemma TagSkipsBareDigits()
    ensures RunTemp("12x34K") == Some(34)
  {
    var c := "12x34K";
    assert RunEnd(c, 1) == 2 && RunEnd(c, 0) == 2;
    assert RunEnd(c, 4) == 5 && RunEnd(c, 3) == 5;
    assert SearchFrom(c, 3) == Some(3);
    assert SearchFrom(c, 0) == Some(3);
    assert RunTemp(c) == Some(DigitsValue(c[3..5]));
    assert c[3..5] == "34";
    assert "34"[..1] == "3" && "3"[..0] == "";
    assert DigitsValue("34") == 34;
  }

  /** A name without the pattern has no tag. */
  lemma NoTag()
    ensures RunTemp("stats.csv") == None
  {
    var d := "stats.csv";
    assert SearchFrom(d, 9) == None;
    assert SearchFrom(d, 5) == None;
    assert SearchFrom(d, 0) == None;
  }
}

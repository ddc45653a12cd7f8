/** Filtering and sorting by a real-valued key (boolean masks, pandas
    `sort_values`, `np.sort`, `np.argsort`), and the sorted distinct values
    of a column (the group keys of `groupby(..., sort=True)`, and of
    `groupby(..., sort=False)` in order of first appearance). */
module Sorting {

  /** The rows satisfying `p`, in order. */
  function Select<T(!new)>(s: seq<T>, p: T -> bool): (r: seq<T>)
    ensures |r| <= |s|
    ensures forall x :: x in r <==> x in s && p(x)
  {
    if |s| == 0 then []
    else
      var rest := Select(s[..|s| - 1], p);
      var x := s[|s| - 1];
      assert forall y :: y in s <==> y in s[..|s| - 1] || y == x by {
        assert s == s[..|s| - 1] + [x];
      }
      if p(x) then rest + [x] else rest
  }

  /** Selecting distributes over concatenation: the kept elements of each
      part stay in their order, one part after the other. */
  lemma {:induction false} SelectConcat<T(!new)>(a: seq<T>, b: seq<T>, p: T -> bool)
    ensures Select(a + b, p) == Select(a, p) + Select(b, p)
    decreases |b|
  {
    if |b| == 0 {
      assert a + b == a;
    } else {
      var n := |b| - 1;
      assert (a + b)[..|a + b| - 1] == a + b[..n];
      assert (a + b)[|a + b| - 1] == b[n];
      SelectConcat(a, b[..n], p);
    }
  }

  /** Selecting what every element satisfies keeps the whole sequence. */
  lemma {:induction false} SelectAll<T(!new)>(s: seq<T>, p: T -> bool)
    requires forall i :: 0 <= i < |s| ==> p(s[i])
    ensures Select(s, p) == s
  {
    if |s| > 0 {
      var n := |s| - 1;
      SelectAll(s[..n], p);
      assert s == s[..n] + [s[n]];
    }
  }

  /** Selecting what no element satisfies keeps nothing. */
  lemma {:induction false} SelectNone<T(!new)>(s: seq<T>, p: T -> bool)
    requires forall i :: 0 <= i < |s| ==> !p(s[i])
    ensures Select(s, p) == []
  {
    if |s| > 0 {
      SelectNone(s[..|s| - 1], p);
    }
  }

  /** Selecting keeps elements in their order, so strictly ascending keys
      stay strictly ascending. */
  lemma {:induction false} SelectAscending<T(!new)>(s: seq<T>, p: T -> bool, key: T -> real)
    requires StrictlyAscending(Keys(s, key))
    ensures StrictlyAscending(Keys(Select(s, p), key))
  {
    if |s| > 0 {
      var n := |s| - 1;
      var init := s[..n];
      var x := s[n];
      assert forall i :: 0 <= i < n ==> Keys(init, key)[i] == Keys(s, key)[i];
      SelectAscending(init, p, key);
      var rest := Select(init, p);
      if p(x) {
        forall y | y in rest ensures key(y) < key(x) {
          var i :| 0 <= i < n && init[i] == y;
          assert Keys(s, key)[i] < Keys(s, key)[n];
        }
        AppendAscending(rest, x, key);
      }
    }
  }

  lemma AppendAscending<T>(r: seq<T>, x: T, key: T -> real)
    requires StrictlyAscending(Keys(r, key))
    requires forall y :: y in r ==> key(y) < key(x)
    ensures StrictlyAscending(Keys(r + [x], key))
  {
    var t := r + [x];
    forall i, j | 0 <= i < j < |t| ensures Keys(t, key)[i] < Keys(t, key)[j] {
      assert t[i] == r[i];
      if j == |r| {
        assert r[i] in r;
      } else {
        assert t[j] == r[j];
        assert Keys(r, key)[i] < Keys(r, key)[j];
      }
    }
  }

  ghost predicate SortedBy<T>(s: seq<T>, key: T -> real)
  {
    forall i, j :: 0 <= i < j < |s| ==> key(s[i]) <= key(s[j])
  }

  predicate Ascending(s: seq<real>)
  {
    forall i, j :: 0 <= i < j < |s| ==> s[i] <= s[j]
  }

  predicate StrictlyAscending(s: seq<real>)
  {
    forall i, j :: 0 <= i < j < |s| ==> s[i] < s[j]
  }

  /** Inserts `x` after every element whose key does not exceed its own. */
  function Insert<T>(x: T, s: seq<T>, key: T -> real): (r: seq<T>)
    requires SortedBy(s, key)
    ensures |r| == |s| + 1
    ensures multiset(r) == multiset(s) + multiset{x}
    ensures forall k :: 0 <= k < |r| ==> r[k] == x || r[k] in s
    ensures SortedBy(r, key)
  {
    if |s| == 0 then [x]
    else if key(s[|s| - 1]) <= key(x) then
      AppendSorted(s, x, key);
      s + [x]
    else
      var last := s[|s| - 1];
      var init := s[..|s| - 1];
      assert s == init + [last];
      var m := Insert(x, init, key);
      BelowLast(x, s, m, key);
      AppendSorted(m, last, key);
      m + [last]
  }

  /** Appending an element no smaller than the last keeps the order. */
  lemma AppendSorted<T>(s: seq<T>, x: T, key: T -> real)
    requires SortedBy(s, key)
    requires |s| > 0 ==> key(s[|s| - 1]) <= key(x)
    ensures SortedBy(s + [x], key)
  {
    var r := s + [x];
    forall i, j | 0 <= i < j < |r| ensures key(r[i]) <= key(r[j]) {
      assert r[i] == s[i];
      if j < |s| {
        assert r[j] == s[j];
      } else {
        assert key(s[i]) <= key(s[|s| - 1]);
      }
    }
  }

  /** Inserting `x` before the last element of `s`, which exceeds it,
      leaves every element at most that last one. */
  lemma BelowLast<T>(x: T, s: seq<T>, m: seq<T>, key: T -> real)
    requires SortedBy(s, key) && |s| > 0 && key(x) < key(s[|s| - 1])
    requires forall k :: 0 <= k < |m| ==> m[k] == x || m[k] in s[..|s| - 1]
    ensures |m| > 0 ==> key(m[|m| - 1]) <= key(s[|s| - 1])
  {
    if |m| > 0 && m[|m| - 1] != x {
      var j :| 0 <= j < |s| - 1 && s[..|s| - 1][j] == m[|m| - 1];
      assert s[j] == s[..|s| - 1][j];
    }
  }

  /** Insertion sort: a permutation of `s` in ascending key order. */
  function SortBy<T>(s: seq<T>, key: T -> real): (r: seq<T>)
    ensures |r| == |s|
    ensures multiset(r) == multiset(s)
    ensures SortedBy(r, key)
  {
    if |s| == 0 then []
    else
      assert s == s[..|s| - 1] + [s[|s| - 1]];
      Insert(s[|s| - 1], SortBy(s[..|s| - 1], key), key)
  }

  /** A sequence already in key order is left as it is. */
  lemma {:induction false} SortBySorted<T>(s: seq<T>, key: T -> real)
    requires SortedBy(s, key)
    ensures SortBy(s, key) == s
  {
    if |s| > 0 {
      var n := |s| - 1;
      var init, x := s[..n], s[n];
      assert s == init + [x];
      assert SortedBy(init, key) by {
        forall i, j | 0 <= i < j < |init| ensures key(init[i]) <= key(init[j]) {
          assert init[i] == s[i] && init[j] == s[j];
        }
      }
      SortBySorted(init, key);
      assert SortBy(s, key) == Insert(x, init, key);
      if n > 0 {
        assert key(init[n - 1]) <= key(x);
      }
    }
  }

  /** The values sorted in ascending order. */
  function SortReals(s: seq<real>): (r: seq<real>)
    ensures |r| == |s|
    ensures multiset(r) == multiset(s)
    ensures Ascending(r)
  {
    var r := SortBy(s, x => x);
    assert SortedBy(r, x => x);
    r
  }

  /** Sum of `f` over the elements of a sequence. */
  function SumMap<T>(s: seq<T>, f: T -> real): real
  {
    if |s| == 0 then 0.0 else SumMap(s[..|s| - 1], f) + f(s[|s| - 1])
  }

  lemma SumMapAppend<T>(a: seq<T>, b: seq<T>, f: T -> real)
    ensures SumMap(a + b, f) == SumMap(a, f) + SumMap(b, f)
    decreases |b|
  {
    if |b| == 0 {
      assert a + b == a;
    } else {
      assert (a + b)[..|a + b| - 1] == a + b[..|b| - 1];
      assert (a + b)[|a + b| - 1] == b[|b| - 1];
      SumMapAppend(a, b[..|b| - 1], f);
    }
  }

  lemma {:induction false} SumMapInsert<T>(x: T, s: seq<T>, key: T -> real, f: T -> real)
    requires SortedBy(s, key)
    ensures SumMap(Insert(x, s, key), f) == SumMap(s, f) + f(x)
  {
    if |s| > 0 && key(s[|s| - 1]) > key(x) {
      var init := s[..|s| - 1];
      SumMapInsert(x, init, key, f);
      var r := Insert(x, init, key) + [s[|s| - 1]];
      assert r[..|r| - 1] == Insert(x, init, key);
    }
  }

  /** Sorting does not change any sum over the elements. */
  lemma {:induction false} SumMapSort<T>(s: seq<T>, key: T -> real, f: T -> real)
    ensures SumMap(SortBy(s, key), f) == SumMap(s, f)
  {
    if |s| > 0 {
      SumMapSort(s[..|s| - 1], key, f);
      SumMapInsert(s[|s| - 1], SortBy(s[..|s| - 1], key), key, f);
    }
  }

  /** Inserts `x` into a strictly ascending sequence unless already present. */
  function InsertDistinct(x: real, s: seq<real>): (r: seq<real>)
    requires StrictlyAscending(s)
    ensures StrictlyAscending(r)
    ensures forall y :: y in r <==> y in s || y == x
    ensures |r| <= |s| + 1
  {
    if |s| == 0 then [x]
    else if s[|s| - 1] == x then s
    else if s[|s| - 1] < x then s + [x]
    else
      var last := s[|s| - 1];
      var init := s[..|s| - 1];
      assert s == init + [last];
      var m := InsertDistinct(x, init);
      assert forall k :: 0 <= k < |m| ==> m[k] < last by {
        forall k | 0 <= k < |m| ensures m[k] < last {
          assert m[k] in m;
          if m[k] != x {
            assert m[k] in init;
            var j :| 0 <= j < |init| && init[j] == m[k];
            assert s[j] == init[j];
          }
        }
      }
      m + [last]
  }

  /** The distinct values of `s` in ascending order. */
  function SortedDistinct(s: seq<real>): (r: seq<real>)
    ensures |r| <= |s|
    ensures StrictlyAscending(r)
    ensures forall y :: y in r <==> y in s
  {
    if |s| == 0 then []
    else
      assert forall y :: y in s <==> y in s[..|s| - 1] || y == s[|s| - 1] by {
        assert s == s[..|s| - 1] + [s[|s| - 1]];
      }
      InsertDistinct(s[|s| - 1], SortedDistinct(s[..|s| - 1]))
  }

  lemma StrictlyAscendingDistinct(s: seq<real>)
    requires StrictlyAscending(s)
    ensures forall i, j :: 0 <= i < |s| && 0 <= j < |s| && s[i] == s[j] ==> i == j
  {
  }

  /** The keys of the elements, in order. */
  function Keys<T>(s: seq<T>, key: T -> real): (t: seq<real>)
    ensures |t| == |s| && forall i :: 0 <= i < |s| ==> t[i] == key(s[i])
  {
    seq(|s|, i requires 0 <= i < |s| => key(s[i]))
  }

  /** No later element of `s` has the key of `s[i]`. */
  predicate IsLastWithKey<T>(s: seq<T>, key: T -> real, i: int)
  {
    0 <= i < |s| && forall j :: i < j < |s| ==> key(s[j]) != key(s[i])
  }

  function LastIndexWith<T>(s: seq<T>, key: T -> real, t: real): (i: nat)
    requires exists k :: 0 <= k < |s| && key(s[k]) == t
    ensures i < |s| && key(s[i]) == t && IsLastWithKey(s, key, i)
  {
    if key(s[|s| - 1]) == t then |s| - 1
    else
      var k :| 0 <= k < |s| && key(s[k]) == t;
      assert s[..|s| - 1][k] == s[k];
      LastIndexWith(s[..|s| - 1], key, t)
  }

  /** `sort_values(key).drop_duplicates(key, keep='last')` when equal keys
      keep their input order: one element per distinct key, in ascending
      key order, each the last element of `s` carrying that key. */
  function LastPerKey<T>(s: seq<T>, key: T -> real): (r: seq<T>)
    ensures |r| <= |s|
    ensures StrictlyAscending(Keys(r, key))
    ensures forall x :: x in s ==> exists k :: 0 <= k < |r| && key(r[k]) == key(x)
    ensures forall k :: 0 <= k < |r| ==> exists i :: 0 <= i < |s| && r[k] == s[i] && IsLastWithKey(s, key, i)
  {
    var d := SortedDistinct(Keys(s, key));
    assert forall k :: 0 <= k < |d| ==> exists i :: 0 <= i < |s| && key(s[i]) == d[k] by {
      forall k | 0 <= k < |d| ensures exists i :: 0 <= i < |s| && key(s[i]) == d[k] {
        assert d[k] in d;
        var i :| 0 <= i < |s| && Keys(s, key)[i] == d[k];
      }
    }
    var r := seq(|d|, k requires 0 <= k < |d| => s[LastIndexWith(s, key, d[k])]);
    assert Keys(r, key) == d;
    forall x | x in s ensures exists k :: 0 <= k < |r| && key(r[k]) == key(x) {
      var i :| 0 <= i < |s| && s[i] == x;
      assert Keys(s, key)[i] in d;
      var k :| 0 <= k < |d| && d[k] == key(x);
      assert key(r[k]) == key(x);
    }
    r
  }

  /** The distinct values in order of first appearance (`groupby(sort=False)`). */
  function FirstAppearance(s: seq<int>): (r: seq<int>)
    ensures forall x :: x in r <==> x in s
    ensures forall i, j :: 0 <= i < j < |r| ==> r[i] != r[j]
  {
    if |s| == 0 then []
    else
      var rest := FirstAppearance(s[..|s| - 1]);
      var x := s[|s| - 1];
      assert forall y :: y in s <==> y in s[..|s| - 1] || y == x by {
        assert s == s[..|s| - 1] + [x];
      }
      if x in rest then rest else rest + [x]
  }

  /** `sorted(set(s))`, and the keys of `groupby("id")`: the distinct
      integers in ascending order. */
  function SortedIds(s: seq<int>): (r: seq<int>)
    ensures forall a :: a in r <==> a in s
    ensures forall i, j :: 0 <= i < j < |r| ==> r[i] < r[j]
  {
    if |s| == 0 then []
    else InsertId(s[|s| - 1], SortedIds(s[..|s| - 1]))
  }

  function InsertId(a: int, s: seq<int>): (r: seq<int>)
    requires forall i, j :: 0 <= i < j < |s| ==> s[i] < s[j]
    ensures forall b :: b in r <==> b in s || b == a
    ensures forall i, j :: 0 <= i < j < |r| ==> r[i] < r[j]
  {
    if |s| == 0 then [a]
    else if a == s[|s| - 1] then s
    else if a > s[|s| - 1] then s + [a]
    else
      var front := InsertId(a, s[..|s| - 1]);
      assert forall b :: b in s <==> b in s[..|s| - 1] || b == s[|s| - 1] by {
        assert s == s[..|s| - 1] + [s[|s| - 1]];
      }
      assert forall i :: 0 <= i < |front| ==> front[i] < s[|s| - 1] by {
        forall i | 0 <= i < |front|
          ensures front[i] < s[|s| - 1]
        {
          assert front[i] in front;
        }
      }
      front + [s[|s| - 1]]
  }
}

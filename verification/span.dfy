/** The command-line spans and the time filter of 00_sub_c_temp.py: `a:b`
    ranges with optional ends, comma-separated exclusion spans, the
    inclusion mask over the time axis, and the moving-average smoothing. */
module Span {
  import opened Wrappers
  import opened Text
  import opened Numbers
  import opened Reals
  import opened Sorting

  /** A `min:max` range; a blank side is `None`. */
  datatype Span = Span(lo: Option<real>, hi: Option<real>)

  /** One side of a span: blank is `None`, otherwise `float()` of it. */
  function Side(s: string): (r: Result<Option<real>>)
    ensures Strip(s) == "" ==> r == Success(None)
    ensures Strip(s) != "" ==> (r.Success? <==> ParseFloat(s).Some?)
    ensures Strip(s) != "" && r.Success? ==> r.value == ParseFloat(s)
  {
    if Strip(s) == "" then Success(None)
    else match ParseFloat(s)
      case None => Failure("could not convert string to float: " + s)
      case Some(v) => Success(Some(v))
  }

  /** `parse_span` of a string: it needs a `:`, and exactly one, since the
      pieces are unpacked into two names. */
  function ParseSpan(s: string): (r: Result<Span>)
    ensures ':' !in s ==> r.Failure?
    ensures r.Success? ==> |SplitOn(s, ':')| == 2
    ensures r.Success? ==> Side(SplitOn(s, ':')[0]) == Success(r.value.lo)
                           && Side(SplitOn(s, ':')[1]) == Success(r.value.hi)
  {
    if ':' !in s then Failure("Expected 'min:max' span")
    else
      var pieces := SplitOn(s, ':');
      if |pieces| != 2 then Failure("too many values to unpack")
      else
        var a := Side(pieces[0]);
        var b := Side(pieces[1]);
        if a.Failure? then Failure(a.error)
        else if b.Failure? then Failure(b.error)
        else Success(Span(a.value, b.value))
  }

  /** `parse_span(None)` is `None`. */
  function ParseSpanOpt(s: Option<string>): (r: Result<Option<Span>>)
    ensures s.None? ==> r == Success(None)
    ensures s.Some? ==> (r.Success? <==> ParseSpan(s.value).Success?)
    ensures s.Some? && r.Success? ==> r.value == Some(ParseSpan(s.value).value)
  {
    match s
    case None => Success(None)
    case Some(t) =>
      var p := ParseSpan(t);
      if p.Failure? then Failure(p.error) else Success(Some(p.value))
  }

  /** Two integers written around a colon read back as the span between
      them. */
  lemma SpanRoundTrip(a: int, b: int)
    ensures ParseSpan(IntToString(a) + ":" + IntToString(b)) == Success(Span(Some(a as real), Some(b as real)))
  {
    var x := IntToString(a);
    var y := IntToString(b);
    PrintedIntHasNoColon(a);
    PrintedIntHasNoColon(b);
    SplitOnJoinWith([x, y], ':');
    assert JoinWith([x, y], ':') == x + ":" + y;
    IntRoundTrip(a);
    IntRoundTrip(b);
  }

  /** A colon with nothing around it leaves both ends open. */
  lemma OpenSpan()
    ensures ParseSpan(":") == Success(Span(None, None))
  {
    assert SplitOn(":", ':') == ["", ""] by {
      assert IndexOf(":", ':') == 0;
      assert ":"[1..] == "";
    }
    assert Strip("") == "";
  }

  lemma PrintedIntHasNoColon(i: int)
    ensures IntToString(i) != "" && ':' !in IntToString(i)
  {
    var digits := NatToString(if i < 0 then -i else i);
    assert forall k :: 0 <= k < |digits| ==> IsDigit(digits[k]);
    if i < 0 {
      assert IntToString(i) == "-" + digits;
    }
  }

  /** `parse_excludes`: nothing for an absent or empty argument; otherwise
      one span per nonblank comma-separated chunk. */
  function ParseExcludes(s: Option<string>): (r: Result<seq<Span>>)
    ensures s.None? || s == Some("") ==> r == Success([])
    ensures s.Some? && s.value != "" ==> (r.Success? <==> AllSpans(Fields(s.value, ',')))
    ensures r.Success? && s.Some? && s.value != "" ==> Parses(Fields(s.value, ','), r.value)
  {
    if s.None? || s.value == "" then Success([]) else ParseSpans(Fields(s.value, ','))
  }

  /** Every chunk parses as a span. */
  predicate AllSpans(chunks: seq<string>)
  {
    forall k :: 0 <= k < |chunks| ==> ParseSpan(chunks[k]).Success?
  }

  lemma AllSpansSnoc(chunks: seq<string>)
    requires |chunks| > 0
    ensures AllSpans(chunks) <==> AllSpans(chunks[..|chunks| - 1]) && ParseSpan(chunks[|chunks| - 1]).Success?
  {
    assert forall k :: 0 <= k < |chunks| - 1 ==> chunks[..|chunks| - 1][k] == chunks[k];
  }

  /** `spans[k]` is what chunk `k` parses to, for every chunk. */
  predicate Parses(chunks: seq<string>, spans: seq<Span>)
  {
    |spans| == |chunks| && forall k :: 0 <= k < |chunks| ==> ParseSpan(chunks[k]) == Success(spans[k])
  }

  lemma ParsesSnoc(chunks: seq<string>, spans: seq<Span>, x: Span)
    requires |chunks| > 0 && Parses(chunks[..|chunks| - 1], spans)
    requires ParseSpan(chunks[|chunks| - 1]) == Success(x)
    ensures Parses(chunks, spans + [x])
  {
    var n := |chunks| - 1;
    var r := spans + [x];
    forall k | 0 <= k < |chunks| ensures ParseSpan(chunks[k]) == Success(r[k]) {
      if k < n {
        assert chunks[..n][k] == chunks[k] && r[k] == spans[k];
      } else {
        assert r[k] == x;
      }
    }
  }

  function ParseSpans(chunks: seq<string>): (r: Result<seq<Span>>)
    ensures r.Success? <==> AllSpans(chunks)
    ensures r.Success? ==> Parses(chunks, r.value)
  {
    if |chunks| == 0 then Success([])
    else
      var n := |chunks| - 1;
      var front := ParseSpans(chunks[..n]);
      AllSpansSnoc(chunks);
      var last := ParseSpan(chunks[n]);
      if front.Failure? then Failure(front.error)
      else if last.Failure? then Failure(last.error)
      else
        ParsesSnoc(chunks, front.value, last.value);
        Success(front.value + [last.value])
  }

  // ---------------------------------------------------------------------
  // Inclusion mask

  /** `mask[i]`: within the given ends of the view range, and outside every
      exclusion span that has both ends. */
  predicate Included(t: real, view: Span, excludes: seq<Span>)
  {
    (view.lo.None? || t >= view.lo.value) && (view.hi.None? || t <= view.hi.value)
    && forall k :: 0 <= k < |excludes| ==>
         excludes[k].lo.None? || excludes[k].hi.None? || !(excludes[k].lo.value <= t <= excludes[k].hi.value)
  }

  /** The `--xlim` span: an empty argument leaves both ends open. */
  function ViewSpan(arg: string): (r: Result<Span>)
    ensures arg == "" ==> r == Success(Span(None, None))
    ensures arg != "" ==> r == ParseSpan(arg)
  {
    if arg == "" then Success(Span(None, None)) else ParseSpan(arg)
  }

  /** Whether a sample's time is included. */
  function Keeps(view: Span, excludes: seq<Span>): ((real, real)) -> bool
  {
    (s: (real, real)) => Included(s.0, view, excludes)
  }

  /** `(t, y) = (time_ps[mask], Tsub[mask])`: the samples whose time is
      included. */
  function Kept(samples: seq<(real, real)>, view: Span, excludes: seq<Span>): (r: seq<(real, real)>)
    ensures |r| <= |samples|
    ensures forall s :: s in r <==> s in samples && Included(s.0, view, excludes)
  {
    Select(samples, Keeps(view, excludes))
  }

  /** The mask keeps the samples in their order: the kept samples of two
      stretches of the series are those of the first followed by those of
      the second, and a single sample is kept exactly when its time is
      included. */
  lemma KeptInOrder(a: seq<(real, real)>, b: seq<(real, real)>, view: Span, excludes: seq<Span>)
    ensures Kept(a + b, view, excludes) == Kept(a, view, excludes) + Kept(b, view, excludes)
    ensures forall s :: Kept([s], view, excludes) == if Included(s.0, view, excludes) then [s] else []
  {
    SelectConcat(a, b, Keeps(view, excludes));
    forall s ensures Kept([s], view, excludes) == if Included(s.0, view, excludes) then [s] else [] {
      assert [s][..0] == [];
    }
  }

  /** A kept time lies within the view and outside every complete
      exclusion span. */
  lemma KeptWithin(samples: seq<(real, real)>, view: Span, excludes: seq<Span>, s: (real, real), k: nat)
    requires s in Kept(samples, view, excludes) && k < |excludes|
    requires excludes[k].lo.Some? && excludes[k].hi.Some?
    ensures view.lo.Some? ==> view.lo.value <= s.0
    ensures view.hi.Some? ==> s.0 <= view.hi.value
    ensures s.0 < excludes[k].lo.value || s.0 > excludes[k].hi.value
  {
  }

  // ---------------------------------------------------------------------
  // moving_average

  /** The first and one-past-last index of the window of output `i` in
      `np.convolve(y, ones(w)/w, "same")`: the full convolution shifted by
      `(w − 1) div 2`, cut at the ends of `y`. */
  function WindowLo(i: nat, w: nat): nat
    requires w > 0
  {
    var c := i + (w - 1) / 2;
    if c + 1 >= w then c + 1 - w else 0
  }

  function WindowHi(i: nat, w: nat, n: nat): (hi: nat)
    requires w > 0 && i < n
    ensures WindowLo(i, w) < hi <= n
    ensures hi - WindowLo(i, w) <= w
  {
    var c := i + (w - 1) / 2;
    if c + 1 <= n then c + 1 else n
  }

  /** `moving_average(y, win)`: `y` itself for no window or one below 2;
      otherwise the window is cut to `len(y)` and each output is the mean
      over the full width of the samples under the window. NumPy refuses
      an empty kernel, so an empty `y` with a window is an error. */
  function MovingAverage(y: seq<real>, win: Option<int>): (r: Result<seq<real>>)
    ensures win.None? || win.value < 2 ==> r == Success(y)
    ensures win.Some? && win.value >= 2 ==> (r.Failure? <==> |y| == 0)
    ensures r.Success? ==> |r.value| == |y|
    ensures r.Success? && win.Some? && win.value >= 2 ==>
              forall i :: 0 <= i < |y| ==> r.value[i] == WindowMean(y, Width(y, win.value), i)
  {
    if win.None? || win.value < 2 then Success(y)
    else if |y| == 0 then Failure("v cannot be empty")
    else
      var w := Width(y, win.value);
      Success(seq(|y|, i requires 0 <= i < |y| => WindowMean(y, w, i)))
  }

  /** The width the smoothing actually uses. */
  function Width(y: seq<real>, win: int): (w: nat)
    requires win >= 2 && |y| > 0
    ensures 0 < w <= |y| && w <= win
    ensures win <= |y| ==> w == win
  {
    if win > |y| then |y| else win
  }

  /** Output `i` of the `same`-mode convolution with `ones(w)/w`. */
  function WindowMean(y: seq<real>, w: nat, i: nat): real
    requires 0 < w && i < |y|
  {
    OverWidth(y[WindowLo(i, w)..WindowHi(i, w, |y|)], w)
  }

  /** The sum of `s` over a width `w`. */
  function OverWidth(s: seq<real>, w: nat): real
    requires 0 < w
  {
    Sum(s) / w as real
  }

  /** Away from the ends a constant series stays constant: a window that
      fits entirely inside averages `w` equal values. */
  lemma ConstantInterior(y: seq<real>, win: int, c: real, i: nat)
    requires win >= 2 && i < |y|
    requires forall k :: 0 <= k < |y| ==> y[k] == c
    requires i + (Width(y, win) - 1) / 2 + 1 >= Width(y, win) && i + (Width(y, win) - 1) / 2 < |y|
    ensures MovingAverage(y, Some(win)).value[i] == c
  {
    var w := Width(y, win);
    var lo := WindowLo(i, w);
    var hi := WindowHi(i, w, |y|);
    assert hi - lo == w;
    var s := y[lo..hi];
    assert forall k :: 0 <= k < |s| ==> s[k] == y[lo + k];
    SumConstant(s, c);
    assert Sum(s) == w as real * c;
    DivCancel(w as real, c);
    assert OverWidth(s, w) == c;
    assert WindowMean(y, w, i) == OverWidth(s, w);
    AverageAt(y, win, i);
  }

  /** Output `i` of the smoothing is the window mean at `i`. */
  lemma AverageAt(y: seq<real>, win: int, i: nat)
    requires win >= 2 && i < |y|
    ensures MovingAverage(y, Some(win)).Success?
    ensures MovingAverage(y, Some(win)).value[i] == WindowMean(y, Width(y, win), i)
  {
  }

  lemma DivCancel(w: real, c: real)
    requires w > 0.0
    ensures (w * c) / w == c
  {
  }

  /** A nonnegative series smooths to values between 0 and its maximum:
      the window holds at most `w` samples and the sum is divided by `w`. */
  lemma NonnegativeWithin(y: seq<real>, win: int, i: nat)
    requires win >= 2 && i < |y|
    requires forall k :: 0 <= k < |y| ==> y[k] >= 0.0
    ensures 0.0 <= MovingAverage(y, Some(win)).value[i] <= MaxOf(y)
  {
    var w := Width(y, win);
    WindowMeanWithin(y, w, i);
    assert MovingAverage(y, Some(win)).value[i] == WindowMean(y, w, i);
  }

  lemma WindowMeanWithin(y: seq<real>, w: nat, i: nat)
    requires 0 < w && i < |y|
    requires forall k :: 0 <= k < |y| ==> y[k] >= 0.0
    ensures 0.0 <= WindowMean(y, w, i) <= MaxOf(y)
  {
    var lo := WindowLo(i, w);
    var hi := WindowHi(i, w, |y|);
    SliceWithin(y, lo, hi, MaxOf(y));
    SliceMean(y[lo..hi], w, MaxOf(y));
  }

  /** A slice of values in `[0, m]` has its values in `[0, m]`. */
  lemma SliceWithin(y: seq<real>, lo: nat, hi: nat, m: real)
    requires lo <= hi <= |y|
    requires forall k :: 0 <= k < |y| ==> 0.0 <= y[k] <= m
    ensures forall k :: 0 <= k < hi - lo ==> 0.0 <= y[lo..hi][k] <= m
  {
    forall k | 0 <= k < hi - lo
      ensures 0.0 <= y[lo..hi][k] <= m
    {
      assert y[lo..hi][k] == y[lo + k];
    }
  }

  /** At most `w` values in `[0, m]`, summed and divided by `w`. */
  lemma SliceMean(s: seq<real>, w: nat, m: real)
    requires 0 < w && |s| <= w
    requires forall k :: 0 <= k < |s| ==> 0.0 <= s[k] <= m
    requires m >= 0.0
    ensures 0.0 <= OverWidth(s, w) <= m
  {
    SumBounds(s, 0.0, m);
    ShareOfTotal(Sum(s), |s|, w, m);
  }

  /** `n` values each at most `m ≥ 0`, summed and divided by `w ≥ n`. */
  lemma ShareOfTotal(total: real, n: nat, w: nat, m: real)
    requires 0 < w && n <= w && m >= 0.0 && 0.0 <= total <= n as real * m
    ensures 0.0 <= total / w as real <= m
  {
    assert n as real * m <= w as real * m;
  }

  lemma {:induction false} SumConstant(s: seq<real>, c: real)
    requires forall k :: 0 <= k < |s| ==> s[k] == c
    ensures Sum(s) == |s| as real * c
  {
    if |s| > 0 {
      SumConstant(s[..|s| - 1], c);
    }
  }
}

/**
 * The two array scans the layout uses: filterToSpans, which cuts a sequence
 * into maximal runs of elements that may not be broken at, and find, which
 * walks from a start index by a fixed step until a predicate holds.
 */
module TextSpans {
  import opened Common

  /** filterToSpans's two accumulators: the finished spans and the run being collected. */
  datatype SpanState<T> = SpanState(spans: seq<seq<T>>, buffer: seq<T>)

  /** One forEach iteration: a kept element extends the run, a breakable one closes it. */
  function SpanStep<T>(st: SpanState<T>, x: T, breakable: T -> bool): SpanState<T>
  {
    if !breakable(x) then st.(buffer := st.buffer + [x])
    else if |st.buffer| > 0 then SpanState(st.spans + [st.buffer], [])
    else st
  }

  function SpanRun<T>(st: SpanState<T>, a: seq<T>, breakable: T -> bool): SpanState<T>
  {
    if a == [] then st else SpanStep(SpanRun(st, a[..|a| - 1], breakable), a[|a| - 1], breakable)
  }

  /** What filterToSpans returns: the spans of the scan, plus the last run if it is non-empty. */
  function Spans<T>(a: seq<T>, breakable: T -> bool): seq<seq<T>>
  {
    var st := SpanRun(SpanState([], []), a, breakable);
    if |st.buffer| > 0 then st.spans + [st.buffer] else st.spans
  }

  /** filterToSpans, as the source's forEach loop with its two accumulators. */
  method FilterToSpans<T>(a: seq<T>, breakable: T -> bool) returns (spans: seq<seq<T>>)
    ensures spans == Spans(a, breakable)
  {
    spans := [];
    var buffer := [];
    for i := 0 to |a|
      invariant SpanState(spans, buffer) == SpanRun(SpanState([], []), a[..i], breakable)
    {
      assert a[..i + 1][..i] == a[..i];
      if !breakable(a[i]) {
        buffer := buffer + [a[i]];
      } else if |buffer| > 0 {
        spans := spans + [buffer];
        buffer := [];
      }
    }
    assert a[..|a|] == a;
    if |buffer| > 0 {
      spans := spans + [buffer];
    }
  }

  /** The elements a predicate rejects, in order. */
  function Kept<T>(a: seq<T>, breakable: T -> bool): seq<T>
  {
    if a == [] then [] else Kept(a[..|a| - 1], breakable) + (if breakable(a[|a| - 1]) then [] else [a[|a| - 1]])
  }

  /** Every span is non-empty and holds only elements that may not be broken at. */
  predicate GoodSpans<T>(spans: seq<seq<T>>, breakable: T -> bool)
  {
    forall i :: 0 <= i < |spans| ==> |spans[i]| > 0 && forall j :: 0 <= j < |spans[i]| ==> !breakable(spans[i][j])
  }

  // ---------------------------------------------------------------------------
  // Properties

  lemma {:induction false} SpanRunGood<T>(a: seq<T>, breakable: T -> bool)
    ensures var st := SpanRun(SpanState([], []), a, breakable);
      GoodSpans(st.spans, breakable) && forall j :: 0 <= j < |st.buffer| ==> !breakable(st.buffer[j])
    decreases |a|
  {
    if a != [] {
      SpanRunGood(a[..|a| - 1], breakable);
    }
  }

  lemma {:induction false} SpanRunKept<T>(a: seq<T>, breakable: T -> bool)
    ensures var st := SpanRun(SpanState([], []), a, breakable);
      Flatten(st.spans) + st.buffer == Kept(a, breakable)
    decreases |a|
  {
    if a != [] {
      var a0, x := a[..|a| - 1], a[|a| - 1];
      SpanRunKept(a0, breakable);
      var st := SpanRun(SpanState([], []), a0, breakable);
      if !breakable(x) {
        assert Flatten(st.spans) + (st.buffer + [x]) == Flatten(st.spans) + st.buffer + [x];
      } else if |st.buffer| > 0 {
        assert (st.spans + [st.buffer])[..|st.spans|] == st.spans;
        assert Flatten(st.spans + [st.buffer]) + [] == Flatten(st.spans) + st.buffer;
      }
    }
  }

  /**
   * The spans are non-empty, hold no breakable element, and together are the
   * input with its breakable elements removed, in order.
   */
  lemma SpansFlatten<T>(a: seq<T>, breakable: T -> bool)
    ensures GoodSpans(Spans(a, breakable), breakable)
    ensures Flatten(Spans(a, breakable)) == Kept(a, breakable)
  {
    SpanRunGood(a, breakable);
    SpanRunKept(a, breakable);
    var st := SpanRun(SpanState([], []), a, breakable);
    if |st.buffer| > 0 {
      assert (st.spans + [st.buffer])[..|st.spans|] == st.spans;
    } else {
      assert Flatten(st.spans) + st.buffer == Flatten(st.spans);
    }
  }

  lemma {:induction false} SpanRunAppend<T>(st: SpanState<T>, a: seq<T>, b: seq<T>, breakable: T -> bool)
    ensures SpanRun(st, a + b, breakable) == SpanRun(SpanRun(st, a, breakable), b, breakable)
    decreases |b|
  {
    if b == [] {
      assert a + b == a;
    } else {
      assert (a + b)[..|a + b| - 1] == a + b[..|b| - 1];
      SpanRunAppend(st, a, b[..|b| - 1], breakable);
    }
  }

  /** Starting with an empty run, finished spans only pile up in front of those of a sub scan. */
  lemma {:induction false} SpanRunShift<T>(done: seq<seq<T>>, b: seq<T>, breakable: T -> bool)
    ensures var sub := SpanRun(SpanState([], []), b, breakable);
      SpanRun(SpanState(done, []), b, breakable) == SpanState(done + sub.spans, sub.buffer)
    decreases |b|
  {
    if b == [] {
      assert done + [] == done;
    } else {
      SpanRunShift(done, b[..|b| - 1], breakable);
      var sub := SpanRun(SpanState([], []), b[..|b| - 1], breakable);
      assert done + (sub.spans + [sub.buffer]) == done + sub.spans + [sub.buffer];
    }
  }

  /** A breakable element cuts the input: the spans on each side are computed independently. */
  lemma SpansSplit<T>(a: seq<T>, x: T, b: seq<T>, breakable: T -> bool)
    requires breakable(x)
    ensures Spans(a + [x] + b, breakable) == Spans(a, breakable) + Spans(b, breakable)
  {
    var init := SpanState([], []);
    SpanRunAppend(init, a + [x], b, breakable);
    assert (a + [x])[..|a|] == a;
    var mid := SpanRun(init, a + [x], breakable);
    assert mid == SpanState(Spans(a, breakable), []);
    SpanRunShift(Spans(a, breakable), b, breakable);
    var sub := SpanRun(init, b, breakable);
    if |sub.buffer| > 0 {
      assert Spans(a, breakable) + sub.spans + [sub.buffer] == Spans(a, breakable) + (sub.spans + [sub.buffer]);
    }
  }

  lemma {:induction false} SpanRunWhole<T>(s: seq<T>, breakable: T -> bool)
    requires forall j :: 0 <= j < |s| ==> !breakable(s[j])
    ensures SpanRun(SpanState([], []), s, breakable) == SpanState([], s)
    decreases |s|
  {
    if s != [] {
      SpanRunWhole(s[..|s| - 1], breakable);
      assert s[..|s| - 1] + [s[|s| - 1]] == s;
    }
  }

  /** A non-empty run with nothing breakable in it is one span. */
  lemma SpansWhole<T>(s: seq<T>, breakable: T -> bool)
    requires |s| > 0 && forall j :: 0 <= j < |s| ==> !breakable(s[j])
    ensures Spans(s, breakable) == [s]
  {
    SpanRunWhole(s, breakable);
  }

  /** Nothing, or only breakable elements, gives no span. */
  lemma {:induction false} SpansNone<T>(s: seq<T>, breakable: T -> bool)
    requires forall j :: 0 <= j < |s| ==> breakable(s[j])
    ensures Spans(s, breakable) == []
    decreases |s|
  {
    if s != [] {
      SpansNone(s[..|s| - 1], breakable);
    }
  }

  /** Every element of every span is an element of the input. */
  lemma SpansMembers<T>(a: seq<T>, breakable: T -> bool)
    ensures forall i, j :: 0 <= i < |Spans(a, breakable)| && 0 <= j < |Spans(a, breakable)[i]| ==> Spans(a, breakable)[i][j] in a
  {
    var sp := Spans(a, breakable);
    SpansFlatten(a, breakable);
    forall i, j | 0 <= i < |sp| && 0 <= j < |sp[i]|
      ensures sp[i][j] in a
    {
      FlattenMember(sp, i, j);
      KeptMember(a, breakable, sp[i][j]);
    }
  }

  lemma {:induction false} FlattenMember<T>(ss: seq<seq<T>>, i: int, j: int)
    requires 0 <= i < |ss| && 0 <= j < |ss[i]|
    ensures ss[i][j] in Flatten(ss)
    decreases |ss|
  {
    if i < |ss| - 1 {
      FlattenMember(ss[..|ss| - 1], i, j);
    } else {
      assert Flatten(ss) == Flatten(ss[..|ss| - 1]) + ss[i];
      assert Flatten(ss)[|Flatten(ss[..|ss| - 1])| + j] == ss[i][j];
    }
  }

  lemma {:induction false} KeptMember<T>(a: seq<T>, breakable: T -> bool, x: T)
    requires x in Kept(a, breakable)
    ensures x in a
    decreases |a|
  {
    if a != [] {
      var a0 := a[..|a| - 1];
      if x in Kept(a0, breakable) {
        KeptMember(a0, breakable, x);
        assert a0 <= a;
      }
    }
  }

  // ---------------------------------------------------------------------------
  // find

  /** The k-th index find visits. */
  function Visit(start: int, step: int, k: nat): int
  {
    start + k * step
  }

  /**
   * The walk find takes, from index i on: nothing once the index leaves the
   * array, the element and its index when the predicate accepts it, the next
   * index otherwise.
   */
  function FindFrom<T>(a: seq<T>, i: int, step: int, accept: T -> bool): Option<(T, int)>
    requires step == 0 ==> !(0 <= i < |a|) || accept(a[i])
    decreases if step > 0 then |a| - i else if step < 0 then i + 1 else 0
  {
    if !(0 <= i < |a|) then None
    else if accept(a[i]) then Some((a[i], i))
    else FindFrom(a, i + step, step, accept)
  }

  /**
   * find: the first element, walking from start by step while the index is in
   * bounds, that the predicate accepts, with its index. With step 0 the source
   * never leaves an in-bounds start whose element the predicate rejects, so
   * such calls are excluded.
   */
  method Find<T>(a: seq<T>, start: int, step: int, accept: T -> bool) returns (r: Option<(T, int)>, ghost steps: nat)
    requires step == 0 ==> !(0 <= start < |a|) || accept(a[start])
    ensures forall k :: 0 <= k < steps ==> 0 <= Visit(start, step, k) < |a| && !accept(a[Visit(start, step, k)])
    ensures r.Some? ==> var i := Visit(start, step, steps);
      0 <= i < |a| && r.value == (a[i], i) && accept(a[i])
    ensures r.None? ==> !(0 <= Visit(start, step, steps) < |a|)
    ensures r == FindFrom(a, start, step, accept)
  {
    var i := start;
    steps := 0;
    while 0 <= i && i < |a|
      invariant i == Visit(start, step, steps)
      invariant step == 0 ==> steps == 0
      invariant FindFrom(a, start, step, accept) == FindFrom(a, i, step, accept)
      invariant forall k :: 0 <= k < steps ==> 0 <= Visit(start, step, k) < |a| && !accept(a[Visit(start, step, k)])
      decreases if step > 0 then |a| - i else if step < 0 then i + 1 else 0
    {
      if accept(a[i]) {
        return Some((a[i], i)), steps;
      }
      i := i + step;
      steps := steps + 1;
    }
    r := None;
  }
}

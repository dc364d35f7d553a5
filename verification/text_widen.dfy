/**
 * commandsBreakLongSpans: every run of commands that may not be broken at and
 * whose glyphs are together wider than a line has all its glyphs made
 * breakable, so the line breaker can cut it anywhere.
 */
module TextWiden {
  import opened Common
  import opened TextFont
  import opened TextCommands
  import opened TextSpans

  /** A line may end at a break, or at a glyph marked breakable. */
  predicate CanBreak(c: Command)
  {
    c.Break? || (c.Glyph? && c.breakable)
  }

  /**
   * canBreak applied to the command at an index of c. The spans are lists of
   * indices into the command array, so marking through a span changes the
   * array itself, as marking the shared command objects does in the source.
   */
  function BreakAt(c: seq<Command>): int -> bool
  {
    k => 0 <= k < |c| ==> CanBreak(c[k])
  }

  /** The summed spacing of the glyphs of cs (computeLineWidth of each glyph's character). */
  function GlyphWidth(font: Font, cs: seq<Command>): nat
  {
    if cs == [] then 0
    else GlyphWidth(font, cs[..|cs| - 1]) + (if cs[|cs| - 1].Glyph? then CharWidth(font, cs[|cs| - 1].ch) else 0)
  }

  /** A span's width: the spacing of the glyphs among the commands it indexes. */
  function SpanWidth(cur: seq<Command>, font: Font, span: seq<int>): nat
  {
    if span == [] then 0
    else
      var k := span[|span| - 1];
      SpanWidth(cur, font, span[..|span| - 1]) + (if 0 <= k < |cur| && cur[k].Glyph? then CharWidth(font, cur[k].ch) else 0)
  }

  /** Sets `breakable` on every glyph the indices name. */
  function MarkGlyphs(cur: seq<Command>, idx: seq<int>): (r: seq<Command>)
    ensures |r| == |cur|
  {
    if idx == [] then cur
    else
      var prev := MarkGlyphs(cur, idx[..|idx| - 1]);
      var k := idx[|idx| - 1];
      if 0 <= k < |prev| && prev[k].Glyph? then prev[k := prev[k].(breakable := true)] else prev
  }

  /** The loop over the spans: a span wider than the line has its glyphs marked. */
  function MarkSpans(cur: seq<Command>, font: Font, lineWidth: int, spans: seq<seq<int>>): (r: seq<Command>)
    ensures |r| == |cur|
  {
    if spans == [] then cur
    else
      var prev := MarkSpans(cur, font, lineWidth, spans[..|spans| - 1]);
      var span := spans[|spans| - 1];
      if SpanWidth(prev, font, span) > lineWidth then MarkGlyphs(prev, span) else prev
  }

  /** What commandsBreakLongSpans leaves in the array. */
  function Widen(c: seq<Command>, font: Font, lineWidth: int): (r: seq<Command>)
    ensures SameShape(r, c)
  {
    MarkSpansShape(c, font, lineWidth, Spans(Range(0, |c|), BreakAt(c)));
    MarkSpans(c, font, lineWidth, Spans(Range(0, |c|), BreakAt(c)))
  }

  /** commandsBreakLongSpans, updating the command array in place. */
  method CommandsBreakLongSpans(commands: array<Command>, font: Font, lineWidth: int)
    modifies commands
    ensures commands[..] == Widen(old(commands[..]), font, lineWidth)
  {
    var c := commands[..];
    var spans := FilterToSpans(Range(0, commands.Length), BreakAt(c));
    for s := 0 to |spans|
      invariant commands[..] == MarkSpans(c, font, lineWidth, spans[..s])
    {
      assert spans[..s + 1][..s] == spans[..s];
      var span := spans[s];
      var spanWidth := SpanWidth(commands[..], font, span);
      if spanWidth > lineWidth {
        ghost var before := commands[..];
        for j := 0 to |span|
          invariant commands[..] == MarkGlyphs(before, span[..j])
        {
          assert span[..j + 1][..j] == span[..j];
          var k := span[j];
          if 0 <= k < commands.Length && commands[k].Glyph? {
            commands[k] := commands[k].(breakable := true);
          }
        }
        assert span[..|span|] == span;
      }
    }
    assert spans[..|spans|] == spans;
  }

  // ---------------------------------------------------------------------------
  // A reference description: maximal runs

  /** Where the run of unbreakable commands holding k starts. */
  function RunLo(c: seq<Command>, k: nat): (lo: nat)
    requires k < |c|
    ensures lo <= k
    ensures forall j :: lo <= j < k ==> !CanBreak(c[j])
    ensures lo == 0 || CanBreak(c[lo - 1])
  {
    if k == 0 || CanBreak(c[k - 1]) then k else RunLo(c, k - 1)
  }

  /** Where the run of unbreakable commands holding k ends (exclusive). */
  function RunEnd(c: seq<Command>, k: nat): (hi: nat)
    requires k < |c|
    ensures k < hi <= |c|
    ensures forall j :: k < j < hi ==> !CanBreak(c[j])
    ensures hi == |c| || CanBreak(c[hi])
    decreases |c| - k
  {
    if k + 1 == |c| || CanBreak(c[k + 1]) then k + 1 else RunEnd(c, k + 1)
  }

  /** The command a widened glyph becomes. */
  function Marked(c: Command): Command
  {
    if c.Glyph? then c.(breakable := true) else c
  }

  /** Two command lists agree on everything but glyphs' breakable flags. */
  ghost predicate SameShape(a: seq<Command>, b: seq<Command>)
  {
    |a| == |b| && forall k :: 0 <= k < |a| ==> (a[k].Glyph? <==> b[k].Glyph?) && (a[k].Glyph? ==> a[k].ch == b[k].ch) && (!a[k].Glyph? ==> a[k] == b[k])
  }

  // ---------------------------------------------------------------------------
  // Properties

  /** Marking a glyph changes only that command, and only its flag. */
  lemma {:induction false} MarkGlyphsAt(cur: seq<Command>, idx: seq<int>, k: int)
    requires 0 <= k < |cur|
    ensures MarkGlyphs(cur, idx)[k] == if k in idx then Marked(cur[k]) else cur[k]
    decreases |idx|
  {
    if idx != [] {
      var idx0 := idx[..|idx| - 1];
      MarkGlyphsAt(cur, idx0, k);
      assert k in idx <==> k in idx0 || k == idx[|idx| - 1];
    }
  }

  lemma {:induction false} MarkSpansShape(cur: seq<Command>, font: Font, lineWidth: int, spans: seq<seq<int>>)
    ensures SameShape(MarkSpans(cur, font, lineWidth, spans), cur)
    decreases |spans|
  {
    if spans != [] {
      var prev := MarkSpans(cur, font, lineWidth, spans[..|spans| - 1]);
      MarkSpansShape(cur, font, lineWidth, spans[..|spans| - 1]);
      var span := spans[|spans| - 1];
      forall k | 0 <= k < |cur|
        ensures var m := MarkGlyphs(prev, span);
          (m[k].Glyph? <==> prev[k].Glyph?) && (m[k].Glyph? ==> m[k].ch == prev[k].ch) && (!m[k].Glyph? ==> m[k] == prev[k])
      {
        MarkGlyphsAt(prev, span, k);
      }
    }
  }

  /** A command no span names is left as it was. */
  lemma {:induction false} MarkSpansUntouched(cur: seq<Command>, font: Font, lineWidth: int, spans: seq<seq<int>>, k: int)
    requires 0 <= k < |cur|
    requires forall i :: 0 <= i < |spans| ==> k !in spans[i]
    ensures MarkSpans(cur, font, lineWidth, spans)[k] == cur[k]
    decreases |spans|
  {
    if spans != [] {
      var prev := MarkSpans(cur, font, lineWidth, spans[..|spans| - 1]);
      MarkSpansUntouched(cur, font, lineWidth, spans[..|spans| - 1], k);
      MarkGlyphsAt(prev, spans[|spans| - 1], k);
    }
  }

  lemma {:induction false} MarkSpansAppend(cur: seq<Command>, font: Font, lineWidth: int, xs: seq<seq<int>>, ys: seq<seq<int>>)
    ensures MarkSpans(cur, font, lineWidth, xs + ys) == MarkSpans(MarkSpans(cur, font, lineWidth, xs), font, lineWidth, ys)
    decreases |ys|
  {
    if ys == [] {
      assert xs + ys == xs;
    } else {
      assert (xs + ys)[..|xs + ys| - 1] == xs + ys[..|ys| - 1];
      MarkSpansAppend(cur, font, lineWidth, xs, ys[..|ys| - 1]);
    }
  }

  /** The width of the span lo..hi-1 is the glyph width of that slice. */
  lemma {:induction false} SpanWidthRange(cur: seq<Command>, font: Font, lo: int, hi: int)
    requires 0 <= lo <= hi <= |cur|
    ensures SpanWidth(cur, font, Range(lo, hi)) == GlyphWidth(font, cur[lo..hi])
    decreases hi - lo
  {
    if lo < hi {
      SpanWidthRange(cur, font, lo, hi - 1);
      assert Range(lo, hi)[..hi - lo - 1] == Range(lo, hi - 1);
      assert cur[lo..hi][..hi - lo - 1] == cur[lo..hi - 1];
    }
  }

  /** Glyph width depends only on the shape of the commands. */
  lemma {:induction false} GlyphWidthShape(font: Font, a: seq<Command>, b: seq<Command>)
    requires SameShape(a, b)
    ensures GlyphWidth(font, a) == GlyphWidth(font, b)
    decreases |a|
  {
    if a != [] {
      GlyphWidthShape(font, a[..|a| - 1], b[..|b| - 1]);
    }
  }

  /** The spans of the indices before lo - 1. */
  function SpansBefore(c: seq<Command>, lo: nat): seq<seq<int>>
  {
    if lo == 0 then [] else Spans(Range(0, lo - 1), BreakAt(c))
  }

  /** The spans of the indices after hi. */
  function SpansAfter(c: seq<Command>, hi: nat): seq<seq<int>>
  {
    if hi >= |c| then [] else Spans(Range(hi + 1, |c|), BreakAt(c))
  }

  /** No span before lo - 1 or after hi names an index of lo..hi-1. */
  lemma OutsideRun(c: seq<Command>, lo: nat, hi: nat, k: nat)
    requires lo <= k < hi
    ensures forall i :: 0 <= i < |SpansBefore(c, lo)| ==> k !in SpansBefore(c, lo)[i]
    ensures forall i :: 0 <= i < |SpansAfter(c, hi)| ==> k !in SpansAfter(c, hi)[i]
  {
    if lo > 0 {
      SpansOfRangeBounds(c, 0, lo - 1, k);
    }
    if hi < |c| {
      SpansOfRangeBounds(c, hi + 1, |c|, k);
    }
  }

  /** The spans from the start of a run onwards: the run, then those after it. */
  lemma SpansFromRun(c: seq<Command>, lo: int, hi: int)
    requires 0 <= lo < hi <= |c|
    requires forall j :: lo <= j < hi ==> !CanBreak(c[j])
    requires hi == |c| || CanBreak(c[hi])
    ensures Spans(Range(lo, |c|), BreakAt(c)) == [Range(lo, hi)] + SpansAfter(c, hi)
  {
    RunSpan(c, lo, hi);
    if hi == |c| {
      assert Range(lo, |c|) == Range(lo, hi);
      assert [Range(lo, hi)] + SpansAfter(c, hi) == [Range(lo, hi)];
    } else {
      RunThenBreak(c, lo, hi);
    }
  }

  /** A run of indices with no break point is a single span. */
  lemma RunSpan(c: seq<Command>, lo: int, hi: int)
    requires 0 <= lo < hi <= |c|
    requires forall j :: lo <= j < hi ==> !CanBreak(c[j])
    ensures Spans(Range(lo, hi), BreakAt(c)) == [Range(lo, hi)]
  {
    SpansWhole(Range(lo, hi), BreakAt(c));
  }

  /** A run followed by a break point at hi: the break point cuts the spans. */
  lemma RunThenBreak(c: seq<Command>, lo: int, hi: int)
    requires 0 <= lo < hi < |c| && CanBreak(c[hi])
    requires Spans(Range(lo, hi), BreakAt(c)) == [Range(lo, hi)]
    ensures Spans(Range(lo, |c|), BreakAt(c)) == [Range(lo, hi)] + SpansAfter(c, hi)
  {
    var mid, rest := Range(lo, hi), Range(hi + 1, |c|);
    RangeSplit(lo, hi, |c|);
    RangeSplit(hi, hi + 1, |c|);
    assert Range(hi, hi + 1) == [hi];
    assert Range(lo, |c|) == mid + [hi] + rest;
    SpansSplit(mid, hi, rest, BreakAt(c));
  }

  /** The spans of the whole index list: those before the run, the run, those after. */
  lemma SpansAroundRun(c: seq<Command>, lo: int, hi: int)
    requires 0 <= lo < hi <= |c|
    requires forall j :: lo <= j < hi ==> !CanBreak(c[j])
    requires lo == 0 || CanBreak(c[lo - 1])
    requires hi == |c| || CanBreak(c[hi])
    ensures Spans(Range(0, |c|), BreakAt(c)) == SpansBefore(c, lo) + [Range(lo, hi)] + SpansAfter(c, hi)
  {
    SpansFromRun(c, lo, hi);
    if lo > 0 {
      RangeSplit(0, lo, |c|);
      RangeSplit(0, lo - 1, lo);
      assert Range(lo - 1, lo) == [lo - 1];
      assert Range(0, |c|) == Range(0, lo - 1) + [lo - 1] + Range(lo, |c|);
      SpansSplit(Range(0, lo - 1), lo - 1, Range(lo, |c|), BreakAt(c));
    }
  }

  /** Every index in the spans of Range(lo, hi) lies in lo..hi-1. */
  lemma SpansOfRangeBounds(c: seq<Command>, lo: int, hi: int, k: int)
    requires k < lo || hi <= k
    ensures forall i :: 0 <= i < |Spans(Range(lo, hi), BreakAt(c))| ==> k !in Spans(Range(lo, hi), BreakAt(c))[i]
  {
    var sp := Spans(Range(lo, hi), BreakAt(c));
    SpansMembers(Range(lo, hi), BreakAt(c));
    assert k !in Range(lo, hi);
  }

  /**
   * The widening, command by command: a command is left alone unless it is an
   * unbreakable glyph in a run of unbreakable commands whose glyphs are wider
   * than the line, in which case it becomes breakable.
   */
  lemma WidenAt(c: seq<Command>, font: Font, lineWidth: int, k: nat)
    requires k < |c|
    ensures |Widen(c, font, lineWidth)| == |c|
    ensures Widen(c, font, lineWidth)[k] ==
      if !CanBreak(c[k]) && GlyphWidth(font, c[RunLo(c, k)..RunEnd(c, k)]) > lineWidth then Marked(c[k]) else c[k]
  {
    var p := BreakAt(c);
    var all := Spans(Range(0, |c|), p);
    if CanBreak(c[k]) {
      SpansFlatten(Range(0, |c|), p);
      assert forall i :: 0 <= i < |all| ==> k !in all[i];
      MarkSpansUntouched(c, font, lineWidth, all, k);
    } else {
      var lo, hi := RunLo(c, k), RunEnd(c, k);
      WidenInRun(c, font, lineWidth, k, lo, hi);
    }
  }

  lemma WidenInRun(c: seq<Command>, font: Font, lineWidth: int, k: nat, lo: nat, hi: nat)
    requires lo <= k < hi <= |c|
    requires forall j :: lo <= j < hi ==> !CanBreak(c[j])
    requires lo == 0 || CanBreak(c[lo - 1])
    requires hi == |c| || CanBreak(c[hi])
    ensures Widen(c, font, lineWidth)[k] ==
      if GlyphWidth(font, c[lo..hi]) > lineWidth then Marked(c[k]) else c[k]
  {
    var before, after := SpansBefore(c, lo), SpansAfter(c, hi);
    var mid := Range(lo, hi);
    SpansAroundRun(c, lo, hi);
    MarkSpansAppend(c, font, lineWidth, before + [mid], after);
    MarkSpansAppend(c, font, lineWidth, before, [mid]);
    var s2 := MarkSpans(MarkSpans(c, font, lineWidth, before), font, lineWidth, [mid]);
    OutsideRun(c, lo, hi, k);
    MarkRun(c, font, lineWidth, before, k, lo, hi);
    MarkSpansUntouched(s2, font, lineWidth, after, k);
  }

  /** After spans that do not name k, the run lo..hi-1 is marked exactly when the original run is too wide. */
  lemma MarkRun(c: seq<Command>, font: Font, lineWidth: int, before: seq<seq<int>>, k: nat, lo: nat, hi: nat)
    requires lo <= k < hi <= |c|
    requires forall i :: 0 <= i < |before| ==> k !in before[i]
    ensures MarkSpans(MarkSpans(c, font, lineWidth, before), font, lineWidth, [Range(lo, hi)])[k] ==
      if GlyphWidth(font, c[lo..hi]) > lineWidth then Marked(c[k]) else c[k]
  {
    var mid := Range(lo, hi);
    var s1 := MarkSpans(c, font, lineWidth, before);
    MarkSpansUntouched(c, font, lineWidth, before, k);
    MarkSpansShape(c, font, lineWidth, before);
    SpanWidthRange(s1, font, lo, hi);
    assert SameShape(s1[lo..hi], c[lo..hi]);
    GlyphWidthShape(font, s1[lo..hi], c[lo..hi]);
    var none: seq<seq<int>> := [];
    assert [mid][..0] == none;
    assert mid[k - lo] == k;
    MarkGlyphsAt(s1, mid, k);
  }

  // ---------------------------------------------------------------------------
  // What the widening guarantees the line breaker

  /** Every stretch without a break point that ends in a glyph fits on one line. */
  ghost predicate RunsFit(cs: seq<Command>, font: Font, lineWidth: int)
  {
    forall a, b :: 0 <= a < b <= |cs| && cs[b - 1].Glyph? && (forall m :: a <= m < b ==> !CanBreak(cs[m])) ==>
      GlyphWidth(font, cs[a..b]) <= lineWidth
  }

  /** Between a widened (non-space breakable) glyph and a later plain glyph there is a break point. */
  ghost predicate WellBroken(cs: seq<Command>)
  {
    forall j, k :: 0 <= j < k < |cs| && cs[j].Glyph? && cs[j].breakable && cs[j].ch != ' ' && cs[k].Glyph? && !cs[k].breakable ==>
      exists m :: j < m < k && CanBreak(cs[m])
  }

  lemma {:induction false} GlyphWidthAppend(font: Font, a: seq<Command>, b: seq<Command>)
    ensures GlyphWidth(font, a + b) == GlyphWidth(font, a) + GlyphWidth(font, b)
    decreases |b|
  {
    if b == [] {
      assert a + b == a;
    } else {
      assert (a + b)[..|a + b| - 1] == a + b[..|b| - 1];
      GlyphWidthAppend(font, a, b[..|b| - 1]);
    }
  }

  /** A stretch inside another is no wider. */
  lemma GlyphWidthWithin(font: Font, c: seq<Command>, lo: int, a: int, b: int, hi: int)
    requires 0 <= lo <= a <= b <= hi <= |c|
    ensures GlyphWidth(font, c[a..b]) <= GlyphWidth(font, c[lo..hi])
  {
    assert c[lo..hi] == c[lo..a] + c[a..b] + c[b..hi];
    GlyphWidthAppend(font, c[lo..a] + c[a..b], c[b..hi]);
    GlyphWidthAppend(font, c[lo..a], c[a..b]);
  }

  lemma {:induction false} RunLoBelow(c: seq<Command>, a: nat, k: nat)
    requires a <= k < |c|
    requires forall m :: a <= m < k ==> !CanBreak(c[m])
    ensures RunLo(c, k) <= a
    decreases k - a
  {
    if a < k {
      RunLoBelow(c, a, k - 1);
    }
  }

  /** Two positions with no break point between them share their run. */
  lemma {:induction false} SameRun(c: seq<Command>, j: nat, k: nat)
    requires j <= k < |c|
    requires forall m :: j <= m <= k ==> !CanBreak(c[m])
    ensures RunLo(c, j) == RunLo(c, k) && RunEnd(c, j) == RunEnd(c, k)
    decreases k - j
  {
    if j < k {
      SameRun(c, j + 1, k);
    }
  }

  /** Widening keeps every break point, and the shape of every command. */
  lemma WidenShape(c: seq<Command>, font: Font, lineWidth: int)
    ensures SameShape(Widen(c, font, lineWidth), c)
    ensures forall k :: 0 <= k < |c| && CanBreak(c[k]) ==> CanBreak(Widen(c, font, lineWidth)[k])
  {
    MarkSpansShape(c, font, lineWidth, Spans(Range(0, |c|), BreakAt(c)));
    forall k | 0 <= k < |c| && CanBreak(c[k])
      ensures CanBreak(Widen(c, font, lineWidth)[k])
    {
      WidenAt(c, font, lineWidth, k);
    }
  }

  /** After widening, every stretch without a break point that ends in a glyph fits. */
  lemma WidenedRunsFit(c: seq<Command>, font: Font, lineWidth: int)
    ensures RunsFit(Widen(c, font, lineWidth), font, lineWidth)
  {
    var w := Widen(c, font, lineWidth);
    WidenShape(c, font, lineWidth);
    forall k | 0 <= k < |c|
      ensures WidenedAt(w, c, font, lineWidth, k)
    {
      WidenAt(c, font, lineWidth, k);
    }
    StretchesFit(w, c, font, lineWidth);
  }

  /** RunsFit of any list widened from c at every index. */
  lemma StretchesFit(w: seq<Command>, c: seq<Command>, font: Font, lineWidth: int)
    requires SameShape(w, c)
    requires forall k :: 0 <= k < |c| && CanBreak(c[k]) ==> CanBreak(w[k])
    requires forall k :: 0 <= k < |c| ==> WidenedAt(w, c, font, lineWidth, k)
    ensures RunsFit(w, font, lineWidth)
  {
    forall a, b | 0 <= a < b <= |w| && w[b - 1].Glyph? && (forall m :: a <= m < b ==> !CanBreak(w[m]))
      ensures GlyphWidth(font, w[a..b]) <= lineWidth
    {
      StretchFits(w, c, font, lineWidth, a, b);
    }
  }

  /** The command widening leaves at k: marked when its run is too wide, unchanged otherwise. */
  ghost predicate WidenedAt(w: seq<Command>, c: seq<Command>, font: Font, lineWidth: int, k: nat)
    requires k < |c| && |w| == |c|
  {
    w[k] == if !CanBreak(c[k]) && GlyphWidth(font, c[RunLo(c, k)..RunEnd(c, k)]) > lineWidth then Marked(c[k]) else c[k]
  }

  lemma StretchFits(w: seq<Command>, c: seq<Command>, font: Font, lineWidth: int, a: nat, b: nat)
    requires SameShape(w, c)
    requires forall k :: 0 <= k < |c| && CanBreak(c[k]) ==> CanBreak(w[k])
    requires a < b <= |c| && w[b - 1].Glyph? && WidenedAt(w, c, font, lineWidth, b - 1)
    requires forall m :: a <= m < b ==> !CanBreak(w[m])
    ensures GlyphWidth(font, w[a..b]) <= lineWidth
  {
    assert forall m :: a <= m < b ==> !CanBreak(c[m]);
    RunLoBelow(c, a, b - 1);
    var lo, hi := RunLo(c, b - 1), RunEnd(c, b - 1);
    assert !CanBreak(w[b - 1]);
    assert GlyphWidth(font, c[lo..hi]) <= lineWidth;
    GlyphWidthWithin(font, c, lo, a, b, hi);
    SliceShape(w, c, font, a, b);
  }

  lemma SliceShape(w: seq<Command>, c: seq<Command>, font: Font, a: nat, b: nat)
    requires SameShape(w, c) && a <= b <= |c|
    ensures GlyphWidth(font, w[a..b]) == GlyphWidth(font, c[a..b])
  {
    assert SameShape(w[a..b], c[a..b]);
    GlyphWidthShape(font, w[a..b], c[a..b]);
  }

  /** After widening commands in which only spaces were breakable, marked glyphs are fenced off from plain ones. */
  lemma WidenedWellBroken(c: seq<Command>, font: Font, lineWidth: int)
    requires OnlySpacesBreakable(c)
    ensures WellBroken(Widen(c, font, lineWidth))
  {
    var w := Widen(c, font, lineWidth);
    WidenShape(c, font, lineWidth);
    forall j, k | 0 <= j < k < |w| && w[j].Glyph? && w[j].breakable && w[j].ch != ' ' && w[k].Glyph? && !w[k].breakable
      ensures exists m :: j < m < k && CanBreak(w[m])
    {
      WidenAt(c, font, lineWidth, j);
      WidenAt(c, font, lineWidth, k);
      var m := FenceBetween(w, c, font, lineWidth, j, k);
    }
  }

  lemma FenceBetween(w: seq<Command>, c: seq<Command>, font: Font, lineWidth: int, j: nat, k: nat) returns (m: nat)
    requires OnlySpacesBreakable(c)
    requires SameShape(w, c)
    requires forall i :: 0 <= i < |c| && CanBreak(c[i]) ==> CanBreak(w[i])
    requires j < k < |c|
    requires WidenedAt(w, c, font, lineWidth, j) && WidenedAt(w, c, font, lineWidth, k)
    requires w[j].Glyph? && w[j].breakable && w[j].ch != ' ' && w[k].Glyph? && !w[k].breakable
    ensures j < m < k && CanBreak(w[m])
  {
    var hi := RunEnd(c, j);
    if hi > k {
      SameRun(c, j, k);
    }
    m := hi;
  }
}

/**
 * floodfill: recolours the 4-connected region around a seed pixel whose
 * pixels share the seed's value. The canvas is a flat row-major array of
 * width*height 32-bit pixels, updated in place; the work list is a stack of
 * coordinates and a `done` array marks the pixels already visited.
 */
module BlitsyFill {
  import opened JsNumbers

  type Coord = (int, int)

  predicate Within(w: int, h: int, p: Coord)
  {
    0 <= p.0 < w && 0 <= p.1 < h
  }

  /** `y * width + x`: the position of a pixel in the flat array. */
  function Idx(w: int, p: Coord): int
  {
    p.1 * w + p.0
  }

  /** The pixel at a position of the flat array. */
  function CoordOf(w: int, i: int): Coord
    requires w > 0
  {
    (i % w, i / w)
  }

  /** Left, right, up and down, in the order floodfill tries them. */
  function Neighbours(p: Coord): seq<Coord>
  {
    [(p.0 - 1, p.1), (p.0 + 1, p.1), (p.0, p.1 - 1), (p.0, p.1 + 1)]
  }

  /** The pixel is on the canvas and originally held the value `initial`. */
  ghost predicate Open(w: int, h: int, orig: seq<int>, initial: int, p: Coord)
  {
    Within(w, h, p) && 0 <= Idx(w, p) < |orig| && orig[Idx(w, p)] == initial
  }

  /** A walk from the seed through neighbouring pixels, all with the seed's value. */
  ghost predicate IsPath(w: int, h: int, orig: seq<int>, seed: Coord, path: seq<Coord>)
  {
    && |path| >= 1 && path[0] == seed
    && Within(w, h, seed) && 0 <= Idx(w, seed) < |orig|
    && (forall k :: 0 <= k < |path| ==> Open(w, h, orig, orig[Idx(w, seed)], path[k]))
    && (forall k :: 0 <= k < |path| - 1 ==> path[k + 1] in Neighbours(path[k]))
  }

  /** The fill region: every pixel some walk from the seed reaches. */
  ghost predicate Reachable(w: int, h: int, orig: seq<int>, seed: Coord, p: Coord)
  {
    exists path :: IsPath(w, h, orig, seed, path) && path[|path| - 1] == p
  }

  // ---------------------------------------------------------------------------
  // The region

  /** The seed, when on the canvas, belongs to its own region. */
  lemma SeedReachable(w: int, h: int, orig: seq<int>, seed: Coord)
    requires Within(w, h, seed) && |orig| == w * h
    ensures Reachable(w, h, orig, seed, seed)
  {
    IdxRange(w, h, seed);
    assert IsPath(w, h, orig, seed, [seed]);
  }

  /** The region holds only pixels on the canvas that had the seed's value. */
  lemma ReachableOpen(w: int, h: int, orig: seq<int>, seed: Coord, p: Coord)
    requires Reachable(w, h, orig, seed, p)
    ensures Within(w, h, p) && Open(w, h, orig, orig[Idx(w, seed)], p)
  {
    var path :| IsPath(w, h, orig, seed, path) && path[|path| - 1] == p;
    assert Open(w, h, orig, orig[Idx(w, seed)], path[|path| - 1]);
  }

  /** The region is closed: a neighbour with the seed's value is in it too. */
  lemma ReachableStep(w: int, h: int, orig: seq<int>, seed: Coord, p: Coord, q: Coord)
    requires Reachable(w, h, orig, seed, p)
    requires q in Neighbours(p) && Within(w, h, seed) && 0 <= Idx(w, seed) < |orig|
    requires Open(w, h, orig, orig[Idx(w, seed)], q)
    ensures Reachable(w, h, orig, seed, q)
  {
    var path :| IsPath(w, h, orig, seed, path) && path[|path| - 1] == p;
    assert IsPath(w, h, orig, seed, path + [q]);
  }

  /**
   * Every pixel of a walk lies in any set that holds the seed and every
   * seed-valued neighbour of its members; so the region is the smallest such set.
   */
  lemma {:induction false} PathInside(w: int, h: int, orig: seq<int>, seed: Coord, path: seq<Coord>, inside: Coord -> bool)
    requires IsPath(w, h, orig, seed, path) && inside(seed)
    requires forall p, q :: inside(p) && q in Neighbours(p) && Open(w, h, orig, orig[Idx(w, seed)], q) ==> inside(q)
    ensures inside(path[|path| - 1])
    decreases |path|
  {
    if |path| > 1 {
      var prefix := path[..|path| - 1];
      assert IsPath(w, h, orig, seed, prefix);
      PathInside(w, h, orig, seed, prefix, inside);
      assert path[|path| - 1] in Neighbours(path[|path| - 2]);
      assert Open(w, h, orig, orig[Idx(w, seed)], path[|path| - 1]);
    }
  }

  // ---------------------------------------------------------------------------
  // Flat indices

  lemma IdxRange(w: int, h: int, p: Coord)
    requires Within(w, h, p)
    ensures 0 <= Idx(w, p) < w * h
  {
    MulAtLeast(h - p.1, w);
    assert (h - p.1) * w == h * w - p.1 * w;
  }

  /** An on-canvas pixel's index leads back to it. */
  lemma CoordIdx(w: int, h: int, p: Coord)
    requires Within(w, h, p)
    ensures CoordOf(w, Idx(w, p)) == p && 0 <= Idx(w, p) < w * h
  {
    IdxRange(w, h, p);
    DivUnique(Idx(w, p), w, p.1, p.0);
  }

  /** Every index of the canvas is the index of an on-canvas pixel. */
  lemma IdxCoord(w: int, h: int, i: int)
    requires w > 0 && 0 <= i < w * h
    ensures Within(w, h, CoordOf(w, i)) && Idx(w, CoordOf(w, i)) == i
  {
    var y := i / w;
    if y >= h {
      MulAtLeast(y - h + 1, w);
      assert false;
    }
  }

  // ---------------------------------------------------------------------------
  // The fill

  /**
   * enqueue: push a pixel that is on the canvas, still holds the seed's value
   * and is not done yet; otherwise leave the stack as it is.
   */
  function Enqueue(queue: seq<Coord>, w: int, h: int, pixels: seq<int>, done: seq<bool>,
                   initial: int, p: Coord): seq<Coord>
    requires |pixels| == |done| == w * h
  {
    if Pushable(w, h, pixels, done, initial, p) then queue + [p] else queue
  }

  /** The four enqueue calls after a pixel is visited. */
  function Offer(queue: seq<Coord>, w: int, h: int, pixels: seq<int>, done: seq<bool>,
                 initial: int, p: Coord): seq<Coord>
    requires |pixels| == |done| == w * h
  {
    var q1 := Enqueue(queue, w, h, pixels, done, initial, (p.0 - 1, p.1));
    var q2 := Enqueue(q1, w, h, pixels, done, initial, (p.0 + 1, p.1));
    var q3 := Enqueue(q2, w, h, pixels, done, initial, (p.0, p.1 - 1));
    Enqueue(q3, w, h, pixels, done, initial, (p.0, p.1 + 1))
  }

  lemma OfferUnfold(queue: seq<Coord>, w: int, h: int, pixels: seq<int>, done: seq<bool>,
                    initial: int, p: Coord)
    requires |pixels| == |done| == w * h
    ensures Offer(queue, w, h, pixels, done, initial, p) ==
      Enqueue(Enqueue(Enqueue(Enqueue(queue, w, h, pixels, done, initial, (p.0 - 1, p.1)),
        w, h, pixels, done, initial, (p.0 + 1, p.1)),
        w, h, pixels, done, initial, (p.0, p.1 - 1)),
        w, h, pixels, done, initial, (p.0, p.1 + 1))
  {
  }

  /** The condition under which enqueue pushes p. */
  predicate Pushable(w: int, h: int, pixels: seq<int>, done: seq<bool>, initial: int, p: Coord)
    requires |pixels| == |done| == w * h
  {
    Within(w, h, p) && (IdxRange(w, h, p); pixels[Idx(w, p)] == initial && !done[Idx(w, p)])
  }

  /** Every seed-valued neighbour of p is done or waiting on the stack. */
  ghost predicate Handled(w: int, h: int, orig: seq<int>, initial: int, done: seq<bool>,
                          queue: seq<Coord>, p: Coord)
  {
    forall q :: q in Neighbours(p) && Open(w, h, orig, initial, q) ==>
      (0 <= Idx(w, q) < |done| && done[Idx(w, q)]) || q in queue
  }

  function CountFalse(done: seq<bool>): nat
  {
    if done == [] then 0 else CountFalse(done[..|done| - 1]) + (if done[|done| - 1] then 0 else 1)
  }

  /** How many stack entries are pixels already done. */
  function CountDone(w: int, done: seq<bool>, queue: seq<Coord>): nat
  {
    if queue == [] then 0
    else
      var p := queue[|queue| - 1];
      CountDone(w, done, queue[..|queue| - 1]) + (if 0 <= Idx(w, p) < |done| && done[Idx(w, p)] then 1 else 0)
  }

  /**
   * What holds between iterations: done pixels hold the colour and the rest
   * their old value; everything on the stack or done is in the region; a done
   * pixel's seed-valued neighbours are done or on the stack; the seed is done
   * or on the stack.
   */
  ghost predicate FillState(w: int, h: int, orig: seq<int>, seed: Coord, colour: int,
                            pixels: seq<int>, done: seq<bool>, queue: seq<Coord>)
  {
    && w > 0 && |pixels| == |done| == |orig| == w * h
    && Within(w, h, seed) && 0 <= Idx(w, seed) < |orig|
    && (forall i :: 0 <= i < |pixels| ==> pixels[i] == if done[i] then colour else orig[i])
    && (forall k :: 0 <= k < |queue| ==> Within(w, h, queue[k]) && Reachable(w, h, orig, seed, queue[k]))
    && (forall i :: 0 <= i < |done| && done[i] ==>
          Reachable(w, h, orig, seed, CoordOf(w, i)) &&
          Handled(w, h, orig, orig[Idx(w, seed)], done, queue, CoordOf(w, i)))
    && (done[Idx(w, seed)] || seed in queue)
  }

  /** The start: nothing done, the seed alone on the stack. */
  lemma FillStart(w: int, h: int, orig: seq<int>, seed: Coord, colour: int, done: seq<bool>)
    requires |orig| == |done| == w * h && Within(w, h, seed)
    requires forall i :: 0 <= i < |done| ==> !done[i]
    ensures FillState(w, h, orig, seed, colour, orig, done, [seed])
  {
    SeedReachable(w, h, orig, seed);
  }

  /** The end: with the stack empty, done is exactly the region. */
  lemma FillEnd(w: int, h: int, orig: seq<int>, seed: Coord, colour: int, pixels: seq<int>, done: seq<bool>)
    requires FillState(w, h, orig, seed, colour, pixels, done, [])
    ensures forall i :: 0 <= i < |pixels| ==>
      pixels[i] == if Reachable(w, h, orig, seed, CoordOf(w, i)) then colour else orig[i]
  {
    var inside := (p: Coord) => Within(w, h, p) && 0 <= Idx(w, p) < |done| && done[Idx(w, p)];
    forall p, q | inside(p) && q in Neighbours(p) && Open(w, h, orig, orig[Idx(w, seed)], q)
      ensures inside(q)
    {
      CoordIdx(w, h, p);
      assert Handled(w, h, orig, orig[Idx(w, seed)], done, [], CoordOf(w, Idx(w, p)));
    }
    forall i | 0 <= i < |pixels| && Reachable(w, h, orig, seed, CoordOf(w, i))
      ensures done[i]
    {
      var path :| IsPath(w, h, orig, seed, path) && path[|path| - 1] == CoordOf(w, i);
      PathInside(w, h, orig, seed, path, inside);
      IdxCoord(w, h, i);
    }
  }

  /** Dropping the top of the stack and marking it done keeps every done pixel handled. */
  lemma PopHandled(w: int, h: int, orig: seq<int>, initial: int, done: seq<bool>,
                   queue: seq<Coord>, idx: int, c: Coord)
    requires queue != [] && 0 <= idx < |done| && idx == Idx(w, queue[|queue| - 1])
    requires Handled(w, h, orig, initial, done, queue, c)
    ensures Handled(w, h, orig, initial, done[idx := true], queue[..|queue| - 1], c)
  {
    var front := queue[..|queue| - 1];
    forall q | q in Neighbours(c) && Open(w, h, orig, initial, q) && q !in front
      ensures 0 <= Idx(w, q) < |done| && done[idx := true][Idx(w, q)]
    {
      if !(0 <= Idx(w, q) < |done| && done[Idx(w, q)]) {
        assert q in queue;
        assert queue == front + [queue[|queue| - 1]];
      }
    }
  }

  /** Pushing onto the stack keeps every done pixel handled. */
  lemma PushHandled(w: int, h: int, orig: seq<int>, initial: int, done: seq<bool>,
                    queue: seq<Coord>, more: seq<Coord>, c: Coord)
    requires Handled(w, h, orig, initial, done, queue, c)
    ensures Handled(w, h, orig, initial, done, queue + more, c)
  {
  }

  /** The top of the stack, once done and its four neighbours offered, is handled. */
  lemma VisitHandled(w: int, h: int, orig: seq<int>, seed: Coord, colour: int,
                     pixels: seq<int>, done: seq<bool>, queue: seq<Coord>, p: Coord)
    requires |pixels| == |done| == |orig| == w * h && Within(w, h, p)
    requires 0 <= Idx(w, seed) < |orig| && 0 <= Idx(w, p) < |done| && done[Idx(w, p)]
    requires forall i :: 0 <= i < |pixels| ==> pixels[i] == if done[i] then colour else orig[i]
    ensures Handled(w, h, orig, orig[Idx(w, seed)], done,
                    Offer(queue, w, h, pixels, done, orig[Idx(w, seed)], p), p)
  {
    var initial := orig[Idx(w, seed)];
    forall q | q in Neighbours(p) && Open(w, h, orig, initial, q) && !done[Idx(w, q)]
      ensures q in Offer(queue, w, h, pixels, done, initial, p)
    {
      assert pixels[Idx(w, q)] == initial;
      OfferHas(queue, w, h, pixels, done, initial, p, q);
    }
  }

  /** A neighbour enqueue accepts ends up on the stack. */
  lemma OfferHas(queue: seq<Coord>, w: int, h: int, pixels: seq<int>, done: seq<bool>,
                 initial: int, p: Coord, q: Coord)
    requires |pixels| == |done| == w * h
    requires q in Neighbours(p) && Pushable(w, h, pixels, done, initial, q)
    ensures q in Offer(queue, w, h, pixels, done, initial, p)
  {
    var q1 := Enqueue(queue, w, h, pixels, done, initial, (p.0 - 1, p.1));
    var q2 := Enqueue(q1, w, h, pixels, done, initial, (p.0 + 1, p.1));
    var q3 := Enqueue(q2, w, h, pixels, done, initial, (p.0, p.1 - 1));
    var q4 := Enqueue(q3, w, h, pixels, done, initial, (p.0, p.1 + 1));
    assert q1 <= q2 <= q3 <= q4;
  }

  /** The stack after the offers is the old one with some seed-valued, not yet done neighbours on top. */
  lemma OfferShape(queue: seq<Coord>, w: int, h: int, pixels: seq<int>, done: seq<bool>,
                   initial: int, p: Coord)
    requires |pixels| == |done| == w * h
    ensures var r := Offer(queue, w, h, pixels, done, initial, p);
      |r| >= |queue| && r[..|queue|] == queue &&
      forall k :: |queue| <= k < |r| ==> r[k] in Neighbours(p) && Pushable(w, h, pixels, done, initial, r[k])
  {
  }

  lemma {:induction false} CountFalseSet(done: seq<bool>, i: int)
    requires 0 <= i < |done| && !done[i]
    ensures CountFalse(done[i := true]) == CountFalse(done) - 1
    decreases |done|
  {
    var last := |done| - 1;
    assert done[i := true][..last] == if i < last then done[..last][i := true] else done[..last];
    if i < last {
      CountFalseSet(done[..last], i);
    }
  }

  lemma {:induction false} CountDoneAppend(w: int, done: seq<bool>, queue: seq<Coord>, more: seq<Coord>)
    requires forall k :: 0 <= k < |more| ==> !(0 <= Idx(w, more[k]) < |done| && done[Idx(w, more[k])])
    ensures CountDone(w, done, queue + more) == CountDone(w, done, queue)
    decreases |more|
  {
    if more != [] {
      var shorter := more[..|more| - 1];
      assert (queue + more)[..|queue + more| - 1] == queue + shorter;
      CountDoneAppend(w, done, queue, shorter);
    } else {
      assert queue + more == queue;
    }
  }

  /**
   * One iteration: pop p, colour it, mark it done, and offer its four
   * neighbours to enqueue.
   */
  ghost predicate Iteration(w: int, h: int, orig: seq<int>, seed: Coord, colour: int,
                            pixels: seq<int>, done: seq<bool>, queue: seq<Coord>,
                            pixels': seq<int>, done': seq<bool>, queue': seq<Coord>)
  {
    && queue != [] && |pixels| == |done| == |orig| == w * h && 0 <= Idx(w, seed) < |orig|
    && 0 <= Idx(w, queue[|queue| - 1]) < w * h
    && var idx := Idx(w, queue[|queue| - 1]);
    && pixels' == pixels[idx := colour] && done' == done[idx := true]
    && queue' == Offer(queue[..|queue| - 1], w, h, pixels', done', orig[Idx(w, seed)], queue[|queue| - 1])
  }

  /** One iteration keeps the fill state and moves the termination measure down. */
  lemma Step(w: int, h: int, orig: seq<int>, seed: Coord, colour: int,
             pixels: seq<int>, done: seq<bool>, queue: seq<Coord>,
             pixels': seq<int>, done': seq<bool>, queue': seq<Coord>)
    requires FillState(w, h, orig, seed, colour, pixels, done, queue)
    requires Iteration(w, h, orig, seed, colour, pixels, done, queue, pixels', done', queue')
    ensures FillState(w, h, orig, seed, colour, pixels', done', queue')
    ensures CountFalse(done') < CountFalse(done) ||
      (CountFalse(done') == CountFalse(done) && CountDone(w, done', queue') < CountDone(w, done, queue))
  {
    StepQueue(w, h, orig, seed, colour, pixels, done, queue, pixels', done', queue');
    StepDone(w, h, orig, seed, colour, pixels, done, queue, pixels', done', queue');
    StepMeasure(w, h, orig, seed, colour, pixels, done, queue, pixels', done', queue');
    var p := queue[|queue| - 1];
    if !done'[Idx(w, seed)] {
      assert seed in queue[..|queue| - 1];
      OfferShape(queue[..|queue| - 1], w, h, pixels', done', orig[Idx(w, seed)], p);
      assert seed in queue';
    }
  }

  /** The stack after an iteration still holds only region pixels. */
  lemma StepQueue(w: int, h: int, orig: seq<int>, seed: Coord, colour: int,
                  pixels: seq<int>, done: seq<bool>, queue: seq<Coord>,
                  pixels': seq<int>, done': seq<bool>, queue': seq<Coord>)
    requires FillState(w, h, orig, seed, colour, pixels, done, queue)
    requires Iteration(w, h, orig, seed, colour, pixels, done, queue, pixels', done', queue')
    ensures forall k :: 0 <= k < |queue'| ==>
      Within(w, h, queue'[k]) && Reachable(w, h, orig, seed, queue'[k])
  {
    var p := queue[|queue| - 1];
    var front := queue[..|queue| - 1];
    OfferShape(front, w, h, pixels', done', orig[Idx(w, seed)], p);
    assert Reachable(w, h, orig, seed, p);
    forall k | 0 <= k < |queue'|
      ensures Within(w, h, queue'[k]) && Reachable(w, h, orig, seed, queue'[k])
    {
      if k >= |front| {
        var q := queue'[k];
        IdxRange(w, h, q);
        ReachableStep(w, h, orig, seed, p, q);
      } else {
        assert queue'[k] == queue'[..|front|][k] == front[k];
      }
    }
  }

  /** After an iteration every done pixel is in the region and handled. */
  lemma StepDone(w: int, h: int, orig: seq<int>, seed: Coord, colour: int,
                 pixels: seq<int>, done: seq<bool>, queue: seq<Coord>,
                 pixels': seq<int>, done': seq<bool>, queue': seq<Coord>)
    requires FillState(w, h, orig, seed, colour, pixels, done, queue)
    requires Iteration(w, h, orig, seed, colour, pixels, done, queue, pixels', done', queue')
    ensures forall i :: 0 <= i < |done'| && done'[i] ==>
      Reachable(w, h, orig, seed, CoordOf(w, i)) &&
      Handled(w, h, orig, orig[Idx(w, seed)], done', queue', CoordOf(w, i))
  {
    var p := queue[|queue| - 1];
    var idx := Idx(w, p);
    var front := queue[..|queue| - 1];
    var initial := orig[Idx(w, seed)];
    CoordIdx(w, h, p);
    OfferShape(front, w, h, pixels', done', initial, p);
    var more := queue'[|front|..];
    assert queue' == front + more;
    VisitHandled(w, h, orig, seed, colour, pixels', done', front, p);
    forall i | 0 <= i < |done'| && done'[i]
      ensures Reachable(w, h, orig, seed, CoordOf(w, i)) &&
        Handled(w, h, orig, initial, done', queue', CoordOf(w, i))
    {
      if i != idx {
        PopHandled(w, h, orig, initial, done, queue, idx, CoordOf(w, i));
        PushHandled(w, h, orig, initial, done', front, more, CoordOf(w, i));
      }
    }
  }

  /** An iteration either finishes a pixel or drops a stack entry already done. */
  lemma StepMeasure(w: int, h: int, orig: seq<int>, seed: Coord, colour: int,
                    pixels: seq<int>, done: seq<bool>, queue: seq<Coord>,
                    pixels': seq<int>, done': seq<bool>, queue': seq<Coord>)
    requires Iteration(w, h, orig, seed, colour, pixels, done, queue, pixels', done', queue')
    ensures CountFalse(done') < CountFalse(done) ||
      (CountFalse(done') == CountFalse(done) && CountDone(w, done', queue') < CountDone(w, done, queue))
  {
    var p := queue[|queue| - 1];
    var idx := Idx(w, p);
    var front := queue[..|queue| - 1];
    if !done[idx] {
      CountFalseSet(done, idx);
    } else {
      assert done' == done;
      OfferShape(front, w, h, pixels', done', orig[Idx(w, seed)], p);
      var more := queue'[|front|..];
      assert queue' == front + more;
      CountDoneAppend(w, done, front, more);
    }
  }

  /**
   * floodfill: afterwards a pixel holds `color` (as a 32-bit pixel value) when
   * it is in the seed's region, and its old value otherwise.
   */
  method Floodfill(pixels: array<int>, width: nat, height: nat, x: int, y: int, color: int)
    requires pixels.Length == width * height && Within(width, height, (x, y))
    modifies pixels
    ensures forall i :: 0 <= i < pixels.Length ==>
      pixels[i] == if Reachable(width, height, old(pixels[..]), (x, y), CoordOf(width, i))
                   then Uint32(color) else old(pixels[i])
  {
    ghost var orig := pixels[..];
    var seed := (x, y);
    IdxRange(width, height, seed);
    var queue: seq<Coord> := [seed];
    var done := new bool[width * height](_ => false);
    var initial := pixels[Idx(width, seed)];
    FillStart(width, height, orig, seed, Uint32(color), done[..]);
    while |queue| > 0
      invariant done.Length == pixels.Length
      invariant FillState(width, height, orig, seed, Uint32(color), pixels[..], done[..], queue)
      decreases CountFalse(done[..]), CountDone(width, done[..], queue)
    {
      var p := queue[|queue| - 1];
      ghost var (before, pixelsBefore, doneBefore) := (queue, pixels[..], done[..]);
      queue := queue[..|queue| - 1];
      CoordIdx(width, height, p);
      var idx := Idx(width, p);
      pixels[idx] := Uint32(color);
      done[idx] := true;
      assert pixels[..] == pixelsBefore[idx := Uint32(color)];
      assert done[..] == doneBefore[idx := true];
      ghost var front := queue;

      ghost var (pixelsAfter, doneAfter) := (pixels[..], done[..]);
      queue := Enqueue(queue, width, height, pixels[..], done[..], initial, (p.0 - 1, p.1));
      queue := Enqueue(queue, width, height, pixels[..], done[..], initial, (p.0 + 1, p.1));
      queue := Enqueue(queue, width, height, pixels[..], done[..], initial, (p.0, p.1 - 1));
      queue := Enqueue(queue, width, height, pixels[..], done[..], initial, (p.0, p.1 + 1));
      OfferUnfold(front, width, height, pixelsAfter, doneAfter, initial, p);
      assert Iteration(width, height, orig, seed, Uint32(color), pixelsBefore, doneBefore, before,
                       pixelsAfter, doneAfter, queue);
      Step(width, height, orig, seed, Uint32(color), pixelsBefore, doneBefore, before, pixels[..], done[..], queue);
    }
    FillEnd(width, height, orig, seed, Uint32(color), pixels[..], done[..]);
  }
}

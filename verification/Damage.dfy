/** From damage rectangles to a list of damaged byte intervals. */
module Damage {
  import opened Bytes
  import opened Intervals
  import opened UnionDamage
  import opened DamageRows
  import opened DamageSweep

  ghost predicate AllAligned(l: seq<Interval>, alignBits: nat) {
    forall i :: 0 <= i < |l| ==> Aligned(l[i], alignBits)
  }

  ghost predicate InBound(l: seq<Interval>, bound: Interval) {
    forall i :: 0 <= i < |l| ==> bound.lo <= l[i].lo && l[i].hi <= bound.hi
  }

  ghost predicate CoversAll(l: seq<Interval>, s: set<Interval>) {
    forall a, x :: a in s && a.Has(x) ==> Covers(l, x)
  }

  /** What every list of damage promises: valid, aligned, in place and covering every row. */
  ghost predicate GoodDamage(l: seq<Interval>, rects: seq<Rect>, lay: Layout, bound: Interval)
    requires AllValid(rects)
  {
    && Separated(l, Max(lay.minGap, 1))
    && AllAligned(l, lay.alignBits)
    && InBound(l, bound)
    && CoversAll(l, AllRows(rects, lay))
  }

  lemma ClosureShape(l: seq<Interval>, s: set<Interval>, rects: seq<Rect>, lay: Layout, bound: Interval)
    requires AllValid(rects) && lay.bpp > 0 && Bounds(rects, lay, bound)
    requires s <= AllPieces(rects, lay) && IsClosure(l, s, lay.minGap)
    ensures AllAligned(l, lay.alignBits) && InBound(l, bound) && Nonempty(s)
  {
    forall p | p in s ensures p.lo < p.hi && Aligned(p, lay.alignBits) && bound.lo <= p.lo && p.hi <= bound.hi {
      PieceShape(rects, lay, bound, p);
    }
    hide AllPieces;
    forall i | 0 <= i < |l| ensures Aligned(l[i], lay.alignBits) && bound.lo <= l[i].lo && l[i].hi <= bound.hi {
      assert Starts(s, l[i].lo) && Ends(s, l[i].hi);
    }
  }

  /** The sweep ran to the end: the result is the gap closure of the rows. */
  lemma SweptAll(l: seq<Interval>, rects: seq<Rect>, lay: Layout, bound: Interval)
    requires AllValid(rects) && lay.bpp > 0 && Bounds(rects, lay, bound)
    requires IsClosure(l, AllPieces(rects, lay), lay.minGap)
    ensures l == Closure(AllRows(rects, lay), lay.minGap)
    ensures GoodDamage(l, rects, lay, bound)
  {
    ClosureShape(l, AllPieces(rects, lay), rects, lay, bound);
    PiecesAsRows(rects, lay);
    ClosureUnique(l, AllPieces(rects, lay), lay.minGap);
    ClosureIs(AllRows(rects, lay), lay.minGap);
  }

  /** The last interval of a list reaches further. */
  lemma LastGrows(segs: seq<Interval>, cur: Interval, lay: Layout, bound: Interval)
    requires Separated(segs + [cur], Max(lay.minGap, 1)) && AllAligned(segs + [cur], lay.alignBits) &&
      InBound(segs + [cur], bound)
    requires bound.hi % lay.Unit() == 0
    ensures var l := segs + [Interval(cur.lo, bound.hi)];
      Separated(l, Max(lay.minGap, 1)) && AllAligned(l, lay.alignBits) && InBound(l, bound)
  {
    var l, l' := segs + [cur], segs + [Interval(cur.lo, bound.hi)];
    assert l[|segs|] == cur;
    assert forall i :: 0 <= i < |segs| ==> l'[i] == l[i] && l[i] == segs[i];
  }

  lemma CutShortCovers(segs: seq<Interval>, cur: Interval, rects: seq<Rect>, lay: Layout, bound: Interval,
                       counters: seq<Option<nat>>, heap: Heap, done: set<Interval>, row: Interval, x: int)
    requires lay.bpp > 0 && Bounds(rects, lay, bound)
    requires Sweeping(rects, lay, counters, heap, done)
    requires IsClosure(segs + [cur], done, lay.minGap) && cur.hi <= bound.hi
    requires row in AllRows(rects, lay) && row.Has(x)
    ensures Covers(segs + [Interval(cur.lo, bound.hi)], x)
  {
    var p := RowInPiece(rects, lay, row);
    PieceShape(rects, lay, bound, p);
    CoversAppend(segs, cur, x);
    CoversAppend(segs, Interval(cur.lo, bound.hi), x);
    if p in done {
      assert p.Has(x);
      assert InClosure(done, lay.minGap, x);
    } else {
      assert Starts(done, (segs + [cur])[|segs|].lo);
      var d :| d in done && d.lo == cur.lo;
      var i := StillWaiting(rects, lay, counters, heap, done, p);
      assert d.lo <= heap[i];
    }
  }

  /** The sweep was cut short: one last interval up to the end of the group covers the rest. */
  lemma SweptSome(segs: seq<Interval>, cur: Interval, rects: seq<Rect>, lay: Layout, bound: Interval,
                  counters: seq<Option<nat>>, heap: Heap, done: set<Interval>)
    requires lay.bpp > 0 && Bounds(rects, lay, bound) && bound.hi % lay.Unit() == 0 && AllValid(rects)
    requires Sweeping(rects, lay, counters, heap, done)
    requires IsClosure(segs + [cur], done, lay.minGap)
    ensures GoodDamage(segs + [Interval(cur.lo, bound.hi)], rects, lay, bound)
  {
    VisitedArePieces(rects, lay, counters, heap, done);
    ClosureShape(segs + [cur], done, rects, lay, bound);
    LastGrows(segs, cur, lay, bound);
    assert (segs + [cur])[|segs|] == cur;
    assert cur.hi <= bound.hi;
    var l := segs + [Interval(cur.lo, bound.hi)];
    forall row, x | row in AllRows(rects, lay) && row.Has(x) ensures Covers(l, x) {
      hide *;
      CutShortCovers(segs, cur, rects, lay, bound, counters, heap, done, row, x);
    }
  }

  /** The intervals of `full` up to one of them, which reaches on to `hi` and swallows the rest. */
  ghost predicate Capped(l: seq<Interval>, full: seq<Interval>, hi: nat) {
    exists k :: 0 <= k < |full| && l == full[..k] + [Interval(full[k].lo, hi)]
  }

  lemma CutShortIsCapped(segs: seq<Interval>, cur: Interval, rects: seq<Rect>, lay: Layout, bound: Interval,
                         counters: seq<Option<nat>>, heap: Heap, done: set<Interval>)
    requires lay.bpp > 0 && AllValid(rects) && Bounds(rects, lay, bound)
    requires Sweeping(rects, lay, counters, heap, done)
    requires IsClosure(segs + [cur], done, lay.minGap)
    ensures Capped(segs + [Interval(cur.lo, bound.hi)], Closure(AllRows(rects, lay), lay.minGap), bound.hi)
  {
    hide *;
    var pieces, rest := AllPieces(rects, lay), AllPieces(rects, lay) - done;
    VisitedArePieces(rects, lay, counters, heap, done);
    ClosureShape(segs + [cur], done, rects, lay, bound);
    PiecesAsRows(rects, lay);
    forall p | p in rest ensures cur.lo <= p.lo {
      var i := StillWaiting(rects, lay, counters, heap, done, p);
      WaitingLater(segs, cur, rects, lay, counters, heap, done, i);
    }
    NonemptyPart(rest, pieces);
    ClosurePrefix(segs, cur, done, rest, lay.minGap);
    assert done + rest == pieces;
    CappedAt(segs, Closure(AllRows(rects, lay), lay.minGap), cur.lo, bound.hi);
  }

  lemma WaitingLater(segs: seq<Interval>, cur: Interval, rects: seq<Rect>, lay: Layout,
                     counters: seq<Option<nat>>, heap: Heap, done: set<Interval>, i: nat)
    requires Sweeping(rects, lay, counters, heap, done) && i in heap
    requires IsClosure(segs + [cur], done, lay.minGap)
    ensures cur.lo <= heap[i]
  {
    assert Starts(done, (segs + [cur])[|segs|].lo);
    var d :| d in done && d.lo == cur.lo;
    assert Ordered(heap, done);
  }

  lemma NonemptyPart(a: set<Interval>, b: set<Interval>)
    requires Nonempty(b) && a <= b
    ensures Nonempty(a)
  {
  }

  lemma CappedAt(segs: seq<Interval>, full: seq<Interval>, lo: nat, hi: nat)
    requires |full| > |segs| && full[..|segs|] == segs && full[|segs|].lo == lo
    ensures Capped(segs + [Interval(lo, hi)], full, hi)
  {
  }

  /** What one group yields: the closure of its rows if its work is affordable, a capped closure if not. */
  ghost predicate GroupResult(segs: seq<Interval>, rects: seq<Rect>, lay: Layout, bound: Interval)
    requires AllValid(rects) && bound.lo <= bound.hi
  {
    var full := Closure(AllRows(rects, lay), lay.minGap);
    if Affordable(rects, lay, bound) then segs == full else Capped(segs, full, bound.hi)
  }

  /** The piece that comes next, and the row counters and heap once it was visited. */
  method Visit(rects: seq<Rect>, lay: Layout, counters: seq<Option<nat>>, heap: Heap, i: nat, rest: Heap)
    returns (piece: Interval, counters': seq<Option<nat>>, heap': Heap)
    requires HeapOk(rects, lay, counters, heap) && i in heap && rest == heap - {i}
    ensures piece == NextPiece(rects[i], counters[i], lay)
    ensures counters' == counters[i := Advance(rects[i], counters[i], i, rest, lay).0]
    ensures heap' == Advance(rects[i], counters[i], i, rest, lay).1
  {
    var rect := rects[i];
    counters', heap' := counters, rest;
    match counters[i] {
      case None =>
        piece := Interval(heap[i], lay.Up(lay.At(rect.x2, rect.y2 - 1)));
      case Some(c) =>
        piece := Interval(heap[i], lay.Up(lay.At(rect.x2, rect.y1 + c)));
        counters' := counters[i := Some(c + 1)];
        if c + 1 < rect.y2 - rect.y1 {
          heap' := rest[i := lay.Down(lay.At(rect.x1, rect.y1 + (c + 1)))];
        }
    }
  }

  /**
   * Merge the rows of a group of rectangles whose spans lie in `bound`.
   * `exhausted` tells that the work budget was hit, `steps` counts heap steps.
   */
  method ProcessGroup(rects: seq<Rect>, bound: Interval, lay: Layout)
    returns (segs: seq<Interval>, ghost exhausted: bool, ghost steps: nat)
    requires AllValid(rects) && lay.bpp > 0 && Bounds(rects, lay, bound)
    requires bound.lo <= bound.hi && bound.hi % lay.Unit() == 0
    ensures GoodDamage(segs, rects, lay, bound)
    ensures exhausted <==> GroupWork(rects, lay) > (bound.hi - bound.lo) / 8
    ensures GroupResult(segs, rects, lay, bound)
    ensures steps <= (bound.hi - bound.lo) / 32 + 1 && steps <= PieceCount(rects, lay, |rects|)
  {
    hide *;
    var counters, heap := StartSweep(rects, lay);
    StartFacts(rects, lay);
    segs, exhausted, steps := [], false, 0;
    var cur: Option<Interval> := None;
    ghost var done: set<Interval> := {};
    var work := 0;
    var budget := (bound.hi - bound.lo) / 8;
    NothingSwept(lay.minGap);
    while |heap| > 0
      invariant Sweeping(rects, lay, counters, heap, done)
      invariant IsClosure(Pending(segs, cur), done, lay.minGap)
      invariant cur.None? ==> segs == []
      invariant 4 * steps <= work <= budget
      invariant HeapOk(rects, lay, counters, heap)
      invariant work + SweepWork(rects, lay, counters, heap) == GroupWork(rects, lay)
      invariant steps + Remaining(rects, lay, counters, heap, |rects|) == PieceCount(rects, lay, |rects|)
      decreases budget - work
    {
      var i, rest := PopNext(heap);
      FirstIn(rects, lay, counters, heap, i);
      SweepStep(rects, lay, counters, heap, done, i);
      SweepFacts(Pending(segs, cur), rects, lay, bound, counters, heap, done, i);
      SweepWorkStep(rects, lay, counters, heap, i);
      RemainingStep(rects, lay, counters, heap, i);
      var piece;
      piece, counters, heap := Visit(rects, lay, counters, heap, i, rest);
      PieceShape(rects, lay, bound, piece);
      AbsorbClosure(Pending(segs, cur), done, lay.minGap, piece);
      segs, cur := Extend(segs, cur, piece, lay.minGap);
      done := done + {piece};
      steps := steps + 1;
      CostBound(rects, lay, counters, heap);
      work := work + StepCost(|heap|);
      if work > budget {
        exhausted := true;
        PendingIs(segs, cur.value);
        SweptSome(segs, cur.value, rects, lay, bound, counters, heap, done);
        CutShortIsCapped(segs, cur.value, rects, lay, bound, counters, heap, done);
        segs := segs + [Interval(cur.value.lo, bound.hi)];
        ResultCapped(segs, rects, lay, bound);
        return;
      }
    }
    SweepWorkDone(rects, lay, counters, heap);
    AllVisited(rects, lay, counters, heap, done);
    segs := Pending(segs, cur);
    SweptAll(segs, rects, lay, bound);
    ResultExact(segs, rects, lay, bound);
  }

  lemma StartFacts(rects: seq<Rect>, lay: Layout)
    requires AllValid(rects)
    ensures var counters, heap := StartCounters(rects, lay), StartHeap(rects, lay);
      && Sweeping(rects, lay, counters, heap, {}) && HeapOk(rects, lay, counters, heap)
      && SweepWork(rects, lay, counters, heap) == GroupWork(rects, lay)
      && Remaining(rects, lay, counters, heap, |rects|) == PieceCount(rects, lay, |rects|)
  {
    StartOk(rects, lay);
  }

  lemma ResultCapped(segs: seq<Interval>, rects: seq<Rect>, lay: Layout, bound: Interval)
    requires AllValid(rects) && bound.lo <= bound.hi && GroupWork(rects, lay) > (bound.hi - bound.lo) / 8
    requires Capped(segs, Closure(AllRows(rects, lay), lay.minGap), bound.hi)
    ensures GroupResult(segs, rects, lay, bound)
  {
  }

  lemma ResultExact(segs: seq<Interval>, rects: seq<Rect>, lay: Layout, bound: Interval)
    requires AllValid(rects) && bound.lo <= bound.hi && GroupWork(rects, lay) <= (bound.hi - bound.lo) / 8
    requires segs == Closure(AllRows(rects, lay), lay.minGap)
    ensures GroupResult(segs, rects, lay, bound)
  {
  }

  lemma NothingSwept(g: nat)
    ensures IsClosure(Pending([], None), {}, g)
  {
  }

  lemma PendingIs(segs: seq<Interval>, cur: Interval)
    ensures Pending(segs, Some(cur)) == segs + [cur]
  {
  }

  lemma SweepFacts(l: seq<Interval>, rects: seq<Rect>, lay: Layout, bound: Interval, counters: seq<Option<nat>>,
                   heap: Heap, done: set<Interval>, i: nat)
    requires AllValid(rects) && lay.bpp > 0 && Bounds(rects, lay, bound)
    requires Sweeping(rects, lay, counters, heap, done) && i in heap
    requires IsClosure(l, done, lay.minGap)
    ensures i < |rects| == |counters| && rects[i].Valid() && HeapOk(rects, lay, counters, heap) && Nonempty(done)
  {
    VisitedArePieces(rects, lay, counters, heap, done);
    ClosureShape(l, done, rects, lay, bound);
  }
}

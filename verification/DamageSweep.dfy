/** Sweeping over the rows of a group of rectangles in order of position. */
module DamageSweep {
  import opened Bytes
  import opened Intervals
  import opened UnionDamage
  import opened DamageRows

  /** What the sweep visits: every row, or the whole rectangle at once. */
  function Pieces(r: Rect, lay: Layout): set<Interval>
    requires r.Valid()
  {
    if lay.Merges(r) then {lay.Whole(r)} else Rows(r, lay)
  }

  function AllPieces(rects: seq<Rect>, lay: Layout): set<Interval>
    requires AllValid(rects)
  {
    set i, p | 0 <= i < |rects| && p in Pieces(rects[i], lay) :: p
  }

  lemma PiecesClosure(r: Rect, lay: Layout) returns (l: seq<Interval>)
    requires r.Valid() && lay.bpp > 0
    ensures Nonempty(Pieces(r, lay)) && Nonempty(Rows(r, lay))
    ensures IsClosure(l, Pieces(r, lay), lay.minGap) && IsClosure(l, Rows(r, lay), lay.minGap)
  {
    hide IsClosure, Closure, Layout.Row, Layout.Merges, RowsBelow, Nonempty;
    RowsSorted(r, r.y2 - r.y1, lay);
    if lay.Merges(r) {
      MergedRowsClosure(r, r.y2 - r.y1, lay);
      var w := lay.Whole(r);
      l := [w];
      RowsAscend(r, 0, r.y2 - r.y1 - 1, lay);
      ClosureOfOne(w, lay.minGap);
      NonemptyOne(w);
    } else {
      l := Closure(Rows(r, lay), lay.minGap);
      ClosureIs(Rows(r, lay), lay.minGap);
    }
  }

  lemma SplitLast(rects: seq<Rect>, lay: Layout)
    requires AllValid(rects) && rects != []
    ensures var init, last := rects[..|rects| - 1], rects[|rects| - 1];
      && AllPieces(rects, lay) == AllPieces(init, lay) + Pieces(last, lay)
      && AllRows(rects, lay) == AllRows(init, lay) + Rows(last, lay)
  {
    var init, last := rects[..|rects| - 1], rects[|rects| - 1];
    forall i | 0 <= i < |init| ensures rects[i] == init[i] {}
    assert AllPieces(rects, lay) <= AllPieces(init, lay) + Pieces(last, lay);
    assert AllRows(rects, lay) <= AllRows(init, lay) + Rows(last, lay);
  }

  /** Swapping a part for another with the same closure keeps the closure. */
  lemma SwapPart(l: seq<Interval>, a: set<Interval>, a': set<Interval>, b: set<Interval>, g: nat)
    requires Nonempty(a) && Nonempty(a') && Nonempty(b) && IsClosure(l, a, g) && IsClosure(l, a', g)
    ensures Closure(a + b, g) == Closure(a' + b, g)
  {
    ClosureOfPart(l, a, b, g);
    ClosureOfPart(l, a', b, g);
  }

  /** The pieces and the rows have the same closure. */
  lemma {:induction false} PiecesAsRows(rects: seq<Rect>, lay: Layout)
    requires AllValid(rects) && lay.bpp > 0
    ensures Nonempty(AllPieces(rects, lay)) && Nonempty(AllRows(rects, lay))
    ensures Closure(AllPieces(rects, lay), lay.minGap) == Closure(AllRows(rects, lay), lay.minGap)
    decreases |rects|
  {
    hide IsClosure, Closure, Nonempty, Pieces, Rows;
    var g := lay.minGap;
    if rects == [] {
      assert AllPieces(rects, lay) == {} && AllRows(rects, lay) == {};
      NonemptyNone();
    } else {
      var init, last := rects[..|rects| - 1], rects[|rects| - 1];
      PiecesAsRows(init, lay);
      var p, q := AllPieces(init, lay), AllRows(init, lay);
      var m := Closure(p, g);
      ClosureIs(p, g);
      ClosureIs(q, g);
      var l := PiecesClosure(last, lay);
      SplitLast(rects, lay);
      NonemptyUnion(p, Pieces(last, lay));
      NonemptyUnion(q, Rows(last, lay));
      SwapPart(m, p, q, Pieces(last, lay), g);
      SwapPart(l, Pieces(last, lay), Rows(last, lay), q, g);
      assert q + Pieces(last, lay) == Pieces(last, lay) + q;
      assert q + Rows(last, lay) == Rows(last, lay) + q;
    }
  }

  lemma NonemptyOne(w: Interval)
    requires w.lo < w.hi
    ensures Nonempty({w})
  {
  }

  lemma NonemptyNone()
    ensures Nonempty({})
  {
  }

  lemma NonemptyUnion(a: set<Interval>, b: set<Interval>)
    requires Nonempty(a) && Nonempty(b)
    ensures Nonempty(a + b)
  {
  }

  // ---- The sweep ----

  /** Waiting rectangles and the start of their next piece; the smallest start comes first, ties to the larger index. */
  type Heap = map<nat, nat>

  /** The order in which the heap gives rectangles out. */
  predicate Before(heap: Heap, i: nat, j: nat)
    requires i in heap && j in heap
  {
    heap[i] < heap[j] || (heap[i] == heap[j] && j <= i)
  }

  /** Of `keys`, the heap gives out `i` first. */
  ghost predicate FirstOf(heap: Heap, keys: set<nat>, i: nat)
    requires keys <= heap.Keys
  {
    i in keys && forall j :: j in keys ==> Before(heap, i, j)
  }

  ghost predicate First(heap: Heap, i: nat) {
    FirstOf(heap, heap.Keys, i)
  }

  lemma FirstLowest(heap: Heap, i: nat)
    requires First(heap, i)
    ensures i in heap && forall j :: j in heap ==> heap[i] <= heap[j]
  {
    forall j | j in heap ensures heap[i] <= heap[j] { assert Before(heap, i, j); }
  }

  lemma FirstMore(heap: Heap, keys: set<nat>, i: nat, k: nat)
    requires keys <= heap.Keys && FirstOf(heap, keys, i) && k in heap
    ensures FirstOf(heap, keys + {k}, if Before(heap, i, k) then i else k)
  {
    forall j | j in keys ensures Before(heap, if Before(heap, i, k) then i else k, j) {
      assert Before(heap, i, j);
    }
  }

  method PopNext(heap: Heap) returns (i: nat, rest: Heap)
    requires |heap| > 0
    ensures First(heap, i) && rest == heap - {i}
  {
    assert heap.Keys != {};
    i :| i in heap.Keys;
    var todo := heap.Keys - {i};
    while todo != {}
      invariant todo <= heap.Keys && FirstOf(heap, heap.Keys - todo, i)
      decreases |todo|
    {
      var j :| j in todo;
      FirstMore(heap, heap.Keys - todo, i, j);
      assert heap.Keys - (todo - {j}) == heap.Keys - todo + {j};
      if !Before(heap, i, j) { i := j; }
      todo := todo - {j};
    }
    assert heap.Keys - todo == heap.Keys;
    rest := heap - {i};
  }

  /** The next thing to visit of a rectangle: `None` marks one taken whole. */
  function NextPiece(r: Rect, c: Option<nat>, lay: Layout): Interval
    requires r.Valid()
  {
    match c case None => lay.Whole(r) case Some(k) => lay.Row(r, k)
  }

  /** What has been visited of rectangle `r`. */
  ghost function Taken(r: Rect, c: Option<nat>, waiting: bool, lay: Layout): set<Interval>
    requires r.Valid()
  {
    match c
    case None => if waiting then {} else {lay.Whole(r)}
    case Some(k) => RowsBelow(r, k, lay)
  }

  ghost predicate CounterOk(r: Rect, c: Option<nat>, waiting: bool, lay: Layout)
    requires r.Valid()
  {
    match c
    case None => lay.Merges(r)
    case Some(k) => !lay.Merges(r) && k <= r.y2 - r.y1 && (waiting <==> k < r.y2 - r.y1)
  }

  ghost function TakenAt(rects: seq<Rect>, lay: Layout, counters: seq<Option<nat>>, heap: Heap, i: nat): set<Interval>
    requires AllValid(rects) && |counters| == |rects| && i < |rects|
  {
    Taken(rects[i], counters[i], i in heap, lay)
  }

  /** The heap and the row counters fit together. */
  ghost predicate HeapOk(rects: seq<Rect>, lay: Layout, counters: seq<Option<nat>>, heap: Heap) {
    && AllValid(rects) && |counters| == |rects|
    && (forall i :: i in heap ==> i < |rects| && heap[i] == NextPiece(rects[i], counters[i], lay).lo)
    && (forall i :: 0 <= i < |rects| ==> CounterOk(rects[i], counters[i], i in heap, lay))
  }

  /** The state of a sweep: what is waiting and what has been visited. */
  ghost predicate Sweeping(rects: seq<Rect>, lay: Layout, counters: seq<Option<nat>>, heap: Heap, done: set<Interval>) {
    && HeapOk(rects, lay, counters, heap)
    && Visited(rects, lay, counters, heap, done)
    && Ordered(heap, done)
  }

  /** `done` is what was taken of all rectangles together. */
  ghost predicate Visited(rects: seq<Rect>, lay: Layout, counters: seq<Option<nat>>, heap: Heap, done: set<Interval>)
    requires AllValid(rects) && |counters| == |rects|
  {
    && (forall i :: 0 <= i < |rects| ==> TakenAt(rects, lay, counters, heap, i) <= done)
    && (forall d :: d in done ==> exists i :: 0 <= i < |rects| && d in TakenAt(rects, lay, counters, heap, i))
  }

  /** Nothing waiting starts before anything visited. */
  ghost predicate Ordered(heap: Heap, done: set<Interval>) {
    forall d, i :: d in done && i in heap ==> d.lo <= heap[i]
  }

  /** Row counter and heap after rectangle `i`, already out of the heap, had its next piece visited. */
  function Advance(r: Rect, c: Option<nat>, i: nat, rest: Heap, lay: Layout): (Option<nat>, Heap)
    requires r.Valid()
  {
    match c
    case None => (None, rest)
    case Some(k) => (Some(k + 1), if k + 1 < r.y2 - r.y1 then rest[i := lay.Row(r, k + 1).lo] else rest)
  }

  lemma TakenMore(r: Rect, c: Option<nat>, i: nat, rest: Heap, lay: Layout)
    requires r.Valid() && CounterOk(r, c, true, lay) && i !in rest
    ensures var a := Advance(r, c, i, rest, lay);
      && CounterOk(r, a.0, i in a.1, lay)
      && Taken(r, a.0, i in a.1, lay) == Taken(r, c, true, lay) + {NextPiece(r, c, lay)}
      && (i in a.1 ==> a.1[i] == NextPiece(r, a.0, lay).lo && a.1[i] >= NextPiece(r, c, lay).lo)
      && NextPiece(r, c, lay) in Pieces(r, lay)
  {
    if c.Some? {
      RowsMore(r, c.value, lay);
      RowsAscend(r, c.value, c.value + 1, lay);
    }
  }

  /** Only rectangle `i` moved on: from `c` to `c'`, past piece `p`. */
  ghost predicate Moved(rects: seq<Rect>, lay: Layout, counters: seq<Option<nat>>, heap: Heap, i: nat,
                        c': Option<nat>, heap': Heap, p: Interval) {
    && HeapOk(rects, lay, counters, heap) && i in heap && i < |rects|
    && (forall j :: j != i ==> (j in heap' <==> j in heap))
    && (forall j :: j in heap' && j != i ==> heap'[j] == heap[j])
    && (i in heap' ==> heap'[i] == NextPiece(rects[i], c', lay).lo && heap'[i] >= p.lo)
    && CounterOk(rects[i], c', i in heap', lay)
    && p.lo == heap[i]
    && Taken(rects[i], c', i in heap', lay) == TakenAt(rects, lay, counters, heap, i) + {p}
  }

  lemma MovedHeap(rects: seq<Rect>, lay: Layout, counters: seq<Option<nat>>, heap: Heap, i: nat, c': Option<nat>,
                  heap': Heap, p: Interval)
    requires Moved(rects, lay, counters, heap, i, c', heap', p)
    ensures HeapOk(rects, lay, counters[i := c'], heap')
    ensures forall j :: 0 <= j < |rects| && j != i ==>
      TakenAt(rects, lay, counters[i := c'], heap', j) == TakenAt(rects, lay, counters, heap, j)
    ensures TakenAt(rects, lay, counters[i := c'], heap', i) == TakenAt(rects, lay, counters, heap, i) + {p}
  {
    hide CounterOk, Taken, NextPiece;
  }

  lemma MovedSweep(rects: seq<Rect>, lay: Layout, counters: seq<Option<nat>>, heap: Heap, done: set<Interval>, i: nat,
                   c': Option<nat>, heap': Heap, p: Interval)
    requires Sweeping(rects, lay, counters, heap, done)
    requires Moved(rects, lay, counters, heap, i, c', heap', p)
    requires forall j :: j in heap ==> heap[i] <= heap[j]
    ensures Sweeping(rects, lay, counters[i := c'], heap', done + {p})
  {
    MovedHeap(rects, lay, counters, heap, i, c', heap', p);
    MovedVisited(rects, lay, counters, heap, done, i, counters[i := c'], heap', p);
    hide HeapOk, TakenAt, CounterOk, Taken, NextPiece, Visited;
    forall d, j | d in done + {p} && j in heap' ensures d.lo <= heap'[j] {
      assert heap[i] <= heap'[j];
    }
  }

  lemma MovedVisited(rects: seq<Rect>, lay: Layout, counters: seq<Option<nat>>, heap: Heap, done: set<Interval>,
                     i: nat, counters': seq<Option<nat>>, heap': Heap, p: Interval)
    requires AllValid(rects) && |counters| == |counters'| == |rects| && i < |rects|
    requires Visited(rects, lay, counters, heap, done)
    requires forall j :: 0 <= j < |rects| && j != i ==>
      TakenAt(rects, lay, counters', heap', j) == TakenAt(rects, lay, counters, heap, j)
    requires TakenAt(rects, lay, counters', heap', i) == TakenAt(rects, lay, counters, heap, i) + {p}
    ensures Visited(rects, lay, counters', heap', done + {p})
  {
    hide TakenAt;
    forall d | d in done + {p} ensures exists j :: 0 <= j < |rects| && d in TakenAt(rects, lay, counters', heap', j) {
      if d in done {
        var j :| 0 <= j < |rects| && d in TakenAt(rects, lay, counters, heap, j);
        assert d in TakenAt(rects, lay, counters', heap', j);
      } else {
        assert d in TakenAt(rects, lay, counters', heap', i);
      }
    }
  }

  lemma SweepStep(rects: seq<Rect>, lay: Layout, counters: seq<Option<nat>>, heap: Heap, done: set<Interval>, i: nat)
    requires Sweeping(rects, lay, counters, heap, done) && First(heap, i)
    ensures var a := Advance(rects[i], counters[i], i, heap - {i}, lay);
      var p := NextPiece(rects[i], counters[i], lay);
      && Sweeping(rects, lay, counters[i := a.0], a.1, done + {p})
      && p in AllPieces(rects, lay) && p.lo == heap[i]
      && forall d :: d in done ==> d.lo <= p.lo
  {
    hide First;
    FirstLowest(heap, i);
    var a := Advance(rects[i], counters[i], i, heap - {i}, lay);
    var p := NextPiece(rects[i], counters[i], lay);
    TakenMore(rects[i], counters[i], i, heap - {i}, lay);
    hide Pieces, Taken, CounterOk, NextPiece;
    MovedSweep(rects, lay, counters, heap, done, i, a.0, a.1, p);
  }

  lemma VisitedArePieces(rects: seq<Rect>, lay: Layout, counters: seq<Option<nat>>, heap: Heap, done: set<Interval>)
    requires Sweeping(rects, lay, counters, heap, done)
    ensures done <= AllPieces(rects, lay)
  {
    forall d | d in done ensures d in AllPieces(rects, lay) {
      var i :| 0 <= i < |rects| && d in TakenAt(rects, lay, counters, heap, i);
      assert CounterOk(rects[i], counters[i], i in heap, lay);
      assert d in Pieces(rects[i], lay);
    }
  }

  /** A piece not visited yet is no earlier than something waiting. */
  lemma StillWaiting(rects: seq<Rect>, lay: Layout, counters: seq<Option<nat>>, heap: Heap, done: set<Interval>,
                     p: Interval)
    returns (i: nat)
    requires Sweeping(rects, lay, counters, heap, done) && p in AllPieces(rects, lay) && p !in done
    ensures i in heap && heap[i] <= p.lo
  {
    i :| 0 <= i < |rects| && p in Pieces(rects[i], lay);
    assert TakenAt(rects, lay, counters, heap, i) <= done;
    assert CounterOk(rects[i], counters[i], i in heap, lay);
    if counters[i].Some? {
      var k :| 0 <= k < rects[i].y2 - rects[i].y1 && p == lay.Row(rects[i], k);
      assert k >= counters[i].value;
      RowsAscend(rects[i], counters[i].value, k, lay);
    }
  }

  lemma AllVisited(rects: seq<Rect>, lay: Layout, counters: seq<Option<nat>>, heap: Heap, done: set<Interval>)
    requires Sweeping(rects, lay, counters, heap, done) && |heap| == 0
    ensures done == AllPieces(rects, lay)
  {
    VisitedArePieces(rects, lay, counters, heap, done);
    forall p | p in AllPieces(rects, lay) ensures p in done {
      if p !in done { var i := StillWaiting(rects, lay, counters, heap, done, p); }
    }
  }

  /** Every piece is nonempty, rounded and inside its rectangle's span. */
  lemma PieceShape(rects: seq<Rect>, lay: Layout, bound: Interval, p: Interval)
    requires AllValid(rects) && lay.bpp > 0 && p in AllPieces(rects, lay)
    requires Bounds(rects, lay, bound)
    ensures p.lo < p.hi && Aligned(p, lay.alignBits) && bound.lo <= p.lo && p.hi <= bound.hi
  {
    var i :| 0 <= i < |rects| && p in Pieces(rects[i], lay);
    assert bound.lo <= lay.Bounding(rects[i]).lo && lay.Bounding(rects[i]).hi <= bound.hi;
    hide Layout.Bounding, Pieces, AllPieces, Bounds, Aligned;
    PieceInside(rects[i], lay, p);
  }

  lemma PieceInside(r: Rect, lay: Layout, p: Interval)
    requires r.Valid() && lay.bpp > 0 && p in Pieces(r, lay)
    ensures p.lo < p.hi && Aligned(p, lay.alignBits) && lay.Bounding(r).lo <= p.lo && p.hi <= lay.Bounding(r).hi
  {
    var h := r.y2 - r.y1;
    if lay.Merges(r) {
      RowNonempty(r, h - 1, lay);
      RowsAscend(r, 0, h - 1, lay);
      RowBounded(r, 0, lay);
      RowBounded(r, h - 1, lay);
    } else {
      var k :| 0 <= k < h && p == lay.Row(r, k);
      RowNonempty(r, k, lay);
      RowBounded(r, k, lay);
    }
  }

  /** A row lies inside one of the pieces. */
  lemma RowInPiece(rects: seq<Rect>, lay: Layout, row: Interval) returns (p: Interval)
    requires AllValid(rects) && row in AllRows(rects, lay)
    ensures p in AllPieces(rects, lay) && p.lo <= row.lo && row.hi <= p.hi
  {
    var i, k :| 0 <= i < |rects| && 0 <= k < rects[i].y2 - rects[i].y1 && row == lay.Row(rects[i], k);
    var r := rects[i];
    if lay.Merges(r) {
      RowsAscend(r, 0, k, lay);
      RowsAscend(r, k, r.y2 - r.y1 - 1, lay);
      p := lay.Whole(r);
    } else {
      p := row;
    }
    assert p in Pieces(rects[i], lay);
  }

  ghost predicate Bounds(rects: seq<Rect>, lay: Layout, bound: Interval) {
    forall i :: 0 <= i < |rects| ==> bound.lo <= lay.Bounding(rects[i]).lo && lay.Bounding(rects[i]).hi <= bound.hi
  }

  function ILog2(n: nat): nat {
    if n < 2 then 0 else 1 + ILog2(n / 2)
  }

  /** The estimated cost of a heap step with `n` rectangles waiting. */
  function StepCost(n: nat): nat {
    ILog2(if n < 16 then 16 else n)
  }

  /** The cost is the whole part of the binary logarithm, of sixteen at least. */
  lemma StepCostIsLog(n: nat)
    ensures Pow2(StepCost(n)) <= Max(16, n) < 2 * Pow2(StepCost(n))
  {
    ILog2Is(Max(16, n));
  }

  lemma {:induction false} ILog2Is(n: nat)
    requires n > 0
    ensures Pow2(ILog2(n)) <= n < 2 * Pow2(ILog2(n))
  {
    if n >= 2 { ILog2Is(n / 2); }
  }

  lemma StepCostRange(m: nat, n: nat)
    requires m <= n
    ensures 4 <= StepCost(m) <= StepCost(n)
  {
    assert ILog2(16) == 1 + ILog2(8) == 2 + ILog2(4) == 3 + ILog2(2);
    ILog2Monotone(16, if m < 16 then 16 else m);
    ILog2Monotone(if m < 16 then 16 else m, if n < 16 then 16 else n);
  }

  lemma {:induction false} ILog2Monotone(m: nat, n: nat)
    requires m <= n
    ensures ILog2(m) <= ILog2(n)
  {
    if m >= 2 { ILog2Monotone(m / 2, n / 2); }
  }

  // ---- Counting the pieces ----

  function PiecesOf(r: Rect, lay: Layout): nat
    requires r.Valid()
  {
    if lay.Merges(r) then 1 else r.y2 - r.y1
  }

  function PieceCount(rects: seq<Rect>, lay: Layout, n: nat): nat
    requires AllValid(rects) && n <= |rects|
  {
    if n == 0 then 0 else PieceCount(rects, lay, n - 1) + PiecesOf(rects[n - 1], lay)
  }

  /** A bound on the work of a sweep that the budget certainly allows. */
  ghost predicate WithinBudget(rects: seq<Rect>, lay: Layout, bound: Interval)
    requires AllValid(rects) && bound.lo <= bound.hi
  {
    PieceCount(rects, lay, |rects|) * StepCost(|rects|) <= (bound.hi - bound.lo) / 8
  }

  ghost function LeftOf(r: Rect, c: Option<nat>, waiting: bool, lay: Layout): nat
    requires r.Valid() && CounterOk(r, c, waiting, lay)
  {
    match c case None => if waiting then 1 else 0 case Some(k) => r.y2 - r.y1 - k
  }

  /** The pieces of the first `n` rectangles not visited yet. */
  ghost function Remaining(rects: seq<Rect>, lay: Layout, counters: seq<Option<nat>>, heap: Heap, n: nat): nat
    requires HeapOk(rects, lay, counters, heap) && n <= |rects|
  {
    if n == 0 then 0
    else Remaining(rects, lay, counters, heap, n - 1) + LeftOf(rects[n - 1], counters[n - 1], n - 1 in heap, lay)
  }

  lemma {:induction false} RemainingFrame(rects: seq<Rect>, lay: Layout, counters: seq<Option<nat>>, heap: Heap,
                                          counters': seq<Option<nat>>, heap': Heap, i: nat, n: nat)
    requires HeapOk(rects, lay, counters, heap) && HeapOk(rects, lay, counters', heap') && i < |rects| && n <= |rects|
    requires forall j :: 0 <= j < |rects| && j != i ==> counters'[j] == counters[j] && (j in heap' <==> j in heap)
    requires LeftOf(rects[i], counters[i], i in heap, lay) == LeftOf(rects[i], counters'[i], i in heap', lay) + 1
    ensures Remaining(rects, lay, counters, heap, n) ==
      Remaining(rects, lay, counters', heap', n) + (if i < n then 1 else 0)
  {
    hide HeapOk, LeftOf;
    if n > 0 {
      RemainingFrame(rects, lay, counters, heap, counters', heap', i, n - 1);
    }
  }

  lemma RemainingStep(rects: seq<Rect>, lay: Layout, counters: seq<Option<nat>>, heap: Heap, i: nat)
    requires HeapOk(rects, lay, counters, heap) && i in heap
    ensures var a := Advance(rects[i], counters[i], i, heap - {i}, lay);
      && HeapOk(rects, lay, counters[i := a.0], a.1)
      && Remaining(rects, lay, counters, heap, |rects|) == Remaining(rects, lay, counters[i := a.0], a.1, |rects|) + 1
  {
    var a := Advance(rects[i], counters[i], i, heap - {i}, lay);
    assert CounterOk(rects[i], counters[i], i in heap, lay);
    TakenMore(rects[i], counters[i], i, heap - {i}, lay);
    MovedHeap(rects, lay, counters, heap, i, a.0, a.1, NextPiece(rects[i], counters[i], lay));
    RemainingFrame(rects, lay, counters, heap, counters[i := a.0], a.1, i, |rects|);
  }

  lemma {:induction false} RemainingAtStart(rects: seq<Rect>, lay: Layout, counters: seq<Option<nat>>, heap: Heap,
                                            n: nat)
    requires HeapOk(rects, lay, counters, heap) && n <= |rects|
    requires forall j :: 0 <= j < |rects| ==>
      j in heap && counters[j] == (if lay.Merges(rects[j]) then None else Some(0))
    ensures Remaining(rects, lay, counters, heap, n) == PieceCount(rects, lay, n)
  {
    if n > 0 { RemainingAtStart(rects, lay, counters, heap, n - 1); }
  }

  // ---- The work of a whole sweep ----

  lemma {:induction false} FirstExists(heap: Heap, keys: set<nat>)
    requires keys != {} && keys <= heap.Keys
    ensures exists i :: FirstOf(heap, keys, i)
    decreases |keys|
  {
    var k :| k in keys;
    var others := keys - {k};
    assert keys == others + {k};
    if others == {} {
      assert FirstOf(heap, keys, k);
    } else {
      FirstExists(heap, others);
      var i :| FirstOf(heap, others, i);
      FirstMore(heap, others, i, k);
    }
  }

  ghost function Next(heap: Heap): (i: nat)
    requires |heap| > 0
    ensures First(heap, i)
  {
    assert heap.Keys != {};
    FirstExists(heap, heap.Keys);
    var i :| FirstOf(heap, heap.Keys, i);
    i
  }

  lemma NextUnique(heap: Heap, i: nat)
    requires |heap| > 0 && First(heap, i)
    ensures i == Next(heap)
  {
    assert Before(heap, i, Next(heap)) && Before(heap, Next(heap), i);
  }

  /** What the heap steps of a sweep cost together, from a given point until nothing is waiting. */
  ghost function SweepWork(rects: seq<Rect>, lay: Layout, counters: seq<Option<nat>>, heap: Heap): nat
    requires HeapOk(rects, lay, counters, heap)
    decreases Remaining(rects, lay, counters, heap, |rects|)
  {
    if |heap| == 0 then 0
    else
      var i := Next(heap);
      var a := Advance(rects[i], counters[i], i, heap - {i}, lay);
      RemainingStep(rects, lay, counters, heap, i);
      StepCost(|a.1|) + SweepWork(rects, lay, counters[i := a.0], a.1)
  }

  lemma SweepWorkStep(rects: seq<Rect>, lay: Layout, counters: seq<Option<nat>>, heap: Heap, i: nat)
    requires HeapOk(rects, lay, counters, heap) && First(heap, i)
    ensures var a := Advance(rects[i], counters[i], i, heap - {i}, lay);
      && HeapOk(rects, lay, counters[i := a.0], a.1)
      && SweepWork(rects, lay, counters, heap) == StepCost(|a.1|) + SweepWork(rects, lay, counters[i := a.0], a.1)
  {
    RemainingStep(rects, lay, counters, heap, i);
    assert i in heap.Keys && |heap| > 0;
    NextUnique(heap, i);
  }

  lemma SweepWorkDone(rects: seq<Rect>, lay: Layout, counters: seq<Option<nat>>, heap: Heap)
    requires HeapOk(rects, lay, counters, heap) && |heap| == 0
    ensures SweepWork(rects, lay, counters, heap) == 0
  {
  }

  ghost function StartCounters(rects: seq<Rect>, lay: Layout): seq<Option<nat>>
    requires AllValid(rects)
  {
    seq(|rects|, i requires 0 <= i < |rects| => if lay.Merges(rects[i]) then None else Some(0))
  }

  ghost function StartHeap(rects: seq<Rect>, lay: Layout): Heap
    requires AllValid(rects)
  {
    map i | 0 <= i < |rects| :: lay.Row(rects[i], 0).lo
  }

  lemma StartOk(rects: seq<Rect>, lay: Layout)
    requires AllValid(rects)
    ensures Sweeping(rects, lay, StartCounters(rects, lay), StartHeap(rects, lay), {})
    ensures Remaining(rects, lay, StartCounters(rects, lay), StartHeap(rects, lay), |rects|) ==
      PieceCount(rects, lay, |rects|)
  {
    RemainingAtStart(rects, lay, StartCounters(rects, lay), StartHeap(rects, lay), |rects|);
  }

  /** The work of sweeping over a group of rectangles to the end. */
  ghost function GroupWork(rects: seq<Rect>, lay: Layout): nat
    requires AllValid(rects)
  {
    StartOk(rects, lay);
    SweepWork(rects, lay, StartCounters(rects, lay), StartHeap(rects, lay))
  }

  /** The sweep can run to the end without going over its budget. */
  ghost predicate Affordable(rects: seq<Rect>, lay: Layout, bound: Interval)
    requires AllValid(rects) && bound.lo <= bound.hi
  {
    GroupWork(rects, lay) <= (bound.hi - bound.lo) / 8
  }

  lemma {:induction false} SweepWorkBound(rects: seq<Rect>, lay: Layout, counters: seq<Option<nat>>, heap: Heap)
    requires HeapOk(rects, lay, counters, heap)
    ensures SweepWork(rects, lay, counters, heap) <= Remaining(rects, lay, counters, heap, |rects|) * StepCost(|rects|)
    decreases Remaining(rects, lay, counters, heap, |rects|)
  {
    hide HeapOk, Remaining, SweepWork, StepCost;
    if |heap| == 0 {
      SweepWorkDone(rects, lay, counters, heap);
    } else {
      var i := Next(heap);
      FirstIn(rects, lay, counters, heap, i);
      var a := Advance(rects[i], counters[i], i, heap - {i}, lay);
      SweepWorkStep(rects, lay, counters, heap, i);
      RemainingStep(rects, lay, counters, heap, i);
      SweepWorkBound(rects, lay, counters[i := a.0], a.1);
      CostBound(rects, lay, counters[i := a.0], a.1);
      Distribute(Remaining(rects, lay, counters[i := a.0], a.1, |rects|), StepCost(|rects|));
    }
  }

  lemma FirstIn(rects: seq<Rect>, lay: Layout, counters: seq<Option<nat>>, heap: Heap, i: nat)
    requires HeapOk(rects, lay, counters, heap) && First(heap, i)
    ensures i in heap && i < |rects| == |counters| && rects[i].Valid()
  {
  }

  lemma CostBound(rects: seq<Rect>, lay: Layout, counters: seq<Option<nat>>, heap: Heap)
    requires HeapOk(rects, lay, counters, heap)
    ensures 4 <= StepCost(|heap|) <= StepCost(|rects|)
  {
    assert forall i :: i in heap.Keys ==> i < |rects|;
    hide *;
    HeapSize(heap.Keys, |rects|);
    StepCostRange(|heap|, |rects|);
  }

  lemma Distribute(k: nat, c: nat)
    ensures (k + 1) * c == k * c + c
  {
  }

  lemma {:induction false} HeapSize(keys: set<nat>, n: nat)
    requires forall i :: i in keys ==> i < n
    ensures |keys| <= n
    decreases n
  {
    if n > 0 {
      HeapSize(keys - {n - 1}, n - 1);
      assert keys <= (keys - {n - 1}) + {n - 1};
    } else {
      assert keys == {};
    }
  }

  /** A budget for the dearest steps throughout certainly suffices. */
  lemma WithinBudgetSuffices(rects: seq<Rect>, lay: Layout, bound: Interval)
    requires AllValid(rects) && bound.lo <= bound.hi && WithinBudget(rects, lay, bound)
    ensures Affordable(rects, lay, bound)
  {
    StartOk(rects, lay);
    SweepWorkBound(rects, lay, StartCounters(rects, lay), StartHeap(rects, lay));
  }

  /** Put every rectangle in the heap. */
  method StartSweep(rects: seq<Rect>, lay: Layout) returns (counters: seq<Option<nat>>, heap: Heap)
    requires AllValid(rects)
    ensures counters == StartCounters(rects, lay) && heap == StartHeap(rects, lay)
  {
    counters := [];
    heap := map[];
    for i := 0 to |rects|
      invariant |counters| == i && forall j :: j in heap <==> 0 <= j < i
      invariant forall j :: 0 <= j < i ==> counters[j] == (if lay.Merges(rects[j]) then None else Some(0))
      invariant forall j :: 0 <= j < i ==> heap[j] == lay.Row(rects[j], 0).lo
    {
      counters := counters + [if lay.Merges(rects[i]) then None else Some(0)];
      heap := heap[i := lay.Down(lay.At(rects[i].x1, rects[i].y1))];
    }
  }
}

/** The byte intervals that damage rectangles project to. */
module DamageRows {
  import opened Bytes
  import opened Intervals

  /** A well-formed damage rectangle `x1..x2` by `y1..y2`. */
  datatype Rect = Rect(x1: nat, x2: nat, y1: nat, y2: nat) {
    predicate Valid() { x1 < x2 && y1 < y2 }
  }

  /** How a rectangle projects onto the buffer. */
  datatype Layout = Layout(alignBits: nat, minGap: nat, offset: nat, stride: nat, bpp: nat) {
    function Unit(): (u: nat) ensures u > 0 { Pow2(alignBits) }

    function At(x: nat, y: nat): nat { offset + y * stride + x * bpp }

    function Down(x: nat): (r: nat)
      ensures r % Unit() == 0 && r <= x < r + Unit()
    {
      RoundDown(x, Unit())
    }

    function Up(x: nat): (r: nat)
      ensures r % Unit() == 0 && x <= r < x + Unit()
    {
      Align(x, Unit())
    }

    /** Row `k` of a rectangle, rounded outwards. */
    function Row(r: Rect, k: nat): Interval {
      Interval(Down(At(r.x1, r.y1 + k)), Up(At(r.x2, r.y1 + k)))
    }

    /** The rounded span of a rectangle; its end overshoots by up to a row. */
    function Bounding(r: Rect): Interval {
      Interval(Down(At(r.x1, r.y1)), Up(At(r.x2, r.y2)))
    }

    /** From the start of the first row to the end of the last. */
    function Whole(r: Rect): Interval
      requires r.Valid()
    {
      Interval(Row(r, 0).lo, Row(r, r.y2 - r.y1 - 1).hi)
    }

    /** The test for treating a rectangle as one interval. */
    predicate Merges(r: Rect)
      requires r.Valid()
    {
      (r.x2 - r.x1) * bpp > Max(stride - minGap, 0)
    }
  }

  function Rows(r: Rect, lay: Layout): set<Interval>
    requires r.Valid()
  {
    RowsBelow(r, r.y2 - r.y1, lay)
  }

  function RowsBelow(r: Rect, n: nat, lay: Layout): set<Interval> {
    set k | 0 <= k < n :: lay.Row(r, k)
  }

  predicate AllValid(rects: seq<Rect>) {
    forall i :: 0 <= i < |rects| ==> rects[i].Valid()
  }

  function AllRows(rects: seq<Rect>, lay: Layout): set<Interval>
    requires AllValid(rects)
  {
    set i, k | 0 <= i < |rects| && 0 <= k < rects[i].y2 - rects[i].y1 :: lay.Row(rects[i], k)
  }

  // ---- What rows are, byte by byte ----

  /** Byte `x` is one of the bytes of pixel `px` of line `py`. */
  predicate PixelByte(lay: Layout, px: nat, py: nat, x: int) {
    lay.offset + py * lay.stride + px * lay.bpp <= x < lay.offset + py * lay.stride + px * lay.bpp + lay.bpp
  }

  /** Byte `x` belongs to a pixel of line `y` of the rectangle. */
  ghost predicate InLine(r: Rect, lay: Layout, y: nat, x: int) {
    exists px: nat :: r.x1 <= px < r.x2 && PixelByte(lay, px, y, x)
  }

  /** Byte `x` belongs to a pixel of the rectangle. */
  ghost predicate InRect(r: Rect, lay: Layout, x: int) {
    exists y: nat :: r.y1 <= y < r.y2 && InLine(r, lay, y, x)
  }

  /** The bytes of the pixels of a line are those from its first to its last. */
  lemma LineBytes(r: Rect, lay: Layout, y: nat, x: int)
    requires r.Valid()
    ensures InLine(r, lay, y, x) <==> lay.At(r.x1, y) <= x < lay.At(r.x2, y)
  {
    if px: nat :| r.x1 <= px < r.x2 && PixelByte(lay, px, y, x) {
      MulLe(r.x1, px, lay.bpp);
      MulLe(px + 1, r.x2, lay.bpp);
      assert (px + 1) * lay.bpp == px * lay.bpp + lay.bpp;
    }
    if lay.At(r.x1, y) <= x < lay.At(r.x2, y) {
      var px := PixelAt(lay, r.x1, r.x2, y, x);
      assert PixelByte(lay, px, y, x);
    }
  }

  lemma {:induction false} PixelAt(lay: Layout, x1: nat, x2: nat, y: nat, x: int) returns (px: nat)
    requires lay.offset + y * lay.stride + x1 * lay.bpp <= x < lay.offset + y * lay.stride + x2 * lay.bpp
    requires x1 < x2
    ensures x1 <= px < x2 && PixelByte(lay, px, y, x)
    decreases x2
  {
    assert (x2 - 1) * lay.bpp == x2 * lay.bpp - lay.bpp;
    if x >= lay.offset + y * lay.stride + (x2 - 1) * lay.bpp {
      px := x2 - 1;
    } else {
      px := PixelAt(lay, x1, x2 - 1, y, x);
    }
  }

  /** Two bytes in the same unit of `Pow2(bits)` bytes. */
  predicate SameUnit(bits: nat, x: int, y: int) {
    x / Pow2(bits) == y / Pow2(bits)
  }

  /** A rounded row consists of just the units that hold a byte of one of its pixels. */
  lemma RowIsPixels(r: Rect, k: nat, lay: Layout, x: nat)
    requires r.Valid() && lay.bpp > 0
    ensures lay.Row(r, k).Has(x) <==> exists x': nat :: InLine(r, lay, r.y1 + k, x') && SameUnit(lay.alignBits, x, x')
  {
    var u, y := Pow2(lay.alignBits), r.y1 + k;
    var lo, hi := lay.At(r.x1, y), lay.At(r.x2, y);
    MulLe(r.x1 + 1, r.x2, lay.bpp);
    assert (r.x1 + 1) * lay.bpp == r.x1 * lay.bpp + lay.bpp;
    assert lo < hi;
    hide InLine;
    if lay.Row(r, k).Has(x) {
      var x' := TouchedUnit(lo, hi, u, lay.Down(lo), lay.Up(hi), x);
      LineBytes(r, lay, y, x');
      assert SameUnit(lay.alignBits, x, x');
    }
    if x': nat :| InLine(r, lay, y, x') && SameUnit(lay.alignBits, x, x') {
      LineBytes(r, lay, y, x');
      UnitInside(u, lay.Down(lo), lay.Up(hi), x, x');
    }
  }

  lemma TouchedUnit(lo: nat, hi: nat, u: nat, from: nat, to: nat, x: nat) returns (x': nat)
    requires u > 0 && from % u == 0 && to % u == 0 && from <= lo < from + u && hi <= to < hi + u
    requires lo < hi && from <= x < to
    ensures lo <= x' < hi && x / u == x' / u
  {
    var q := RoundDown(x, u);
    assert q <= x < q + u;
    if from > q { RoundedGap(from, q, u); }
    RoundedGap(to, q, u);
    x' := Max(q, lo);
    SameQuotient(q, u, x);
    SameQuotient(q, u, x');
  }

  lemma UnitInside(u: nat, from: nat, to: nat, x: nat, x': nat)
    requires u > 0 && from % u == 0 && to % u == 0 && from <= x' < to && x / u == x' / u
    ensures from <= x < to
  {
    var q := RoundDown(x', u);
    if from > q { RoundedGap(from, q, u); }
    RoundedGap(to, q, u);
    assert q == x' / u * u && x == x / u * u + x % u;
  }

  lemma SameQuotient(q: nat, u: nat, x: nat)
    requires u > 0 && q % u == 0 && q <= x < q + u
    ensures x / u == q / u
  {
    Quotient(x, u, q / u, x - q);
  }

  lemma RectByteInRow(rects: seq<Rect>, lay: Layout, i: nat, x: int) returns (row: Interval)
    requires AllValid(rects) && i < |rects| && InRect(rects[i], lay, x)
    ensures row in AllRows(rects, lay) && row.Has(x)
  {
    hide InLine;
    var r := rects[i];
    var y: nat :| r.y1 <= y < r.y2 && InLine(r, lay, y, x);
    LineBytes(r, lay, y, x);
    row := lay.Row(r, y - r.y1);
    assert lay.Row(rects[i], y - r.y1) in AllRows(rects, lay);
  }

  /** The rounded span goes from the unit of the first pixel to the end of the unit reached one line after the last. */
  lemma BoundingEnds(r: Rect, lay: Layout)
    ensures var b, u := lay.Bounding(r), Pow2(lay.alignBits);
      && b.lo % u == 0 && b.lo <= lay.offset + r.y1 * lay.stride + r.x1 * lay.bpp < b.lo + u
      && b.hi % u == 0 && b.hi - u < lay.offset + r.y2 * lay.stride + r.x2 * lay.bpp <= b.hi
  {
  }

  /** A rectangle is treated as one interval exactly when the bytes between two of its lines are fewer than the gap. */
  lemma MergesIff(r: Rect, lay: Layout, y: nat)
    requires r.Valid() && lay.bpp > 0
    ensures lay.Merges(r) <==>
      (lay.offset + (y + 1) * lay.stride + r.x1 * lay.bpp) - (lay.offset + y * lay.stride + r.x2 * lay.bpp) < lay.minGap
  {
    assert (y + 1) * lay.stride == y * lay.stride + lay.stride;
    assert r.x2 * lay.bpp == r.x1 * lay.bpp + (r.x2 - r.x1) * lay.bpp;
    MulLe(1, r.x2 - r.x1, lay.bpp);
  }

  // ---- Rounding and row arithmetic ----

  lemma DownMonotone(lay: Layout, a: nat, b: nat)
    requires a <= b
    ensures lay.Down(a) <= lay.Down(b)
  {
    var u := lay.Unit();
    if lay.Down(a) > lay.Down(b) { RoundedGap(lay.Down(a), lay.Down(b), u); }
  }

  lemma UpMonotone(lay: Layout, a: nat, b: nat)
    requires a <= b
    ensures lay.Up(a) <= lay.Up(b)
  {
    var u := lay.Unit();
    if lay.Up(a) > lay.Up(b) { RoundedGap(lay.Up(a), lay.Up(b), u); }
  }

  lemma RoundedGap(a: nat, b: nat, u: nat)
    requires u > 0 && a % u == 0 && b % u == 0 && a > b
    ensures a >= b + u
  {
    var p, q := a / u, b / u;
    assert a == p * u && b == q * u;
    if p <= q { MulLe(p, q, u); }
    MulLe(q + 1, p, u);
  }

  lemma RowNonempty(r: Rect, k: nat, lay: Layout)
    requires r.Valid() && lay.bpp > 0
    ensures lay.Row(r, k).lo < lay.Row(r, k).hi
  {
    MulLe(r.x1 + 1, r.x2, lay.bpp);
    assert (r.x1 + 1) * lay.bpp == r.x1 * lay.bpp + lay.bpp;
    var lo, hi := lay.At(r.x1, r.y1 + k), lay.At(r.x2, r.y1 + k);
    assert lay.Down(lo) <= lo < hi <= lay.Up(hi);
  }

  lemma RowsAscend(r: Rect, j: nat, k: nat, lay: Layout)
    requires j <= k
    ensures lay.Row(r, j).lo <= lay.Row(r, k).lo && lay.Row(r, j).hi <= lay.Row(r, k).hi
  {
    MulLe(r.y1 + j, r.y1 + k, lay.stride);
    DownMonotone(lay, lay.At(r.x1, r.y1 + j), lay.At(r.x1, r.y1 + k));
    UpMonotone(lay, lay.At(r.x2, r.y1 + j), lay.At(r.x2, r.y1 + k));
  }

  lemma RowBounded(r: Rect, k: nat, lay: Layout)
    requires r.Valid() && k < r.y2 - r.y1
    ensures lay.Bounding(r).lo <= lay.Row(r, k).lo && lay.Row(r, k).hi <= lay.Bounding(r).hi
  {
    RowsAscend(r, 0, k, lay);
    MulLe(r.y1 + k, r.y2, lay.stride);
    UpMonotone(lay, lay.At(r.x2, r.y1 + k), lay.At(r.x2, r.y2));
  }

  /** When a rectangle is merged, consecutive rows are closer than the minimum gap. */
  lemma MergedRowsClose(r: Rect, k: nat, lay: Layout)
    requires r.Valid() && lay.bpp > 0 && lay.Merges(r)
    ensures lay.Row(r, k + 1).lo <= lay.Row(r, k).hi || lay.Row(r, k + 1).lo - lay.Row(r, k).hi < lay.minGap
  {
    var y := r.y1 + k;
    assert (y + 1) * lay.stride == y * lay.stride + lay.stride;
    assert r.x2 * lay.bpp == r.x1 * lay.bpp + (r.x2 - r.x1) * lay.bpp;
    assert lay.At(r.x1, y + 1) - lay.At(r.x2, y) == lay.stride - (r.x2 - r.x1) * lay.bpp;
  }

  lemma RowsMore(r: Rect, n: nat, lay: Layout)
    ensures RowsBelow(r, n + 1, lay) == RowsBelow(r, n, lay) + {lay.Row(r, n)}
  {
  }

  /** So the rectangle's rows close up to its whole span. */
  lemma {:induction false} MergedRowsClosure(r: Rect, n: nat, lay: Layout)
    requires r.Valid() && lay.bpp > 0 && lay.Merges(r) && n > 0
    ensures Nonempty(RowsBelow(r, n, lay))
    ensures IsClosure([Interval(lay.Row(r, 0).lo, lay.Row(r, n - 1).hi)], RowsBelow(r, n, lay), lay.minGap)
    decreases n
  {
    hide IsClosure, Layout.Row, Layout.Merges, Nonempty, Absorb;
    RowsSorted(r, n, lay);
    if n == 1 {
      RowNonempty(r, 0, lay);
      ClosureOfOne(lay.Row(r, 0), lay.minGap);
      assert RowsBelow(r, 1, lay) == {lay.Row(r, 0)};
    } else {
      MergedRowsClosure(r, n - 1, lay);
      RowsMore(r, n - 1, lay);
      AbsorbClosure([Interval(lay.Row(r, 0).lo, lay.Row(r, n - 2).hi)], RowsBelow(r, n - 1, lay), lay.minGap,
                    lay.Row(r, n - 1));
      MergedAbsorb(r, n, lay);
    }
  }

  lemma RowsSorted(r: Rect, n: nat, lay: Layout)
    requires r.Valid() && lay.bpp > 0 && n > 0
    ensures Nonempty(RowsBelow(r, n, lay))
    ensures lay.Row(r, n - 1).lo < lay.Row(r, n - 1).hi
    ensures forall a :: a in RowsBelow(r, n, lay) ==> a.lo <= lay.Row(r, n - 1).lo
    ensures forall a :: a in RowsBelow(r, n - 1, lay) ==> a.lo <= lay.Row(r, n - 1).lo
  {
    RowNonempty(r, n - 1, lay);
    forall k | 0 <= k < n ensures lay.Row(r, k).lo < lay.Row(r, k).hi && lay.Row(r, k).lo <= lay.Row(r, n - 1).lo {
      RowNonempty(r, k, lay);
      RowsAscend(r, k, n - 1, lay);
    }
  }

  lemma MergedAbsorb(r: Rect, n: nat, lay: Layout)
    requires r.Valid() && lay.bpp > 0 && lay.Merges(r) && n > 1
    ensures Absorb([Interval(lay.Row(r, 0).lo, lay.Row(r, n - 2).hi)], lay.Row(r, n - 1), lay.minGap)
         == [Interval(lay.Row(r, 0).lo, lay.Row(r, n - 1).hi)]
  {
    MergedRowsClose(r, n - 2, lay);
    RowsAscend(r, n - 2, n - 1, lay);
    hide Layout.Row;
    var l := [Interval(lay.Row(r, 0).lo, lay.Row(r, n - 2).hi)];
    assert l[..0] == [];
  }
}

/** Grouping rectangles and computing the damage of all of them. */
module DamageSegments {
  import opened Bytes
  import opened Intervals
  import opened DamageRows
  import opened DamageSweep
  import opened Damage

  predicate SortedByStart(rects: seq<Rect>, lay: Layout) {
    forall i, j :: 0 <= i < j < |rects| ==> lay.At(rects[i].x1, rects[i].y1) <= lay.At(rects[j].x1, rects[j].y1)
  }

  /** Sort by the position of the first byte. */
  method SortByStart(rects: seq<Rect>, lay: Layout) returns (sorted: seq<Rect>)
    ensures multiset(sorted) == multiset(rects) && SortedByStart(sorted, lay)
  {
    sorted := [];
    for i := 0 to |rects|
      invariant multiset(sorted) == multiset(rects[..i]) && SortedByStart(sorted, lay)
    {
      var k := |sorted|;
      while k > 0 && lay.At(sorted[k - 1].x1, sorted[k - 1].y1) > lay.At(rects[i].x1, rects[i].y1)
        invariant 0 <= k <= |sorted|
        invariant forall j :: k <= j < |sorted| ==>
          lay.At(sorted[j].x1, sorted[j].y1) > lay.At(rects[i].x1, rects[i].y1)
      {
        k := k - 1;
      }
      InsertElement(sorted, k, rects[i], rects[..i]);
      InsertSorted(sorted, k, rects[i], lay);
      assert rects[..i + 1] == rects[..i] + [rects[i]];
      sorted := sorted[..k] + [rects[i]] + sorted[k..];
    }
    assert rects[..|rects|] == rects;
  }

  lemma InsertSorted(s: seq<Rect>, k: nat, r: Rect, lay: Layout)
    requires SortedByStart(s, lay) && k <= |s|
    requires k > 0 ==> lay.At(s[k - 1].x1, s[k - 1].y1) <= lay.At(r.x1, r.y1)
    requires forall j :: k <= j < |s| ==> lay.At(s[j].x1, s[j].y1) > lay.At(r.x1, r.y1)
    ensures SortedByStart(s[..k] + [r] + s[k..], lay)
  {
    hide Layout.At;
  }

  lemma InsertElement(s: seq<Rect>, k: nat, r: Rect, t: seq<Rect>)
    requires k <= |s| && multiset(s) == multiset(t)
    ensures multiset(s[..k] + [r] + s[k..]) == multiset(t + [r])
  {
    assert s == s[..k] + s[k..];
  }

  lemma SameRects(a: seq<Rect>, b: seq<Rect>, lay: Layout)
    requires multiset(a) == multiset(b) && AllValid(a)
    ensures AllValid(b) && AllRows(a, lay) == AllRows(b, lay)
  {
    assert forall r :: r in a <==> r in multiset(a);
    assert forall r :: r in b <==> r in multiset(b);
    RowsIncluded(b, a, lay);
    RowsIncluded(a, b, lay);
  }

  lemma RowsIncluded(a: seq<Rect>, b: seq<Rect>, lay: Layout)
    requires AllValid(b) && forall r :: r in a ==> r in b
    ensures AllValid(a) && AllRows(a, lay) <= AllRows(b, lay)
  {
    forall i | 0 <= i < |a| ensures a[i].Valid() { assert a[i] in b; }
    forall row | row in AllRows(a, lay) ensures row in AllRows(b, lay) {
      var i, k :| 0 <= i < |a| && 0 <= k < a[i].y2 - a[i].y1 && row == lay.Row(a[i], k);
      assert a[i] in b;
      var j :| 0 <= j < |b| && b[j] == a[i];
    }
  }

  /** Rectangles `iStart..iEnd`, whose rounded spans all lie in `region`. */
  datatype Group = Group(iStart: nat, iEnd: nat, region: Interval)

  /** Where the rounded spans of rectangles `a..b` end. */
  function Reach(rects: seq<Rect>, lay: Layout, a: nat, b: nat): nat
    requires a < b <= |rects|
    decreases b
  {
    var hi := lay.Bounding(rects[b - 1]).hi;
    if b == a + 1 then hi else Max(Reach(rects, lay, a, b - 1), hi)
  }

  /** A span starting at `lo` overlaps or nearly touches what ends at `hi`. */
  predicate Joins(hi: nat, lo: nat, lay: Layout) {
    lo <= hi || lo - hi < lay.minGap
  }

  /** The region fits the group tightly, and each rectangle joins those before it. */
  ghost predicate Clumped(g: Group, rects: seq<Rect>, lay: Layout)
    requires g.iStart < g.iEnd <= |rects|
  {
    && g.region == Interval(lay.Bounding(rects[g.iStart]).lo, Reach(rects, lay, g.iStart, g.iEnd))
    && forall i :: g.iStart < i < g.iEnd ==> Joins(Reach(rects, lay, g.iStart, i), lay.Bounding(rects[i]).lo, lay)
  }

  ghost predicate GroupOk(g: Group, rects: seq<Rect>, lay: Layout) {
    && g.iStart < g.iEnd <= |rects|
    && Clumped(g, rects, lay)
    && Bounds(rects[g.iStart..g.iEnd], lay, g.region)
    && g.region.lo <= g.region.hi && g.region.hi % lay.Unit() == 0
  }

  /** Consecutive groups, too far apart to interact. */
  ghost predicate GroupsOk(gs: seq<Group>, rects: seq<Rect>, lay: Layout) {
    && (forall k :: 0 <= k < |gs| ==> GroupOk(gs[k], rects, lay))
    && (forall k :: 0 < k < |gs| ==> gs[k].iStart == gs[k - 1].iEnd)
    && (forall j, k :: 0 <= j < k < |gs| ==> gs[j].region.hi + Max(lay.minGap, 1) <= gs[k].region.lo)
    && (|gs| > 0 ==> gs[0].iStart == 0)
  }

  lemma BoundsMore(rects: seq<Rect>, lay: Layout, lo: nat, hi: nat, bound: Interval, bound': Interval)
    requires lo <= hi < |rects| && Bounds(rects[lo..hi], lay, bound)
    requires bound'.lo <= bound.lo && bound.hi <= bound'.hi
    requires bound'.lo <= lay.Bounding(rects[hi]).lo && lay.Bounding(rects[hi]).hi <= bound'.hi
    ensures Bounds(rects[lo..hi + 1], lay, bound')
  {
    hide Layout.Bounding;
    var s := rects[lo..hi + 1];
    forall i | 0 <= i < |s| ensures bound'.lo <= lay.Bounding(s[i]).lo && lay.Bounding(s[i]).hi <= bound'.hi {
      if i < hi - lo { assert s[i] == rects[lo..hi][i]; }
    }
  }

  /** The group with the next rectangle taken in. */
  function Grown(g: Group, rects: seq<Rect>, lay: Layout): Group
    requires g.iEnd < |rects|
  {
    Group(g.iStart, g.iEnd + 1, Interval(g.region.lo, Max(g.region.hi, lay.Bounding(rects[g.iEnd]).hi)))
  }

  lemma GroupGrows(g: Group, rects: seq<Rect>, lay: Layout)
    requires GroupOk(g, rects, lay) && g.iEnd < |rects| && rects[g.iEnd].Valid()
    requires g.region.lo <= lay.Bounding(rects[g.iEnd]).lo && Joins(g.region.hi, lay.Bounding(rects[g.iEnd]).lo, lay)
    ensures GroupOk(Grown(g, rects, lay), rects, lay)
  {
    hide Layout.Bounding, Layout.Unit, Bounds, Joins, Clumped;
    SpanOf(rects[g.iEnd], lay);
    ClumpGrows(g, rects, lay);
    assert g.region.hi <= Max(g.region.hi, lay.Bounding(rects[g.iEnd]).hi);
    BoundsMore(rects, lay, g.iStart, g.iEnd, g.region, Grown(g, rects, lay).region);
  }

  lemma ClumpGrows(g: Group, rects: seq<Rect>, lay: Layout)
    requires g.iStart < g.iEnd < |rects| && Clumped(g, rects, lay) &&
      Joins(g.region.hi, lay.Bounding(rects[g.iEnd]).lo, lay)
    ensures Clumped(Grown(g, rects, lay), rects, lay)
  {
    hide Layout.Bounding, Joins;
  }

  lemma GroupStarts(rects: seq<Rect>, lay: Layout, i: nat)
    requires i < |rects| && rects[i].Valid()
    ensures GroupOk(Group(i, i + 1, lay.Bounding(rects[i])), rects, lay)
  {
    SpanOf(rects[i], lay);
    hide Layout.Bounding;
    assert rects[i..i + 1] == [rects[i]];
  }

  lemma SpanOf(r: Rect, lay: Layout)
    requires r.Valid()
    ensures lay.Bounding(r).lo <= lay.Bounding(r).hi && lay.Bounding(r).hi % lay.Unit() == 0
  {
    MulLe(r.y1, r.y2, lay.stride);
    MulLe(r.x1, r.x2, lay.bpp);
  }

  lemma GroupsMore(gs: seq<Group>, g: Group, rects: seq<Rect>, lay: Layout)
    requires GroupsOk(gs, rects, lay) && GroupOk(g, rects, lay)
    requires if gs == [] then g.iStart == 0
             else g.iStart == gs[|gs| - 1].iEnd && gs[|gs| - 1].region.hi + Max(lay.minGap, 1) <= g.region.lo
    ensures GroupsOk(gs + [g], rects, lay)
  {
    hide GroupOk;
    forall j | 0 <= j < |gs| ensures gs[j].region.hi + Max(lay.minGap, 1) <= g.region.lo {
      assert j < |gs| - 1 ==> gs[j].region.hi <= gs[|gs| - 1].region.lo;
      LastRegion(gs, rects, lay);
    }
  }

  lemma LastRegion(gs: seq<Group>, rects: seq<Rect>, lay: Layout)
    requires GroupsOk(gs, rects, lay) && gs != []
    ensures gs[|gs| - 1].region.lo <= gs[|gs| - 1].region.hi
  {
    assert GroupOk(gs[|gs| - 1], rects, lay);
  }

  /** Clump rectangles whose rounded spans overlap or nearly touch. */
  method GroupRects(rects: seq<Rect>, lay: Layout) returns (spans: seq<Group>)
    requires rects != [] && AllValid(rects) && SortedByStart(rects, lay)
    ensures Grouping(spans, rects, lay)
  {
    hide GroupsOk, GroupOk, Layout.Bounding, SortedByStart, AllValid;
    spans := [];
    NoGroups(rects, lay);
    StartsInOrder(rects, lay, 0);
    GroupStarts(rects, lay, 0);
    var current := Group(0, 1, lay.Bounding(rects[0]));
    for i := 1 to |rects|
      invariant GroupsOk(spans, rects, lay) && GroupOk(current, rects, lay)
      invariant current.iEnd == i
      invariant if spans == [] then current.iStart == 0
                else
                  current.iStart == spans[|spans| - 1].iEnd &&
                  spans[|spans| - 1].region.hi + Max(lay.minGap, 1) <= current.region.lo
      invariant current.region.lo <= lay.Bounding(rects[i - 1]).lo
    {
      var b := lay.Bounding(rects[i]);
      StartsInOrder(rects, lay, i);
      if Joins(current.region.hi, b.lo, lay) {
        GroupGrows(current, rects, lay);
        current := Group(current.iStart, i + 1, Interval(current.region.lo, Max(current.region.hi, b.hi)));
      } else {
        GroupsMore(spans, current, rects, lay);
        spans := spans + [current];
        GroupStarts(rects, lay, i);
        current := Group(i, i + 1, b);
      }
    }
    GroupsMore(spans, current, rects, lay);
    spans := spans + [current];
  }

  /** These groups take in all rectangles. */
  ghost predicate Grouping(gs: seq<Group>, rects: seq<Rect>, lay: Layout) {
    GroupsOk(gs, rects, lay) && gs != [] && gs[|gs| - 1].iEnd == |rects|
  }

  lemma GroupingFacts(gs: seq<Group>, rects: seq<Rect>, lay: Layout)
    requires Grouping(gs, rects, lay)
    ensures GroupsOk(gs, rects, lay) && gs != [] && gs[|gs| - 1].iEnd == |rects|
  {
  }

  /** Only the last group goes on to the end. */
  lemma LastGroup(gs: seq<Group>, rects: seq<Rect>, lay: Layout, k: nat)
    requires Grouping(gs, rects, lay) && k < |gs|
    ensures GroupOk(gs[k], rects, lay) && gs[0].iStart == 0
    ensures gs[k].iStart < gs[k].iEnd <= |rects| && (gs[k].iEnd == |rects| <==> k == |gs| - 1)
    ensures k + 1 < |gs| ==> gs[k + 1].iStart == gs[k].iEnd
  {
    assert GroupOk(gs[k], rects, lay);
    if k + 1 < |gs| { assert GroupOk(gs[k + 1], rects, lay); }
  }

  /** A group ends where the next rectangle does not join it. */
  lemma StopsJoining(gs: seq<Group>, rects: seq<Rect>, lay: Layout, k: nat)
    requires Grouping(gs, rects, lay) && k < |gs| && gs[k].iStart < gs[k].iEnd < |rects|
    ensures !Joins(Reach(rects, lay, gs[k].iStart, gs[k].iEnd), lay.Bounding(rects[gs[k].iEnd]).lo, lay)
  {
    hide Layout.Bounding, Bounds, Reach;
    LastGroup(gs, rects, lay, k);
    assert GroupOk(gs[k], rects, lay) && GroupOk(gs[k + 1], rects, lay);
  }

  lemma KeepsJoining(g: Group, rects: seq<Rect>, lay: Layout, i: nat)
    requires GroupOk(g, rects, lay) && g.iStart < i < g.iEnd
    ensures Joins(Reach(rects, lay, g.iStart, i), lay.Bounding(rects[i]).lo, lay)
  {
  }

  lemma NoShorter(a: seq<Group>, b: seq<Group>, rects: seq<Rect>, lay: Layout, k: nat)
    requires Grouping(a, rects, lay) && Grouping(b, rects, lay) && k < |a| && k < |b| && a[k].iStart == b[k].iStart
    ensures a[k].iEnd >= b[k].iEnd
  {
    hide *;
    LastGroup(a, rects, lay, k);
    LastGroup(b, rects, lay, k);
    if a[k].iEnd < b[k].iEnd {
      var e := a[k].iEnd;
      KeepsJoining(b[k], rects, lay, e);
      StopsJoining(a, rects, lay, k);
    }
  }

  lemma SameRegion(a: Group, b: Group, rects: seq<Rect>, lay: Layout)
    requires GroupOk(a, rects, lay) && GroupOk(b, rects, lay) && a.iStart == b.iStart && a.iEnd == b.iEnd
    ensures a == b
  {
  }

  lemma SameNext(a: seq<Group>, b: seq<Group>, rects: seq<Rect>, lay: Layout, k: nat)
    requires Grouping(a, rects, lay) && Grouping(b, rects, lay) && k < |a| && k < |b|
    requires k > 0 ==> a[k - 1] == b[k - 1]
    ensures a[k] == b[k]
  {
    hide *;
    if k > 0 {
      LastGroup(a, rects, lay, k - 1);
      LastGroup(b, rects, lay, k - 1);
    }
    LastGroup(a, rects, lay, k);
    LastGroup(b, rects, lay, k);
    NoShorter(a, b, rects, lay, k);
    NoShorter(b, a, rects, lay, k);
    SameRegion(a[k], b[k], rects, lay);
  }

  lemma {:induction false} SamePrefix(a: seq<Group>, b: seq<Group>, rects: seq<Rect>, lay: Layout, k: nat)
    requires Grouping(a, rects, lay) && Grouping(b, rects, lay) && k <= |a| && k <= |b|
    ensures forall j :: 0 <= j < k ==> a[j] == b[j]
  {
    hide *;
    if k > 0 {
      SamePrefix(a, b, rects, lay, k - 1);
      SameNext(a, b, rects, lay, k - 1);
    }
  }

  lemma NoLonger(a: seq<Group>, b: seq<Group>, rects: seq<Rect>, lay: Layout)
    requires Grouping(a, rects, lay) && Grouping(b, rects, lay) && |a| <= |b|
    ensures a == b
  {
    hide *;
    GroupingFacts(a, rects, lay);
    SamePrefix(a, b, rects, lay, |a|);
    var last := |a| - 1;
    LastGroup(b, rects, lay, last);
  }

  /** There is only one way to group: each group goes on for as long as the next rectangle joins it. */
  lemma GroupsUnique(a: seq<Group>, b: seq<Group>, rects: seq<Rect>, lay: Layout)
    requires Grouping(a, rects, lay) && Grouping(b, rects, lay)
    ensures a == b
  {
    if |a| <= |b| { NoLonger(a, b, rects, lay); } else { NoLonger(b, a, rects, lay); }
  }

  lemma NoGroups(rects: seq<Rect>, lay: Layout)
    ensures GroupsOk([], rects, lay)
  {
  }

  lemma StartsInOrder(rects: seq<Rect>, lay: Layout, i: nat)
    requires AllValid(rects) && SortedByStart(rects, lay) && i < |rects|
    ensures rects[i].Valid() && (i > 0 ==> lay.Bounding(rects[i - 1]).lo <= lay.Bounding(rects[i]).lo)
  {
    if i > 0 {
      DownMonotone(lay, lay.At(rects[i - 1].x1, rects[i - 1].y1), lay.At(rects[i].x1, rects[i].y1));
    }
  }

  /** Damage accumulated over the first groups. */
  ghost predicate Accumulated(output: seq<Interval>, rects: seq<Rect>, lay: Layout, n: nat, hi: nat, exact: bool)
    requires n <= |rects| && AllValid(rects)
  {
    && GoodDamage(output, rects[..n], lay, Interval(0, hi))
    && (exact ==> IsClosure(output, AllRows(rects[..n], lay), lay.minGap))
    && (forall row :: row in AllRows(rects[..n], lay) ==> row.hi <= hi)
  }

  lemma RowsConcat(rects: seq<Rect>, lay: Layout, m: nat, n: nat)
    requires m <= n <= |rects| && AllValid(rects)
    ensures AllRows(rects[..n], lay) == AllRows(rects[..m], lay) + AllRows(rects[m..n], lay)
  {
    RowsIncluded(rects[..m], rects[..n], lay);
    RowsIncluded(rects[m..n], rects[..n], lay);
    forall row | row in AllRows(rects[..n], lay) ensures row in AllRows(rects[..m], lay) + AllRows(rects[m..n], lay) {
      var i, k :| 0 <= i < n && 0 <= k < rects[..n][i].y2 - rects[..n][i].y1 && row == lay.Row(rects[..n][i], k);
      if i < m { assert rects[..m][i] == rects[i]; } else { assert rects[m..n][i - m] == rects[i]; }
    }
  }

  lemma RowsInBound(rects: seq<Rect>, lay: Layout, bound: Interval, row: Interval)
    requires AllValid(rects) && Bounds(rects, lay, bound) && row in AllRows(rects, lay)
    ensures bound.lo <= row.lo && row.hi <= bound.hi
  {
    var i, k :| 0 <= i < |rects| && 0 <= k < rects[i].y2 - rects[i].y1 && row == lay.Row(rects[i], k);
    RowBounded(rects[i], k, lay);
  }

  lemma GoodConcat(a: seq<Interval>, b: seq<Interval>, rects: seq<Rect>, lay: Layout, m: nat, n: nat, hi: nat,
                   bound: Interval)
    requires m <= n <= |rects| && AllValid(rects)
    requires GoodDamage(a, rects[..m], lay, Interval(0, hi)) && GoodDamage(b, rects[m..n], lay, bound)
    requires (a == [] || hi + Max(lay.minGap, 1) <= bound.lo) && hi <= bound.hi
    ensures GoodDamage(a + b, rects[..n], lay, Interval(0, bound.hi))
  {
    RowsConcat(rects, lay, m, n);
    hide AllRows;
    var l := a + b;
    assert forall i :: 0 <= i < |a| ==> l[i] == a[i];
    assert forall i :: |a| <= i < |l| ==> l[i] == b[i - |a|];
    forall row, x | row in AllRows(rects[..n], lay) && row.Has(x) ensures Covers(l, x) {
      ConcatCovers(a, b, x);
    }
  }

  lemma AccumulateGroup(output: seq<Interval>, segs: seq<Interval>, rects: seq<Rect>, lay: Layout, m: nat, hi: nat,
                        exact: bool, g: Group, exhausted: bool)
    requires AllValid(rects) && lay.bpp > 0 && m <= |rects|
    requires Accumulated(output, rects, lay, m, hi, exact)
    requires GroupOk(g, rects, lay) && g.iStart == m && hi <= g.region.hi
    requires m == 0 || hi + Max(lay.minGap, 1) <= g.region.lo
    requires m == 0 ==> output == []
    requires GoodDamage(segs, rects[m..g.iEnd], lay, g.region)
    requires !exhausted ==> segs == Closure(AllRows(rects[m..g.iEnd], lay), lay.minGap)
    ensures Accumulated(output + segs, rects, lay, g.iEnd, g.region.hi, exact && !exhausted)
  {
    var n := g.iEnd;
    GoodConcat(output, segs, rects, lay, m, n, hi, g.region);
    RowsConcat(rects, lay, m, n);
    forall row | row in AllRows(rects[..n], lay) ensures row.hi <= g.region.hi {
      if row in AllRows(rects[m..n], lay) { RowsInBound(rects[m..n], lay, g.region, row); }
    }
    if exact && !exhausted {
      PiecesAsRows(rects[..m], lay);
      PiecesAsRows(rects[m..n], lay);
      ClosureIs(AllRows(rects[m..n], lay), lay.minGap);
      forall c, d | c in AllRows(rects[..m], lay) && d in AllRows(rects[m..n], lay)
        ensures c.hi + Max(lay.minGap, 1) <= d.lo {
        RowsInBound(rects[m..n], lay, g.region, d);
      }
      ClosureConcat(output, AllRows(rects[..m], lay), segs, AllRows(rects[m..n], lay), lay.minGap);
    }
  }

  /** Every group of rectangles can be swept to the end within its work budget. */
  ghost predicate AllAffordable(spans: seq<Group>, rects: seq<Rect>, lay: Layout)
    requires AllValid(rects) && GroupsOk(spans, rects, lay)
  {
    forall k :: 0 <= k < |spans| ==> GroupAffordable(spans[k], rects, lay)
  }

  ghost predicate GroupAffordable(g: Group, rects: seq<Rect>, lay: Layout)
    requires AllValid(rects) && GroupOk(g, rects, lay)
  {
    Affordable(rects[g.iStart..g.iEnd], lay, g.region)
  }

  /** A budget for the dearest heap steps throughout suffices for every group. */
  lemma AmpleBudget(spans: seq<Group>, rects: seq<Rect>, lay: Layout)
    requires AllValid(rects) && GroupsOk(spans, rects, lay)
    requires forall k :: 0 <= k < |spans| ==> WithinBudget(rects[spans[k].iStart..spans[k].iEnd], lay, spans[k].region)
    ensures AllAffordable(spans, rects, lay)
  {
    forall k | 0 <= k < |spans| ensures GroupAffordable(spans[k], rects, lay) {
      GroupFacts(spans, rects, lay, k);
      WithinBudgetSuffices(rects[spans[k].iStart..spans[k].iEnd], lay, spans[k].region);
    }
  }

  /** What the sweep of one group yields and the heap steps it takes. */
  ghost predicate GroupDone(part: seq<Interval>, steps: nat, g: Group, rects: seq<Rect>, lay: Layout)
    requires AllValid(rects) && GroupOk(g, rects, lay)
  {
    && GroupResult(part, rects[g.iStart..g.iEnd], lay, g.region)
    && steps <= (g.region.hi - g.region.lo) / 32 + 1
  }

  ghost predicate GroupsDone(parts: seq<seq<Interval>>, steps: seq<nat>, spans: seq<Group>, rects: seq<Rect>,
                             lay: Layout)
    requires AllValid(rects) && GroupsOk(spans, rects, lay)
  {
    && |parts| == |steps| <= |spans|
    && forall k :: 0 <= k < |parts| ==> GroupDone(parts[k], steps[k], spans[k], rects, lay)
  }

  lemma OneMoreDone(parts: seq<seq<Interval>>, steps: seq<nat>, spans: seq<Group>, rects: seq<Rect>, lay: Layout,
                    part: seq<Interval>, n: nat)
    requires AllValid(rects) && GroupsOk(spans, rects, lay) && GroupsDone(parts, steps, spans, rects, lay)
    requires |parts| < |spans| && GroupDone(part, n, spans[|parts|], rects, lay)
    ensures GroupsDone(parts + [part], steps + [n], spans, rects, lay)
  {
    hide GroupDone, GroupOk, AllValid;
    assert forall k :: 0 <= k < |parts| ==> (parts + [part])[k] == parts[k] && (steps + [n])[k] == steps[k];
  }

  lemma DoneFacts(part: seq<Interval>, steps: nat, spans: seq<Group>, rects: seq<Rect>, lay: Layout, k: nat)
    requires AllValid(rects) && GroupsOk(spans, rects, lay) && k < |spans| && GroupOk(spans[k], rects, lay)
    requires GroupResult(part, rects[spans[k].iStart..spans[k].iEnd], lay, spans[k].region)
    requires steps <= (spans[k].region.hi - spans[k].region.lo) / 32 + 1
    ensures GroupDone(part, steps, spans[k], rects, lay)
  {
  }

  lemma ExactGroup(part: seq<Interval>, spans: seq<Group>, rects: seq<Rect>, lay: Layout, k: nat)
    requires AllValid(rects) && GroupsOk(spans, rects, lay) && k < |spans| && GroupOk(spans[k], rects, lay)
    requires GroupResult(part, rects[spans[k].iStart..spans[k].iEnd], lay, spans[k].region)
    ensures Affordable(rects[spans[k].iStart..spans[k].iEnd], lay, spans[k].region) ==>
      part == Closure(AllRows(rects[spans[k].iStart..spans[k].iEnd], lay), lay.minGap)
    ensures AllAffordable(spans, rects, lay) ==> Affordable(rects[spans[k].iStart..spans[k].iEnd], lay, spans[k].region)
  {
    assert AllAffordable(spans, rects, lay) ==> GroupAffordable(spans[k], rects, lay);
  }

  /** A list that covers the rows covers every byte of every pixel. */
  lemma RectsCovered(l: seq<Interval>, rects: seq<Rect>, lay: Layout)
    requires AllValid(rects) && CoversAll(l, AllRows(rects, lay))
    ensures forall i, x :: 0 <= i < |rects| && InRect(rects[i], lay, x) ==> Covers(l, x)
  {
    hide InRect, AllRows;
    forall i, x | 0 <= i < |rects| && InRect(rects[i], lay, x) ensures Covers(l, x) {
      var row := RectByteInRow(rects, lay, i, x);
      assert row in AllRows(rects, lay) && row.Has(x);
    }
  }

  /**
   * The damage of a set of rectangles: always valid, aligned and covering every
   * row. It is put together from one part for each of the groups `spans` of the
   * sorted rectangles, and is exactly the gap closure of all rows when every
   * group is affordable.
   */
  method ComputeDamagedSegments(rects: seq<Rect>, lay: Layout)
    returns (output: seq<Interval>, ghost sorted: seq<Rect>, ghost spans: seq<Group>,
             ghost parts: seq<seq<Interval>>, ghost steps: seq<nat>)
    requires AllValid(rects) && (rects != [] ==> lay.bpp > 0)
    ensures Separated(output, Max(lay.minGap, 1)) && AllAligned(output, lay.alignBits)
    ensures CoversAll(output, AllRows(rects, lay))
    ensures forall i, x :: 0 <= i < |rects| && InRect(rects[i], lay, x) ==> Covers(output, x)
    ensures multiset(sorted) == multiset(rects) && SortedByStart(sorted, lay) && AllValid(sorted)
    ensures GroupsOk(spans, sorted, lay)
    ensures if rects == [] then spans == [] else Grouping(spans, sorted, lay)
    ensures output == Flat(parts) && |parts| == |spans| && GroupsDone(parts, steps, spans, sorted, lay)
    ensures AllAffordable(spans, sorted, lay) ==> output == Closure(AllRows(rects, lay), lay.minGap)
  {
    hide *;
    output, sorted, spans, parts, steps := [], [], [], [], [];
    if rects == [] {
      NoRects(lay);
      RectsCovered(output, rects, lay);
      return;
    }
    ghost var exact := true;
    var inOrder := SortByStart(rects, lay);
    sorted := inOrder;
    SameRects(rects, inOrder, lay);
    SameLength(rects, inOrder);
    var groups := GroupRects(inOrder, lay);
    GroupingFacts(groups, inOrder, lay);
    spans := groups;
    ghost var hi, n := 0, 0;
    NothingAccumulated(inOrder, groups, lay);
    for k := 0 to |groups|
      invariant n <= |inOrder|
      invariant if k == 0 then n == 0 && output == [] && hi == 0
                else n == groups[k - 1].iEnd && hi == groups[k - 1].region.hi && n > 0
      invariant Accumulated(output, inOrder, lay, n, hi, exact)
      invariant output == Flat(parts) && |parts| == k && GroupsDone(parts, steps, groups, inOrder, lay)
      invariant AllAffordable(groups, inOrder, lay) ==> exact
    {
      GroupFacts(groups, inOrder, lay, k);
      ghost var group := inOrder[groups[k].iStart..groups[k].iEnd];
      var segs, exhausted, taken := ProcessGroup(inOrder[groups[k].iStart..groups[k].iEnd], groups[k].region, lay);
      DoneFacts(segs, taken, groups, inOrder, lay, k);
      OneMoreDone(parts, steps, groups, inOrder, lay, segs, taken);
      FlatMore(parts, segs);
      ExactGroup(segs, groups, inOrder, lay, k);
      ghost var affordable := Affordable(group, lay, groups[k].region);
      AccumulateGroup(output, segs, inOrder, lay, n, hi, exact, groups[k], !affordable);
      output, parts, steps := output + segs, parts + [segs], steps + [taken];
      exact := exact && affordable;
      n, hi := groups[k].iEnd, groups[k].region.hi;
    }
    assert inOrder[..n] == inOrder;
    AccumulatedAll(output, inOrder, lay, n, hi, exact);
    RectsCovered(output, rects, lay);
  }

  lemma NoRects(lay: Layout)
    ensures Separated([], Max(lay.minGap, 1)) && AllAligned([], lay.alignBits) && AllValid([])
    ensures AllRows([], lay) == {} && CoversAll([], {}) && Closure({}, lay.minGap) == []
    ensures SortedByStart([], lay) && GroupsOk([], [], lay) && Flat<Interval>([]) == [] &&
      GroupsDone([], [], [], [], lay)
  {
  }

  lemma SameLength(a: seq<Rect>, b: seq<Rect>)
    requires multiset(a) == multiset(b)
    ensures |a| == |b|
  {
    assert |multiset(a)| == |a| && |multiset(b)| == |b|;
  }

  lemma NothingAccumulated(rects: seq<Rect>, spans: seq<Group>, lay: Layout)
    requires AllValid(rects) && GroupsOk(spans, rects, lay)
    ensures Accumulated([], rects, lay, 0, 0, true)
    ensures Flat<Interval>([]) == [] && GroupsDone([], [], spans, rects, lay)
  {
    assert AllRows(rects[..0], lay) == {};
  }

  lemma GroupFacts(spans: seq<Group>, rects: seq<Rect>, lay: Layout, k: nat)
    requires GroupsOk(spans, rects, lay) && k < |spans| && AllValid(rects)
    ensures GroupOk(spans[k], rects, lay)
    ensures var g := spans[k];
      && g.iStart < g.iEnd <= |rects| && g.region.lo <= g.region.hi && g.region.hi % lay.Unit() == 0
      && Bounds(rects[g.iStart..g.iEnd], lay, g.region) && AllValid(rects[g.iStart..g.iEnd])
      && g.iStart == (if k == 0 then 0 else spans[k - 1].iEnd)
      && (k > 0 ==> spans[k - 1].region.hi + Max(lay.minGap, 1) <= g.region.lo && spans[k - 1].region.hi <= g.region.hi)
  {
    assert GroupOk(spans[k], rects, lay);
  }

  lemma AccumulatedAll(output: seq<Interval>, rects: seq<Rect>, lay: Layout, n: nat, hi: nat, exact: bool)
    requires n <= |rects| && AllValid(rects) && rects[..n] == rects && lay.bpp > 0
    requires Accumulated(output, rects, lay, n, hi, exact)
    ensures Separated(output, Max(lay.minGap, 1)) && AllAligned(output, lay.alignBits)
    ensures CoversAll(output, AllRows(rects, lay))
    ensures exact ==> output == Closure(AllRows(rects, lay), lay.minGap)
  {
    PiecesAsRows(rects, lay);
    if exact { ClosureUnique(output, AllRows(rects, lay), lay.minGap); }
  }
}

/** The C implementation's damage list: a mergesort on an explicit stack of sentinel-terminated runs in one buffer. */
module MergeStack {
  import opened Bytes
  import opened Intervals
  import opened UnionDamage

  const INT32_MAX: nat := 0x7fff_ffff
  const INT32_MIN: int := -0x8000_0000
  const SENTINEL := Interval(INT32_MAX, INT32_MAX)

  /** A run of intervals as it lies in the buffer. */
  datatype Elem = Elem(offset: nat, count: nat)

  /** Rows `start..start+width`, `start+stride..`, and so on. */
  datatype Ext = Ext(start: int, width: int, rep: int, stride: int)

  // ---- Merging two runs ----

  /**
   * A run that merging can read: ascending, disjoint (apart unless the margin is zero), and no
   * start is mistaken for a sentinel.
   */
  predicate Run(l: seq<Interval>, margin: nat) {
    Separated(l, Min(margin, 1)) && forall i :: 0 <= i < |l| ==> l[i].lo < INT32_MAX
  }

  /** `c` lists the gap closure of `s`; at margin zero intervals that touch stay apart. */
  ghost predicate Merged(c: seq<Interval>, s: set<Interval>, margin: nat) {
    Separated(c, margin) && Lists(c, s, margin)
  }

  /** `l` stands at `offset`, followed by a sentinel. */
  predicate Holds(data: seq<Interval>, offset: nat, l: seq<Interval>) {
    offset + |l| < |data| && data[offset..offset + |l|] == l && data[offset + |l|] == SENTINEL
  }

  lemma HoldsAt(data: seq<Interval>, offset: nat, l: seq<Interval>, margin: nat, i: nat)
    requires Holds(data, offset, l) && Run(l, margin) && i <= |l|
    ensures offset + i < |data| && (data[offset + i].lo == INT32_MAX <==> i == |l|) && data[offset + i].lo <= INT32_MAX
    ensures i < |l| ==> data[offset + i] == l[i]
  {
    if i < |l| { assert data[offset..offset + |l|][i] == data[offset + i]; }
  }

  /** The last end written so far. */
  predicate AtCursor(c: seq<Interval>, cursor: int) {
    if c == [] then cursor == INT32_MIN else cursor == c[|c| - 1].hi
  }

  lemma RunNonempty(a: seq<Interval>, ia: nat, b: seq<Interval>, ib: nat, margin: nat)
    requires Run(a, margin) && Run(b, margin) && ia <= |a| && ib <= |b|
    ensures Nonempty(Elems(a[..ia]) + Elems(b[..ib]))
  {
    TakenSoFar(a, ia, b, ib, Min(margin, 1));
  }

  /** Merge the runs at two offsets. */
  method StreamMerge(data: seq<Interval>, aOff: nat, bOff: nat, margin: nat, ghost a: seq<Interval>,
                     ghost b: seq<Interval>)
    returns (c: seq<Interval>)
    requires Run(a, margin) && Run(b, margin) && Holds(data, aOff, a) && Holds(data, bOff, b) && margin <= INT32_MAX
    ensures Merged(c, Elems(a) + Elems(b), margin)
    ensures margin > 0 ==> c == Union(a, b, margin)
  {
    hide *;
    c := [];
    var cursor := INT32_MIN;
    var ia, ib := 0, 0;
    assert Elems(a[..0]) + Elems(b[..0]) == {} by { NoElems(); }
    NothingYet(a, b, margin);
    NothingMerged(margin);
    Begin();
    HoldsAt(data, aOff, a, margin, 0);
    HoldsAt(data, bOff, b, margin, 0);
    while !(data[aOff + ia].lo == INT32_MAX && data[bOff + ib].lo == INT32_MAX)
      invariant 0 <= ia <= |a| && 0 <= ib <= |b| && AtCursor(c, cursor)
      invariant aOff + ia < |data| && bOff + ib < |data|
      invariant Merged(c, Elems(a[..ia]) + Elems(b[..ib]), margin)
      invariant Upcoming(Elems(a[..ia]) + Elems(b[..ib]), a, ia)
      invariant Upcoming(Elems(a[..ia]) + Elems(b[..ib]), b, ib)
      decreases |a| - ia + |b| - ib
    {
      ghost var s := Elems(a[..ia]) + Elems(b[..ib]);
      RunNonempty(a, ia, b, ib, margin);
      HoldsAt(data, aOff, a, margin, ia);
      HoldsAt(data, bOff, b, margin, ib);
      var sel;
      if data[aOff + ia].lo < data[bOff + ib].lo {
        sel := data[aOff + ia];
        TakeRun(s, a, ia, b, ib, margin);
        ia := ia + 1;
        HoldsAt(data, aOff, a, margin, ia);
      } else {
        sel := data[bOff + ib];
        TakeRun(s, b, ib, a, ia, margin);
        ib := ib + 1;
        HoldsAt(data, bOff, b, margin, ib);
      }
      MergeStep(c, s, margin, sel);
      assert Elems(a[..ia]) + Elems(b[..ib]) == s + {sel};
      c, cursor := Append(c, cursor, sel, margin);
    }
    HoldsAt(data, aOff, a, margin, ia);
    HoldsAt(data, bOff, b, margin, ib);
    assert a[..|a|] == a && b[..|b|] == b;
    RunNonempty(a, |a|, b, |b|, margin);
    if margin > 0 {
      MergedIsClosure(c, Elems(a) + Elems(b), margin);
      ClosureUnique(c, Elems(a) + Elems(b), margin);
      UnionIs(a, b, margin);
    }
  }

  lemma NothingMerged(margin: nat)
    ensures Merged([], {}, margin)
  {
  }

  /** With a positive margin there is one way to list the closure. */
  lemma MergedIsClosure(c: seq<Interval>, s: set<Interval>, margin: nat)
    requires margin > 0
    ensures Merged(c, s, margin) <==> IsClosure(c, s, margin)
  {
  }

  /** Add an interval, or extend the last one over it if it starts before the margin is reached. */
  function Joined(c: seq<Interval>, sel: Interval, margin: nat): seq<Interval> {
    if c == [] || sel.lo >= c[|c| - 1].hi + margin then c + [sel]
    else c[..|c| - 1] + [Interval(c[|c| - 1].lo, Max(c[|c| - 1].hi, sel.hi))]
  }

  lemma JoinedIsAbsorbed(c: seq<Interval>, sel: Interval, margin: nat)
    requires margin > 0
    ensures Joined(c, sel, margin) == Absorb(c, sel, margin)
  {
  }

  lemma MergeStep(c: seq<Interval>, s: set<Interval>, margin: nat, sel: Interval)
    requires Merged(c, s, margin) && Nonempty(s) && sel.lo < sel.hi && forall a :: a in s ==> a.lo <= sel.lo
    ensures Merged(Joined(c, sel, margin), s + {sel}, margin)
  {
    hide *;
    if margin > 0 {
      MergedIsClosure(c, s, margin);
      AbsorbClosure(c, s, margin, sel);
      JoinedIsAbsorbed(c, sel, margin);
      MergedIsClosure(Joined(c, sel, margin), s + {sel}, margin);
    } else {
      TouchStep(c, s, sel);
    }
  }

  /** Without a margin only overlapping intervals are joined. */
  lemma TouchStep(c: seq<Interval>, s: set<Interval>, sel: Interval)
    requires Merged(c, s, 0) && sel.lo < sel.hi && forall a :: a in s ==> a.lo <= sel.lo
    ensures Merged(Joined(c, sel, 0), s + {sel}, 0)
  {
    TouchApart(c, s, sel);
    TouchEnds(c, s, sel);
    hide Joined, InClosure, Covers, EndsFrom, Separated;
    forall x ensures Covers(Joined(c, sel, 0), x) <==> InClosure(s + {sel}, 0, x) {
      TouchCovers(c, sel, x);
      UnionBytes(s, sel, x);
    }
  }

  lemma TouchApart(c: seq<Interval>, s: set<Interval>, sel: Interval)
    requires Separated(c, 0) && EndsFrom(c, s) && sel.lo < sel.hi && forall a :: a in s ==> a.lo <= sel.lo
    ensures Separated(Joined(c, sel, 0), 0) && (c != [] ==> c[|c| - 1].lo <= sel.lo)
  {
    if c != [] { assert Starts(s, c[|c| - 1].lo); }
  }

  lemma TouchCovers(c: seq<Interval>, sel: Interval, x: int)
    requires c != [] ==> c[|c| - 1].lo <= sel.lo
    ensures Covers(Joined(c, sel, 0), x) <==> Covers(c, x) || sel.Has(x)
  {
    CoversAppend(c, sel, x);
    if c != [] {
      var init, last := c[..|c| - 1], c[|c| - 1];
      assert c == init + [last];
      CoversAppend(init, last, x);
      CoversAppend(init, Interval(last.lo, Max(last.hi, sel.hi)), x);
    }
  }

  lemma UnionBytes(s: set<Interval>, sel: Interval, x: int)
    ensures InClosure(s + {sel}, 0, x) <==> InClosure(s, 0, x) || sel.Has(x)
  {
    if a :| a in s && a.Has(x) { assert a in s + {sel}; }
    if sel.Has(x) { assert sel in s + {sel}; }
  }

  lemma TouchEnds(c: seq<Interval>, s: set<Interval>, sel: Interval)
    requires EndsFrom(c, s)
    ensures EndsFrom(Joined(c, sel, 0), s + {sel})
  {
    var c' := Joined(c, sel, 0);
    assert sel in s + {sel};
    forall i | 0 <= i < |c'| ensures Starts(s + {sel}, c'[i].lo) && Ends(s + {sel}, c'[i].hi) {
      if i < |c| {
        var a :| a in s && a.lo == c[i].lo;
        var b :| b in s && b.hi == c[i].hi;
        assert a in s + {sel} && b in s + {sel};
      }
    }
  }

  lemma Begin()
    ensures AtCursor([], INT32_MIN) && Pending([], None) == []
  {
  }

  lemma TakeRun(s: set<Interval>, l: seq<Interval>, k: nat, other: seq<Interval>, j: nat, margin: nat)
    requires Run(l, margin) && k < |l| && Upcoming(s, l, k) && Upcoming(s, other, j)
    requires j < |other| ==> l[k].lo <= other[j].lo
    ensures Upcoming(s + {l[k]}, l, k + 1) && Upcoming(s + {l[k]}, other, j)
    ensures Elems(l[..k + 1]) == Elems(l[..k]) + {l[k]}
    ensures l[k].lo < l[k].hi && forall c :: c in s ==> c.lo <= l[k].lo
  {
    TakeNext(s, l, k, other, j, Min(margin, 1));
  }

  /** Add an interval to the output, or extend the last one over it. */
  method Append(c: seq<Interval>, cursor: int, sel: Interval, margin: nat) returns (c': seq<Interval>, cursor': int)
    requires AtCursor(c, cursor) && margin <= INT32_MAX && sel.lo < sel.hi
    ensures c' == Joined(c, sel, margin) && AtCursor(c', cursor')
  {
    cursor' := if cursor > sel.hi then cursor else sel.hi;
    if sel.lo >= cursor + margin {
      c' := c + [sel];
    } else {
      c' := c[..|c| - 1] + [Interval(c[|c| - 1].lo, cursor')];
    }
  }

  // ---- The stack of runs ----

  /** Runs one after the other, each with its sentinel. */
  ghost function Buffered(lists: seq<seq<Interval>>): seq<Interval> {
    if lists == [] then [] else Buffered(lists[..|lists| - 1]) + lists[|lists| - 1] + [SENTINEL]
  }

  /** The stack describes where the runs lie. */
  ghost predicate Laid(s: seq<Elem>, lists: seq<seq<Interval>>) {
    |s| == |lists| && forall k :: 0 <= k < |s| ==> s[k] == Elem(|Buffered(lists[..k])|, |lists[k]|)
  }

  /** What a run stands for: the intervals it was unpacked from, as they are or with short gaps closed. */
  ghost predicate Represents(l: seq<Interval>, raw: set<Interval>, margin: nat, top: nat) {
    && l != [] && Run(l, margin) && Nonempty(raw) && (forall i :: 0 <= i < |l| ==> l[i].hi < top)
    && (raw == Elems(l) || Merged(l, raw, margin))
  }

  ghost predicate AllRepresent(lists: seq<seq<Interval>>, raws: seq<set<Interval>>, margin: nat, top: nat) {
    |lists| == |raws| && forall k :: 0 <= k < |lists| ==> Represents(lists[k], raws[k], margin, top)
  }

  ghost function All(raws: seq<set<Interval>>): set<Interval> {
    if raws == [] then {} else All(raws[..|raws| - 1]) + raws[|raws| - 1]
  }

  /** Each run is at most half as long as the one below it. */
  predicate Halved(s: seq<Elem>) {
    forall k :: 0 < k < |s| ==> 2 * s[k].count <= s[k - 1].count
  }

  lemma BufferedLast(lists: seq<seq<Interval>>, l: seq<Interval>)
    ensures Buffered(lists + [l]) == Buffered(lists) + l + [SENTINEL]
  {
    assert (lists + [l])[..|lists|] == lists;
  }

  lemma TopTwo(init: seq<seq<Interval>>, nxt: seq<Interval>, top: seq<Interval>)
    ensures var data := Buffered(init + [nxt] + [top]);
      Holds(data, |Buffered(init)|, nxt) && Holds(data, |Buffered(init + [nxt])|, top) &&
        data[..|Buffered(init)|] == Buffered(init)
  {
    BufferedLast(init + [nxt], top);
    BufferedLast(init, nxt);
  }

  /** Closing short gaps run by run is closing them all at once. */
  lemma MergeRepresents(u: seq<Interval>, a: seq<Interval>, ra: set<Interval>, b: seq<Interval>, rb: set<Interval>,
                        margin: nat, top: nat)
    requires Represents(a, ra, margin, top) && Represents(b, rb, margin, top) && Merged(u, Elems(a) + Elems(b), margin)
    ensures Represents(u, rb + ra, margin, top)
  {
    var ea, eb := Elems(a), Elems(b);
    assert a[..|a|] == a && b[..|b|] == b;
    UnionShape(u, a, b, margin, top);
    ListsVia(u, a, ra, eb, margin);
    assert ra + eb == eb + ra;
    ListsVia(u, b, rb, ra, margin);
  }

  /** What is listed may be named by the intervals a run was merged from. */
  lemma ListsVia(u: seq<Interval>, a: seq<Interval>, ra: set<Interval>, other: set<Interval>, margin: nat)
    requires Nonempty(ra) && Nonempty(other) && (ra == Elems(a) || Lists(a, ra, margin)) &&
      Lists(u, Elems(a) + other, margin)
    ensures Lists(u, ra + other, margin)
  {
    if ra != Elems(a) {
      SameClosure(a, ra, other, margin);
      forall i | 0 <= i < |u| ensures Starts(ra + other, u[i].lo) && Ends(ra + other, u[i].hi) {
        EndsVia(a, ra, other, u[i]);
      }
    }
  }

  lemma EndsVia(a: seq<Interval>, ra: set<Interval>, other: set<Interval>, n: Interval)
    requires EndsFrom(a, ra) && Starts(Elems(a) + other, n.lo) && Ends(Elems(a) + other, n.hi)
    ensures Starts(ra + other, n.lo) && Ends(ra + other, n.hi)
  {
    var c :| c in Elems(a) + other && c.lo == n.lo;
    if c in Elems(a) { var c' :| c' in ra && c'.lo == c.lo; assert c' in ra + other; } else { assert c in ra + other; }
    var d :| d in Elems(a) + other && d.hi == n.hi;
    if d in Elems(a) { var d' :| d' in ra && d'.hi == d.hi; assert d' in ra + other; } else { assert d in ra + other; }
  }

  lemma UnionShape(u: seq<Interval>, a: seq<Interval>, b: seq<Interval>, margin: nat, top: nat)
    requires Merged(u, Elems(a) + Elems(b), margin) && Run(a, margin) && Run(b, margin) && a != []
    requires (forall i :: 0 <= i < |a| ==> a[i].hi < top) && (forall i :: 0 <= i < |b| ==> b[i].hi < top)
    ensures u != [] && Run(u, margin) && Nonempty(Elems(a)) && Nonempty(Elems(b)) &&
      forall i :: 0 <= i < |u| ==> u[i].hi < top
  {
    var s := Elems(a) + Elems(b);
    assert a[0] in s && a[0].Has(a[0].lo);
    assert Covers(u, a[0].lo);
    forall i | 0 <= i < |u| ensures u[i].lo < INT32_MAX && u[i].hi < top {
      assert Starts(s, u[i].lo) && Ends(s, u[i].hi);
    }
  }

  ghost predicate Stacked(s: seq<Elem>, data: seq<Interval>, lists: seq<seq<Interval>>, raws: seq<set<Interval>>,
                          margin: nat, top: nat) {
    Laid(s, lists) && data == Buffered(lists) && AllRepresent(lists, raws, margin, top)
  }

  lemma SplitTop(lists: seq<seq<Interval>>)
    requires |lists| >= 2
    ensures lists == lists[..|lists| - 2] + [lists[|lists| - 2]] + [lists[|lists| - 1]]
  {
  }

  /** Where the two topmost runs lie. */
  lemma TopOfStack(s: seq<Elem>, data: seq<Interval>, lists: seq<seq<Interval>>, raws: seq<set<Interval>>,
                   margin: nat, top: nat)
    requires Stacked(s, data, lists, raws, margin, top) && |s| >= 2
    ensures var n := |s|;
      && |lists| == |raws| == n && s[n - 1].count == |lists[n - 1]| && s[n - 2].count == |lists[n - 2]|
      && Run(lists[n - 1], margin) && Run(lists[n - 2], margin) && s[n - 2].offset <= |data|
      && Holds(data, s[n - 1].offset, lists[n - 1]) && Holds(data, s[n - 2].offset, lists[n - 2])
  {
    var n := |s|;
    SplitTop(lists);
    TopTwo(lists[..n - 2], lists[n - 2], lists[n - 1]);
    assert lists[..n - 2] + [lists[n - 2]] == lists[..n - 1];
    assert Represents(lists[n - 1], raws[n - 1], margin, top) && Represents(lists[n - 2], raws[n - 2], margin, top);
    hide Buffered, Represents, Holds;
  }

  lemma MergedTop(s: seq<Elem>, data: seq<Interval>, lists: seq<seq<Interval>>, raws: seq<set<Interval>>, margin: nat,
                  top: nat, u: seq<Interval>)
    requires Stacked(s, data, lists, raws, margin, top) && |s| >= 2
    requires Merged(u, Elems(lists[|s| - 1]) + Elems(lists[|s| - 2]), margin) && s[|s| - 2].offset <= |data|
    ensures var n := |s|;
      Stacked(s[..n - 2] + [Elem(s[n - 2].offset, |u|)], data[..s[n - 2].offset] + u + [SENTINEL], lists[..n - 2] + [u],
              raws[..n - 2] + [raws[n - 2] + raws[n - 1]], margin, top)
    ensures All(raws[..|s| - 2] + [raws[|s| - 2] + raws[|s| - 1]]) == All(raws)
  {
    var n := |s|;
    SplitTop(lists);
    TopTwo(lists[..n - 2], lists[n - 2], lists[n - 1]);
    BufferedLast(lists[..n - 2], u);
    LaidMerged(s, lists, u);
    RepresentMerged(lists, raws, margin, top, u);
    AllMerged(raws);
    hide AllRepresent, Buffered, All, Merged, Holds;
  }

  lemma LaidMerged(s: seq<Elem>, lists: seq<seq<Interval>>, u: seq<Interval>)
    requires Laid(s, lists) && |s| >= 2
    ensures Laid(s[..|s| - 2] + [Elem(s[|s| - 2].offset, |u|)], lists[..|s| - 2] + [u])
  {
    hide Buffered;
    var n, lists' := |s|, lists[..|s| - 2] + [u];
    assert forall k :: 0 <= k <= n - 2 ==> lists'[..k] == lists[..k];
  }

  lemma RepresentMerged(lists: seq<seq<Interval>>, raws: seq<set<Interval>>, margin: nat, top: nat, u: seq<Interval>)
    requires AllRepresent(lists, raws, margin, top) && |lists| >= 2
    requires Merged(u, Elems(lists[|lists| - 1]) + Elems(lists[|lists| - 2]), margin)
    ensures AllRepresent(lists[..|lists| - 2] + [u], raws[..|lists| - 2] + [raws[|lists| - 2] + raws[|lists| - 1]],
                         margin, top)
  {
    var n := |lists|;
    hide Represents, Merged, Elems;
    MergeRepresents(u, lists[n - 1], raws[n - 1], lists[n - 2], raws[n - 2], margin, top);
  }

  lemma AllMerged(raws: seq<set<Interval>>)
    requires |raws| >= 2
    ensures All(raws[..|raws| - 2] + [raws[|raws| - 2] + raws[|raws| - 1]]) == All(raws)
  {
    var n := |raws|;
    var raws' := raws[..n - 2] + [raws[n - 2] + raws[n - 1]];
    assert raws'[..n - 2] == raws[..n - 2] && raws[..n - 1][..n - 2] == raws[..n - 2];
  }

  lemma HalvedAbove(s: seq<Elem>)
    requires |s| >= 2 && Halved(s[..|s| - 1]) && 2 * s[|s| - 1].count <= s[|s| - 2].count
    ensures Halved(s)
  {
  }

  lemma HalvedBelow(s: seq<Elem>, k: nat)
    requires k < |s| && Halved(s[..|s| - 1])
    ensures Halved(s[..k])
  {
    assert forall i :: 0 <= i < k ==> s[..k][i] == s[..|s| - 1][i];
  }

  lemma HalvedFew(s: seq<Elem>)
    requires |s| <= 1
    ensures Halved(s)
  {
  }

  /** The number of intervals in all runs. */
  ghost function Total(lists: seq<seq<Interval>>): nat {
    if lists == [] then 0 else Total(lists[..|lists| - 1]) + |lists[|lists| - 1]|
  }

  /** The two topmost runs stay apart: the upper one is at most half as long as the other, and nothing forces them. */
  ghost predicate Rests(lists: seq<seq<Interval>>, force: bool) {
    |lists| <= 1 || (2 * |lists[|lists| - 1]| <= |lists[|lists| - 2]| && !force)
  }

  /** What the runs become when the two topmost are merged for as long as they do not rest. */
  ghost predicate Restacks(lists: seq<seq<Interval>>, after: seq<seq<Interval>>, margin: nat, force: bool)
    decreases |lists|
  {
    var n := |lists|;
    if Rests(lists, force) then after == lists
    else exists u ::
      Merged(u, Elems(lists[n - 1]) + Elems(lists[n - 2]), margin) &&
        Restacks(lists[..n - 2] + [u], after, margin, force)
  }

  lemma RestackStep(lists: seq<seq<Interval>>, u: seq<Interval>, margin: nat, force: bool)
    requires !Rests(lists, force) && Merged(u, Elems(lists[|lists| - 1]) + Elems(lists[|lists| - 2]), margin)
    ensures forall after :: Restacks(lists[..|lists| - 2] + [u], after, margin, force) ==>
      Restacks(lists, after, margin, force)
  {
    hide Merged, Elems;
  }

  lemma TotalMerged(lists: seq<seq<Interval>>, u: seq<Interval>)
    requires |lists| >= 2
    ensures Total(lists[..|lists| - 2] + [u]) + |lists[|lists| - 1]| + |lists[|lists| - 2]| == Total(lists) + |u|
  {
    var n := |lists|;
    assert (lists[..n - 2] + [u])[..n - 2] == lists[..n - 2] == lists[..n - 1][..n - 2];
  }

  lemma TotalMore(lists: seq<seq<Interval>>, l: seq<Interval>)
    ensures Total(lists + [l]) == Total(lists) + |l|
  {
    assert (lists + [l])[..|lists|] == lists;
  }

  /** Merge from the top until every run is at most half the one below, or, when forced, until one is left. */
  method FixMergeStackProperty(size: nat, stack: array<Elem>, data: seq<Interval>, margin: nat, force: bool,
                               absorbed: int,
                               ghost lists: seq<seq<Interval>>, ghost raws: seq<set<Interval>>, ghost top: nat)
    returns (size': nat, data': seq<Interval>, absorbed': int, ghost lists': seq<seq<Interval>>,
             ghost raws': seq<set<Interval>>)
    requires size <= stack.Length && Stacked(stack[..size], data, lists, raws, margin, top) && margin <= INT32_MAX
    requires size > 0 ==> Halved(stack[..size - 1])
    modifies stack
    ensures size' <= size && (size > 0 ==> size' > 0) && (force ==> size' <= 1)
    ensures Stacked(stack[..size'], data', lists', raws', margin, top) && Halved(stack[..size'])
    ensures All(raws') == All(raws)
    ensures Restacks(lists, lists', margin, force) && absorbed' + Total(lists') == absorbed + Total(lists)
  {
    hide Stacked, All, Union, Halved, Merged, Elems, Restacks, Total;
    size', data', absorbed', lists', raws' := size, data, absorbed, lists, raws;
    while size' > 1
      invariant size' <= size && (size > 0 ==> size' > 0)
      invariant Stacked(stack[..size'], data', lists', raws', margin, top) && (size' > 0 ==> Halved(stack[..size' - 1]))
      invariant All(raws') == All(raws)
      invariant forall after :: Restacks(lists', after, margin, force) ==> Restacks(lists, after, margin, force)
      invariant absorbed' + Total(lists') == absorbed + Total(lists)
      decreases size'
    {
      var t, nxt := stack[size' - 1], stack[size' - 2];
      ghost var s, n := stack[..size'], size';
      assert s[..n - 1] == stack[..n - 1];
      TopOfStack(s, data', lists', raws', margin, top);
      if 2 * t.count <= nxt.count && !force {
        HalvedAbove(s);
        Rested(lists', margin, force);
        return;
      }
      var merged := StreamMerge(data', t.offset, nxt.offset, margin, lists'[n - 1], lists'[n - 2]);
      MergedTop(s, data', lists', raws', margin, top, merged);
      RestackStep(lists', merged, margin, force);
      TotalMerged(lists', merged);
      data' := data'[..nxt.offset] + merged + [SENTINEL];
      lists', raws' := lists'[..n - 2] + [merged], raws'[..n - 2] + [raws'[n - 2] + raws'[n - 1]];
      stack[size' - 1] := Elem(0, 0);
      stack[size' - 2] := Elem(nxt.offset, |merged|);
      size' := size' - 1;
      absorbed' := absorbed' + (t.count + nxt.count - |merged|);
      assert stack[..size'] == s[..n - 2] + [Elem(nxt.offset, |merged|)];
      assert stack[..size' - 1] == s[..n - 2];
      HalvedBelow(s, n - 2);
    }
    HalvedFew(stack[..size']);
    DataLength(stack[..size'], data', lists', raws', margin, top);
    Rested(lists', margin, force);
  }

  lemma Rested(lists: seq<seq<Interval>>, margin: nat, force: bool)
    requires Rests(lists, force)
    ensures Restacks(lists, lists, margin, force)
  {
  }

  // ---- Unpacking extended intervals ----

  predicate Valid(e: Ext) { e.width > 0 && e.rep > 0 && e.start >= 0 }

  /** Rows come in ascending order. */
  predicate Rising(e: Ext) { e.rep > 1 ==> e.stride >= 0 }

  /** Where row `r` starts. */
  function RowStart(e: Ext, r: nat): (s: nat)
    requires Valid(e) && Rising(e) && r < e.rep
    ensures e.start <= s
  {
    e.start + r * e.stride
  }

  /** Row `r`, rounded out to whole units. */
  function Row(e: Ext, r: nat, unit: nat): (i: Interval)
    requires Valid(e) && Rising(e) && r < e.rep && unit > 0
    ensures i.lo <= RowStart(e, r) && RowStart(e, r) + e.width <= i.hi < RowStart(e, r) + e.width + unit
  {
    Interval(RoundDown(RowStart(e, r), unit), Align(RowStart(e, r) + e.width, unit))
  }

  lemma RowsRise(e: Ext, q: nat, r: nat, unit: nat)
    requires Valid(e) && Rising(e) && q <= r < e.rep && unit > 0
    ensures RowStart(e, q) <= RowStart(e, r)
    ensures Row(e, q, unit).lo <= Row(e, r, unit).lo && Row(e, q, unit).hi <= Row(e, r, unit).hi
  {
    StartsRise(e, q, r);
    RoundedRise(RowStart(e, q), RowStart(e, r), unit);
    RoundedRise(RowStart(e, q) + e.width, RowStart(e, r) + e.width, unit);
  }

  lemma StartsRise(e: Ext, q: nat, r: nat)
    requires Valid(e) && Rising(e) && q <= r < e.rep
    ensures RowStart(e, q) <= RowStart(e, r)
  {
    if q < r { MulLe(q, r, e.stride); }
  }

  lemma RoundedRise(a: nat, b: nat, unit: nat)
    requires a <= b && unit > 0
    ensures RoundDown(a, unit) <= RoundDown(b, unit) && Align(a, unit) <= Align(b, unit)
  {
    MultiplesRise(RoundDown(a, unit), RoundDown(b, unit), unit);
    MultiplesRise(Align(a, unit), Align(b, unit), unit);
  }

  /** Multiples of `unit` that are out of order differ by at least `unit`. */
  lemma MultiplesRise(m: nat, n: nat, unit: nat)
    requires unit > 0 && m % unit == 0 && n % unit == 0
    ensures m <= n || n + unit <= m
  {
    var p, q := m / unit, n / unit;
    assert m == unit * p && n == unit * q;
    if q + 1 <= p { MulLe(q + 1, p, unit); } else { MulLe(p, q, unit); }
  }

  /** The first `n` rows. */
  ghost function Rows(e: Ext, n: nat, unit: nat): (s: set<Interval>)
    requires Valid(e) && Rising(e) && n <= e.rep && unit > 0
    ensures Nonempty(s)
  {
    if n == 0 then {} else Rows(e, n - 1, unit) + {Row(e, n - 1, unit)}
  }

  lemma {:induction false} RowsBelow(e: Ext, n: nat, r: nat, unit: nat)
    requires Valid(e) && Rising(e) && n <= r < e.rep && unit > 0
    ensures forall a :: a in Rows(e, n, unit) ==> a.lo <= Row(e, r, unit).lo && a.hi <= Row(e, r, unit).hi
    decreases n
  {
    if n > 0 {
      RowsBelow(e, n - 1, r, unit);
      RowsRise(e, n - 1, r, unit);
    }
  }

  /** Write out the rows, joining those that touch once rounded. */
  method UnpackExtInterval(e: Ext, unit: nat) returns (vec: seq<Interval>)
    requires Valid(e) && Rising(e) && unit > 0
    ensures IsClosure(vec, Rows(e, e.rep, unit), 1)
  {
    hide IsClosure, Row, RowStart;
    vec := [];
    var lastEnd := INT32_MIN;
    NothingYet([], [], 1);
    Begin();
    for ir := 0 to e.rep
      invariant IsClosure(vec, Rows(e, ir, unit), 1) && AtCursor(vec, lastEnd)
      invariant vec != [] ==> ir > 0 && lastEnd <= Row(e, ir - 1, unit).hi
    {
      RowsBelow(e, ir, ir, unit);
      if ir > 0 { RowsRise(e, ir - 1, ir, unit); }
      var row := Row(e, ir, unit);
      assert row.lo < row.hi;
      AbsorbClosure(vec, Rows(e, ir, unit), 1, row);
      ghost var before := vec;
      if row.lo > lastEnd {
        vec := vec + [row];
      } else {
        vec := vec[..|vec| - 1] + [Interval(vec[|vec| - 1].lo, row.hi)];
      }
      lastEnd := row.hi;
      assert vec == Absorb(before, row, 1);
    }
  }

  // ---- The driver ----

  /**
   * The extended interval that is unpacked: cut off at the largest index, and without gaps that
   * would be closed anyway.
   */
  function Adjusted(e: Ext, margin: nat, force: bool): Ext
    requires Valid(e)
  {
    var c := if e.start + e.stride * (e.rep - 1) + e.width >= INT32_MAX
      then Ext(e.start, INT32_MAX - 1 - e.start, 1, e.stride) else e;
    if c.width > c.stride - margin || force then Ext(c.start, c.stride * (c.rep - 1) + c.width, 1, c.stride) else c
  }

  /** Byte `x` is in some row. */
  ghost predicate InRows(e: Ext, x: int)
    requires Valid(e) && Rising(e)
  {
    exists r: nat :: r < e.rep && RowStart(e, r) <= x < RowStart(e, r) + e.width
  }

  /** What the caller may pass: documented as rows that do not overlap, inside the index range. */
  predicate Acceptable(e: Ext) {
    Valid(e) ==> Rising(e) && e.start < INT32_MAX - 1
  }

  lemma LastRow(e: Ext)
    requires Valid(e) && Rising(e)
    ensures e.stride * (e.rep - 1) >= 0 && RowStart(e, e.rep - 1) == e.start + e.stride * (e.rep - 1)
  {
    assert (e.rep - 1) * e.stride == e.stride * (e.rep - 1);
  }

  lemma AdjustedOk(e: Ext, margin: nat, force: bool)
    requires Valid(e) && Acceptable(e)
    ensures var a := Adjusted(e, margin, force);
      && Valid(a) && Rising(a) && a.start == e.start
      && RowStart(a, a.rep - 1) + a.width < INT32_MAX &&
         RowStart(a, a.rep - 1) + a.width <= e.start + e.stride * (e.rep - 1) + e.width
      && (a.rep == 1 || a == e)
      && (a.rep == 1 ==> a.start + a.width >= Min(INT32_MAX - 1, RowStart(e, e.rep - 1) + e.width))
  {
    LastRow(e);
    var a := Adjusted(e, margin, force);
    if a.rep > 1 { LastRow(a); }
  }

  /** Adjusting loses no byte below the largest index. */
  lemma AdjustedCovers(e: Ext, margin: nat, force: bool, x: int)
    requires Valid(e) && Acceptable(e) && InRows(e, x) && x < INT32_MAX - 1
    ensures var a := Adjusted(e, margin, force);
      Valid(a) && Rising(a) && InRows(a, x)
  {
    AdjustedOk(e, margin, force);
    var a := Adjusted(e, margin, force);
    if a != e {
      var r: nat :| r < e.rep && RowStart(e, r) <= x < RowStart(e, r) + e.width;
      StartsRise(e, 0, r);
      StartsRise(e, r, e.rep - 1);
      assert RowStart(a, 0) <= x < RowStart(a, 0) + a.width;
    }
  }

  /** The span of all rows, rounded out. */
  function Hull(e: Ext, unit: nat): Interval
    requires Valid(e) && Rising(e) && unit > 0
  {
    LastRow(e);
    Interval(RoundDown(e.start, unit), Align(e.start + e.stride * (e.rep - 1) + e.width, unit))
  }

  lemma {:induction false} RowsIn(e: Ext, n: nat, unit: nat, r: nat)
    requires Valid(e) && Rising(e) && r < n <= e.rep && unit > 0
    ensures Row(e, r, unit) in Rows(e, n, unit)
    decreases n
  {
    if r < n - 1 { RowsIn(e, n - 1, unit, r); }
  }

  lemma {:induction false} RowsInHull(e: Ext, n: nat, unit: nat)
    requires Valid(e) && Rising(e) && n <= e.rep && unit > 0
    ensures forall a :: a in Rows(e, n, unit) ==>
      Hull(e, unit).lo <= a.lo <= RowStart(e, e.rep - 1) && a.hi <= Hull(e, unit).hi
    decreases n
  {
    if n > 0 {
      RowsInHull(e, n - 1, unit);
      HullIs(e, unit);
      RowsRise(e, 0, n - 1, unit);
      RowsRise(e, n - 1, e.rep - 1, unit);
      hide Hull, Row, RowStart;
    }
  }

  lemma HullIs(e: Ext, unit: nat)
    requires Valid(e) && Rising(e) && unit > 0
    ensures Hull(e, unit) == Interval(Row(e, 0, unit).lo, Row(e, e.rep - 1, unit).hi)
  {
    LastRow(e);
    hide RoundDown, Align;
  }

  lemma HullShrinks(e: Ext, margin: nat, force: bool, unit: nat)
    requires Valid(e) && Acceptable(e) && unit > 0
    ensures var a := Adjusted(e, margin, force);
      && Valid(a) && Rising(a) && RowStart(a, a.rep - 1) < INT32_MAX
      && Hull(a, unit).lo == Hull(e, unit).lo && Hull(a, unit).hi <= Hull(e, unit).hi &&
         Hull(a, unit).hi < INT32_MAX + unit
  {
    var a := Adjusted(e, margin, force);
    AdjustedOk(e, margin, force);
    LastRow(a);
    LastRow(e);
    hide Adjusted, RowStart, Align, RoundDown;
    RoundedRise(a.start + a.stride * (a.rep - 1) + a.width, e.start + e.stride * (e.rep - 1) + e.width, unit);
  }

  /**
   * What unpacking an adjusted interval gives: a run inside the hull that has every byte of the
   * rows below the largest index.
   */
  lemma Unpacked(e: Ext, margin: nat, force: bool, unit: nat, vec: seq<Interval>)
    requires Valid(e) && Acceptable(e) && unit > 0
    requires var a := Adjusted(e, margin, force);
      Valid(a) && Rising(a) && IsClosure(vec, Rows(a, a.rep, unit), 1)
    ensures Represents(vec, Elems(vec), margin, INT32_MAX + unit)
    ensures forall x :: InRows(e, x) && x < INT32_MAX - 1 ==> Covers(vec, x)
    ensures forall i :: 0 <= i < |vec| ==> Hull(e, unit).lo <= vec[i].lo && vec[i].hi <= Hull(e, unit).hi
  {
    var a := Adjusted(e, margin, force);
    hide Adjusted, Hull, Row, RowStart, Rows, IsClosure, InRows;
    forall x | InRows(e, x) && x < INT32_MAX - 1 ensures Covers(vec, x) {
      AdjustedCovers(e, margin, force, x);
      RowCovered(a, unit, vec, x);
    }
    HullShrinks(e, margin, force, unit);
    RowsInHull(a, a.rep, unit);
    VecShape(vec, Rows(a, a.rep, unit), Hull(a, unit), RowStart(a, a.rep - 1));
    RowCovered(a, unit, vec, a.start);
  }

  lemma RowCovered(a: Ext, unit: nat, vec: seq<Interval>, x: int)
    requires Valid(a) && Rising(a) && unit > 0 && IsClosure(vec, Rows(a, a.rep, unit), 1)
    requires InRows(a, x) || x == a.start
    ensures Covers(vec, x)
  {
    if x == a.start { assert RowStart(a, 0) <= x < RowStart(a, 0) + a.width; }
    var r: nat :| r < a.rep && RowStart(a, r) <= x < RowStart(a, r) + a.width;
    RowsIn(a, a.rep, unit, r);
    assert Row(a, r, unit).Has(x);
  }

  lemma VecShape(vec: seq<Interval>, s: set<Interval>, h: Interval, m: nat)
    requires IsClosure(vec, s, 1) && forall c :: c in s ==> h.lo <= c.lo <= m && c.hi <= h.hi
    ensures Separated(vec, 1) && Nonempty(Elems(vec)) &&
      forall i :: 0 <= i < |vec| ==> h.lo <= vec[i].lo <= m && vec[i].hi <= h.hi
  {
    forall i | 0 <= i < |vec| ensures h.lo <= vec[i].lo <= m && vec[i].hi <= h.hi {
      assert Starts(s, vec[i].lo) && Ends(s, vec[i].hi);
    }
  }

  // ---- The stack never outgrows its 32 slots ----

  /** Disjoint intervals start at different places. */
  lemma {:induction false} SeparatedCount(l: seq<Interval>)
    requires Separated(l, 0) && l != []
    ensures |l| - 1 <= l[|l| - 1].lo
    decreases |l|
  {
    if |l| > 1 {
      var init := l[..|l| - 1];
      SeparatedCount(init);
      assert init[|init| - 1].lo < init[|init| - 1].hi <= l[|l| - 1].lo;
    }
  }

  lemma {:induction false} HalvedGrows(s: seq<Elem>)
    requires Halved(s) && s != [] && s[|s| - 1].count >= 1
    ensures s[0].count >= Pow2(|s| - 1)
    decreases |s|
  {
    if |s| > 1 {
      var rest := s[1..];
      assert forall k :: 0 < k < |rest| ==> rest[k] == s[k + 1] && rest[k - 1] == s[k];
      HalvedGrows(rest);
    }
  }

  lemma {:induction false} Pow2Rises(m: nat, n: nat)
    requires m <= n
    ensures Pow2(m) <= Pow2(n)
    decreases n - m
  {
    if m < n { Pow2Rises(m, n - 1); }
  }

  lemma Pow2Is()
    ensures Pow2(30) == 0x4000_0000 && Pow2(31) == 0x8000_0000
  {
    assert Pow2(8) == 256;
    assert Pow2(16) == 65536;
    assert Pow2(24) == 0x100_0000;
    assert Pow2(28) == 0x1000_0000;
  }

  /** Disjoint intervals that start below the index limit are fewer than 2^31, so halving runs are at most 31. */
  lemma StackFits(s: seq<Elem>, data: seq<Interval>, lists: seq<seq<Interval>>, raws: seq<set<Interval>>, margin: nat,
                  bits: nat)
    requires Stacked(s, data, lists, raws, margin, INT32_MAX + Pow2(bits)) && Halved(s) && bits <= 30
    ensures |s| <= 31
  {
    hide *;
    if s != [] {
      StackEnds(s, data, lists, raws, margin, INT32_MAX + Pow2(bits));
      RunCount(lists[0], raws[0], margin, INT32_MAX + Pow2(bits));
      HalvedGrows(s);
      Pow2Is();
      if |s| >= 32 { Pow2Rises(31, |s| - 1); }
    }
  }

  lemma StackEnds(s: seq<Elem>, data: seq<Interval>, lists: seq<seq<Interval>>, raws: seq<set<Interval>>, margin: nat,
                  top: nat)
    requires Stacked(s, data, lists, raws, margin, top) && s != []
    ensures |lists| == |raws| == |s| && s[0].count == |lists[0]| && s[|s| - 1].count >= 1 &&
      Represents(lists[0], raws[0], margin, top)
  {
    hide Buffered;
    assert Represents(lists[|s| - 1], raws[|s| - 1], margin, top) && Represents(lists[0], raws[0], margin, top);
  }

  lemma RunCount(l: seq<Interval>, raw: set<Interval>, margin: nat, top: nat)
    requires Represents(l, raw, margin, top)
    ensures |l| < 0x8000_0000
  {
    hide Merged, Elems;
    assert Separated(l, 0);
    SeparatedCount(l);
  }

  // ---- The whole merge ----

  ghost predicate InSome(s: set<Interval>, x: int) { exists a :: a in s && a.Has(x) }

  /** An interval comes from the old list or from inside a valid new one. */
  ghost predicate FromInput(c: Interval, before: seq<Interval>, news: seq<Ext>, unit: nat)
    requires unit > 0
  {
    c in Elems(before) ||
    exists j :: 0 <= j < |news| && Valid(news[j]) && Rising(news[j]) && Hull(news[j], unit).lo <= c.lo &&
      c.hi <= Hull(news[j], unit).hi
  }

  /** The intervals collected are all from the inputs and miss nothing of them. */
  ghost predicate Collected(raw: set<Interval>, before: seq<Interval>, news: seq<Ext>, unit: nat)
    requires unit > 0
  {
    && Elems(before) <= raw
    && (forall c :: c in raw ==> FromInput(c, before, news, unit))
    && (forall j, x ::
          0 <= j < |news| && Valid(news[j]) && Rising(news[j]) && InRows(news[j], x) && x < INT32_MAX - 1 ==>
          InSome(raw, x))
  }

  lemma CollectedMore(raw: set<Interval>, before: seq<Interval>, news: seq<Ext>, e: Ext, unit: nat, vec: seq<Interval>)
    requires unit > 0 && Collected(raw, before, news, unit) && Valid(e) && Rising(e)
    requires forall x :: InRows(e, x) && x < INT32_MAX - 1 ==> Covers(vec, x)
    requires forall i :: 0 <= i < |vec| ==> Hull(e, unit).lo <= vec[i].lo && vec[i].hi <= Hull(e, unit).hi
    ensures Collected(raw + Elems(vec), before, news + [e], unit)
  {
    hide Hull, InRows;
    var raw', news' := raw + Elems(vec), news + [e];
    forall c | c in raw' ensures FromInput(c, before, news', unit) {
      if c in raw { FromMore(c, before, news, e, unit); } else { assert news'[|news|] == e; }
    }
    forall j, x | 0 <= j < |news'| && Valid(news'[j]) && Rising(news'[j]) && InRows(news'[j], x) && x < INT32_MAX - 1
      ensures InSome(raw', x) {
      if j < |news| {
        assert news'[j] == news[j] && InSome(raw, x);
      } else {
        ElemOf(vec, x);
      }
    }
  }

  lemma FromMore(c: Interval, before: seq<Interval>, news: seq<Ext>, e: Ext, unit: nat)
    requires unit > 0 && FromInput(c, before, news, unit)
    ensures FromInput(c, before, news + [e], unit)
  {
    hide Hull;
    if c !in Elems(before) {
      var j :| 0 <= j < |news| && Valid(news[j]) && Rising(news[j]) && Hull(news[j], unit).lo <= c.lo &&
        c.hi <= Hull(news[j], unit).hi;
      assert (news + [e])[j] == news[j];
    }
  }

  lemma CollectedSkip(raw: set<Interval>, before: seq<Interval>, news: seq<Ext>, e: Ext, unit: nat)
    requires unit > 0 && Collected(raw, before, news, unit) && !Valid(e)
    ensures Collected(raw, before, news + [e], unit)
  {
    hide Hull, InRows;
    forall c | c in raw ensures FromInput(c, before, news + [e], unit) { FromMore(c, before, news, e, unit); }
  }

  /** The run that a valid extended interval is unpacked into. */
  ghost function PieceList(e: Ext, margin: nat, force: bool, unit: nat): seq<Interval>
    requires Valid(e) && Acceptable(e) && unit > 0
  {
    AdjustedOk(e, margin, force);
    var a := Adjusted(e, margin, force);
    Closure(Rows(a, a.rep, unit), 1)
  }

  ghost function PiecesOf(e: Ext, margin: nat, force: bool, unit: nat): set<Interval>
    requires Valid(e) && Acceptable(e) && unit > 0
  {
    Elems(PieceList(e, margin, force, unit))
  }

  /** The number of intervals put in so far, each extended interval compacted or not. */
  ghost function PutCount(news: seq<Ext>, forced: seq<bool>, margin: nat, unit: nat): nat
    requires |forced| == |news| && unit > 0
  {
    if news == [] then 0
    else
      var n := |news| - 1;
      PutCount(news[..n], forced[..n], margin, unit) +
      if Valid(news[n]) && Acceptable(news[n]) then |PieceList(news[n], margin, forced[n], unit)| else 0
  }

  lemma PutCountMore(news: seq<Ext>, forced: seq<bool>, margin: nat, unit: nat, e: Ext, force: bool)
    requires |forced| == |news| && unit > 0
    ensures PutCount(news + [e], forced + [force], margin, unit) == PutCount(news, forced, margin, unit) +
      if Valid(e) && Acceptable(e) then |PieceList(e, margin, force, unit)| else 0
  {
    hide Acceptable, PieceList, Valid;
    assert (news + [e])[..|news|] == news && (forced + [force])[..|news|] == forced;
  }

  /**
   * More than 30000 of the intervals put in or there before are gone, or fewer than a tenth of
   * those put in are left.
   */
  predicate Forces(prior: nat, put: nat, kept: nat) {
    prior + put - kept > 30000 || 10 * (kept - prior) < put
  }

  /**
   * Extended interval `j` is compacted by force exactly when the runs at that point
   * say so; its pieces are pushed as a run, and runs are merged until they rest.
   */
  ghost predicate Considered(runs: seq<seq<seq<Interval>>>, prior: nat, news: seq<Ext>, forced: seq<bool>, margin: nat,
                             unit: nat, j: nat)
    requires unit > 0 && j < |news| == |forced| && |runs| == |news| + 1
  {
    if Valid(news[j]) && Acceptable(news[j]) then
      && (forced[j] <==> Forces(prior, PutCount(news[..j], forced[..j], margin, unit), Total(runs[j])))
      && Restacks(runs[j] + [PieceList(news[j], margin, forced[j], unit)], runs[j + 1], margin, false)
    else !forced[j] && runs[j + 1] == runs[j]
  }

  /** `runs[j]` are the runs when extended interval `j` is considered. */
  ghost predicate History(runs: seq<seq<seq<Interval>>>, before: seq<Interval>, news: seq<Ext>, forced: seq<bool>,
                          margin: nat, unit: nat)
    requires unit > 0
  {
    && |forced| == |news| && |runs| == |news| + 1 && runs[0] == (if before == [] then [] else [before])
    && forall j :: 0 <= j < |news| ==> Considered(runs, |before|, news, forced, margin, unit, j)
  }

  lemma HistoryStart(before: seq<Interval>, margin: nat, unit: nat)
    requires unit > 0
    ensures History([if before == [] then [] else [before]], before, [], [], margin, unit)
    ensures Total([]) == 0 && Total([before]) == |before| && PutCount([], [], margin, unit) == 0
  {
    assert [before][..0] == [];
  }

  lemma ConsideredLonger(runs: seq<seq<seq<Interval>>>, prior: nat, news: seq<Ext>, forced: seq<bool>, margin: nat,
                         unit: nat, j: nat, after: seq<seq<Interval>>, e: Ext, force: bool)
    requires unit > 0 && j < |news| == |forced| && |runs| == |news| + 1
    requires Considered(runs, prior, news, forced, margin, unit, j)
    ensures Considered(runs + [after], prior, news + [e], forced + [force], margin, unit, j)
  {
    hide Restacks, Total, PutCount, PieceList, Acceptable, Valid;
    assert (news + [e])[..j] == news[..j] && (forced + [force])[..j] == forced[..j];
  }

  lemma HistoryMore(runs: seq<seq<seq<Interval>>>, before: seq<Interval>, news: seq<Ext>, forced: seq<bool>,
                    margin: nat, unit: nat, after: seq<seq<Interval>>, e: Ext, force: bool)
    requires unit > 0 && History(runs, before, news, forced, margin, unit) && Valid(e) && Acceptable(e)
    requires force <==> Forces(|before|, PutCount(news, forced, margin, unit), Total(runs[|news|]))
    requires Restacks(runs[|news|] + [PieceList(e, margin, force, unit)], after, margin, false)
    ensures History(runs + [after], before, news + [e], forced + [force], margin, unit)
  {
    hide Restacks, Total, PutCount, PieceList, Forces, Considered, Acceptable;
    forall j: nat | j < |news|
      ensures Considered(runs + [after], |before|, news + [e], forced + [force], margin, unit, j) {
      ConsideredLonger(runs, |before|, news, forced, margin, unit, j, after, e, force);
    }
    LastConsidered(runs, |before|, news, forced, margin, unit, after, e, force);
  }

  lemma LastConsidered(runs: seq<seq<seq<Interval>>>, prior: nat, news: seq<Ext>, forced: seq<bool>, margin: nat,
                       unit: nat, after: seq<seq<Interval>>, e: Ext, force: bool)
    requires unit > 0 && |news| == |forced| && |runs| == |news| + 1
    requires if Valid(e) && Acceptable(e) then
      && (force <==> Forces(prior, PutCount(news, forced, margin, unit), Total(runs[|news|])))
      && Restacks(runs[|news|] + [PieceList(e, margin, force, unit)], after, margin, false)
      else !force && after == runs[|news|]
    ensures Considered(runs + [after], prior, news + [e], forced + [force], margin, unit, |news|)
  {
    hide Restacks, Total, PutCount, PieceList, Acceptable, Valid, Forces;
    assert (news + [e])[..|news|] == news && (forced + [force])[..|news|] == forced;
  }

  lemma HistorySkip(runs: seq<seq<seq<Interval>>>, before: seq<Interval>, news: seq<Ext>, forced: seq<bool>,
                    margin: nat, unit: nat, e: Ext)
    requires unit > 0 && History(runs, before, news, forced, margin, unit) && !Valid(e)
    ensures History(runs + [runs[|news|]], before, news + [e], forced + [false], margin, unit)
  {
    hide Considered, Acceptable;
    var after := runs[|news|];
    forall j: nat | j < |news|
      ensures Considered(runs + [after], |before|, news + [e], forced + [false], margin, unit, j) {
      ConsideredLonger(runs, |before|, news, forced, margin, unit, j, after, e, false);
    }
    LastConsidered(runs, |before|, news, forced, margin, unit, after, e, false);
  }

  /** The pieces of all valid extended intervals, each compacted or not. */
  ghost function AllPieces(news: seq<Ext>, forced: seq<bool>, margin: nat, unit: nat): set<Interval>
    requires |forced| == |news| && unit > 0
  {
    if news == [] then {}
    else
      var n := |news| - 1;
      AllPieces(news[..n], forced[..n], margin, unit) +
      if Valid(news[n]) && Acceptable(news[n]) then PiecesOf(news[n], margin, forced[n], unit) else {}
  }

  /** Exactly the old list and the pieces went in. */
  ghost predicate PutIn(raw: set<Interval>, before: seq<Interval>, news: seq<Ext>, forced: seq<bool>, margin: nat,
                        unit: nat)
    requires unit > 0
  {
    |forced| == |news| && raw == Elems(before) + AllPieces(news, forced, margin, unit)
  }

  lemma PutInMore(raw: set<Interval>, before: seq<Interval>, news: seq<Ext>, forced: seq<bool>, margin: nat, unit: nat,
                  e: Ext, force: bool, vec: seq<Interval>)
    requires unit > 0 && PutIn(raw, before, news, forced, margin, unit) && Valid(e) && Acceptable(e)
    requires var a := Adjusted(e, margin, force);
      Valid(a) && Rising(a) && IsClosure(vec, Rows(a, a.rep, unit), 1)
    ensures PutIn(raw + Elems(vec), before, news + [e], forced + [force], margin, unit)
    ensures vec == PieceList(e, margin, force, unit)
  {
    hide Adjusted, Rows, IsClosure, Closure, Elems, Acceptable, Rising;
    var a := Adjusted(e, margin, force);
    ClosureUnique(vec, Rows(a, a.rep, unit), 1);
    assert (news + [e])[..|news|] == news && (forced + [force])[..|news|] == forced;
  }

  lemma PutInSkip(raw: set<Interval>, before: seq<Interval>, news: seq<Ext>, forced: seq<bool>, margin: nat,
                  unit: nat, e: Ext)
    requires unit > 0 && PutIn(raw, before, news, forced, margin, unit) && !Valid(e)
    ensures PutIn(raw, before, news + [e], forced + [false], margin, unit)
  {
    hide Elems, PiecesOf;
    assert (news + [e])[..|news|] == news && (forced + [false])[..|news|] == forced;
  }

  /** Bytes between the first and the last row are in a row or in a gap below the margin. */
  lemma {:induction false} NearRow(e: Ext, margin: nat, unit: nat, x: nat, r: nat)
    requires Valid(e) && Rising(e) && unit > 0 && r < e.rep && e.width > e.stride - margin
    requires Row(e, 0, unit).lo <= x < Row(e, r, unit).hi
    ensures InClosure(Rows(e, e.rep, unit), margin, x)
    decreases r
  {
    hide Row, Rows;
    RowsIn(e, e.rep, unit, r);
    if Row(e, r, unit).lo <= x {
      assert Row(e, r, unit).Has(x);
    } else {
      RowsIn(e, e.rep, unit, r - 1);
      if x < Row(e, r - 1, unit).hi {
        NearRow(e, margin, unit, x, r - 1);
      } else {
        RowGap(e, unit, r);
        assert InGap(Rows(e, e.rep, unit), margin, x);
      }
    }
  }

  lemma RowGap(e: Ext, unit: nat, r: nat)
    requires Valid(e) && Rising(e) && unit > 0 && 0 < r < e.rep
    ensures Row(e, r, unit).lo - Row(e, r - 1, unit).hi <= e.stride - e.width
  {
    assert RowStart(e, r) == RowStart(e, r - 1) + e.stride by { assert r * e.stride == (r - 1) * e.stride + e.stride; }
    hide RowStart, Row;
  }

  /**
   * Inside the index range and not compacted by force, only rows, their rounding and short gaps
   * between them are taken.
   */
  lemma UnforcedExact(e: Ext, margin: nat, unit: nat, x: nat)
    requires Valid(e) && Acceptable(e) && unit > 0 && e.start + e.stride * (e.rep - 1) + e.width < INT32_MAX
    ensures InSome(Rows(e, e.rep, unit), x) ==> InSome(PiecesOf(e, margin, false, unit), x)
    ensures InSome(PiecesOf(e, margin, false, unit), x) ==> InClosure(Rows(e, e.rep, unit), margin, x)
  {
    hide Rows, InClosure, InSome, PiecesOf, Adjusted, Acceptable;
    UnforcedIs(e, margin);
    PiecesMean(e, margin, false, unit, x);
    BytesOnly(Rows(e, e.rep, unit), margin, x);
    if e.width > e.stride - margin {
      HullOnly(e, margin, unit, x);
    }
  }

  lemma UnforcedIs(e: Ext, margin: nat)
    requires Valid(e) && Acceptable(e) && e.start + e.stride * (e.rep - 1) + e.width < INT32_MAX
    ensures Rising(e) && Adjusted(e, margin, false) ==
      if e.width > e.stride - margin then Ext(e.start, e.stride * (e.rep - 1) + e.width, 1, e.stride) else e
  {
  }

  lemma PiecesMean(e: Ext, margin: nat, force: bool, unit: nat, x: nat)
    requires Valid(e) && Acceptable(e) && unit > 0
    ensures var a := Adjusted(e, margin, force);
      Valid(a) && Rising(a) && (InSome(PiecesOf(e, margin, force, unit), x) <==> InClosure(Rows(a, a.rep, unit), 1, x))
  {
    hide Adjusted, Rows, Acceptable, InClosure, Closure;
    AdjustedOk(e, margin, force);
    var a := Adjusted(e, margin, force);
    ClosureIs(Rows(a, a.rep, unit), 1);
    ElemOf(Closure(Rows(a, a.rep, unit), 1), x);
  }

  lemma BytesOnly(s: set<Interval>, g: nat, x: int)
    ensures InSome(s, x) <==> InClosure(s, 1, x)
    ensures InSome(s, x) ==> InClosure(s, g, x)
  {
  }

  lemma HullOnly(e: Ext, margin: nat, unit: nat, x: nat)
    requires Valid(e) && Rising(e) && unit > 0 && e.width > e.stride - margin
    ensures var a := Ext(e.start, e.stride * (e.rep - 1) + e.width, 1, e.stride);
      && Valid(a) && Rising(a)
      && (InSome(Rows(e, e.rep, unit), x) ==> InClosure(Rows(a, 1, unit), 1, x))
      && (InClosure(Rows(a, 1, unit), 1, x) ==> InClosure(Rows(e, e.rep, unit), margin, x))
  {
    hide Rows, Row, RowStart, InClosure, Hull;
    var a := Ext(e.start, e.stride * (e.rep - 1) + e.width, 1, e.stride);
    LastRow(e);
    OneRow(e, unit);
    HullIs(e, unit);
    RowsInHull(e, e.rep, unit);
    BytesOnly(Rows(a, 1, unit), margin, x);
    if InClosure(Rows(a, 1, unit), 1, x) {
      NearRow(e, margin, unit, x, e.rep - 1);
    }
  }

  /** All rows taken as one give the hull. */
  lemma OneRow(e: Ext, unit: nat)
    requires Valid(e) && Rising(e) && unit > 0
    ensures var a := Ext(e.start, e.stride * (e.rep - 1) + e.width, 1, e.stride);
      Valid(a) && Rising(a) && Rows(a, 1, unit) == {Hull(e, unit)}
  {
    hide RoundDown, Align;
    var a := Ext(e.start, e.stride * (e.rep - 1) + e.width, 1, e.stride);
    LastRow(e);
    assert RowStart(a, 0) == a.start + 0 * a.stride == a.start;
    assert Rows(a, 0, unit) == {};
  }

  lemma PushRun(s: seq<Elem>, data: seq<Interval>, lists: seq<seq<Interval>>, raws: seq<set<Interval>>, margin: nat,
                top: nat, vec: seq<Interval>)
    requires Stacked(s, data, lists, raws, margin, top) && Represents(vec, Elems(vec), margin, top)
    ensures Stacked(s + [Elem(|data|, |vec|)], data + vec + [SENTINEL], lists + [vec], raws + [Elems(vec)], margin, top)
    ensures All(raws + [Elems(vec)]) == All(raws) + Elems(vec)
  {
    BufferedLast(lists, vec);
    hide Buffered, Represents;
    assert (raws + [Elems(vec)])[..|raws|] == raws;
    assert (lists + [vec])[..|lists|] == lists;
    assert forall k :: 0 <= k < |lists| ==> (lists + [vec])[..k] == lists[..k];
  }

  /** The final run covers all that was collected, and otherwise only short gaps. */
  lemma RunMeans(l: seq<Interval>, raw: set<Interval>, margin: nat, top: nat, x: int)
    requires Represents(l, raw, margin, top)
    ensures (InSome(raw, x) ==> Covers(l, x)) && (Covers(l, x) ==> InClosure(raw, margin, x))
  {
    ElemOf(l, x);
  }

  /** State of the merge after some of the new intervals. */
  ghost predicate Merging(s: seq<Elem>, data: seq<Interval>, lists: seq<seq<Interval>>, raws: seq<set<Interval>>,
                          margin: nat, bits: nat, before: seq<Interval>, news: seq<Ext>, forced: seq<bool>) {
    && Stacked(s, data, lists, raws, margin, INT32_MAX + Pow2(bits)) && Halved(s)
    && Collected(All(raws), before, news, Pow2(bits))
    && PutIn(All(raws), before, news, forced, margin, Pow2(bits))
  }

  /** The old list, if there is one, is the first run. */
  lemma MergingStart(before: seq<Interval>, margin: nat, bits: nat)
    requires Run(before, margin) && forall i :: 0 <= i < |before| ==> before[i].hi < INT32_MAX + Pow2(bits)
    ensures before == [] ==> Merging([], [], [], [], margin, bits, before, [], [])
    ensures before != [] ==>
      Merging([Elem(0, |before|)], before + [SENTINEL], [before], [Elems(before)], margin, bits, before, [], [])
  {
    if before != [] {
      assert Nonempty(Elems(before));
      assert Stacked([], [], [], [], margin, INT32_MAX + Pow2(bits));
      PushRun([], [], [], [], margin, INT32_MAX + Pow2(bits), before);
      assert All([]) + Elems(before) == Elems(before);
      assert [] + [before] == [before] && [] + [Elems(before)] == [Elems(before)] &&
        [] + before + [SENTINEL] == before + [SENTINEL];
      assert [] + [Elem(0, |before|)] == [Elem(0, |before|)];
    }
  }

  /** Add one valid extended interval as a new run and restore the halving. */
  method AddRun(stack: array<Elem>, size: nat, data: seq<Interval>, e: Ext, margin: nat, bits: nat, force: bool,
                absorbed: int,
                ghost lists: seq<seq<Interval>>, ghost raws: seq<set<Interval>>, ghost before: seq<Interval>,
                ghost news: seq<Ext>, ghost forced: seq<bool>)
    returns (size': nat, data': seq<Interval>, absorbed': int, iw: nat, ghost lists': seq<seq<Interval>>,
             ghost raws': seq<set<Interval>>)
    requires stack.Length == 32 && size <= 32
    requires Merging(stack[..size], data, lists, raws, margin, bits, before, news, forced)
    requires Valid(e) && Acceptable(e) && margin <= INT32_MAX && bits <= 30
    modifies stack
    ensures 0 < size' <= 32
    ensures Merging(stack[..size'], data', lists', raws', margin, bits, before, news + [e], forced + [force])
    ensures var l := PieceList(e, margin, force, Pow2(bits));
      && iw == |l| && Restacks(lists + [l], lists', margin, false)
      && absorbed' + Total(lists') == absorbed + Total(lists) + iw
  {
    hide Stacked, Collected, All, Halved, Represents, Hull, InRows, Pow2, Adjusted, Rows, PutIn, IsClosure, PieceList,
      Restacks, Total;
    StackFits(stack[..size], data, lists, raws, margin, bits);
    var unit := Pow2(bits);
    AdjustedOk(e, margin, force);
    var vec := UnpackExtInterval(Adjusted(e, margin, force), unit);
    Unpacked(e, margin, force, unit, vec);
    iw := |vec|;
    PushRun(stack[..size], data, lists, raws, margin, INT32_MAX + unit, vec);
    CollectedMore(All(raws), before, news, e, unit, vec);
    PutInMore(All(raws), before, news, forced, margin, unit, e, force, vec);
    DataLength(stack[..size], data, lists, raws, margin, INT32_MAX + unit);
    TotalMore(lists, vec);
    ghost var s := stack[..size];
    stack[size] := Elem(|data|, iw);
    assert stack[..size + 1] == s + [Elem(|data|, iw)] && stack[..size] == s;
    size', data', absorbed', lists', raws' :=
      FixMergeStackProperty(size + 1, stack, data + vec + [SENTINEL], margin, false, absorbed,
                            lists + [vec], raws + [Elems(vec)], INT32_MAX + unit);
  }

  lemma DataLength(s: seq<Elem>, data: seq<Interval>, lists: seq<seq<Interval>>, raws: seq<set<Interval>>,
                   margin: nat, top: nat)
    requires Stacked(s, data, lists, raws, margin, top)
    ensures |s| == |lists| == |raws|
  {
  }

  lemma MergingSkip(s: seq<Elem>, data: seq<Interval>, lists: seq<seq<Interval>>, raws: seq<set<Interval>>,
                    margin: nat, bits: nat, before: seq<Interval>, news: seq<Ext>, forced: seq<bool>, e: Ext)
    requires Merging(s, data, lists, raws, margin, bits, before, news, forced) && !Valid(e)
    ensures Merging(s, data, lists, raws, margin, bits, before, news + [e], forced + [false])
  {
    hide Stacked, Halved, Collected, All, Pow2, PutIn;
    PutInSkip(All(raws), before, news, forced, margin, Pow2(bits), e);
    CollectedSkip(All(raws), before, news, e, Pow2(bits));
  }

  lemma HalvedInit(s: seq<Elem>)
    requires Halved(s) && s != []
    ensures Halved(s[..|s| - 1])
  {
    assert forall k :: 0 <= k < |s| - 1 ==> s[..|s| - 1][k] == s[k];
  }

  lemma NothingStacked(s: seq<Elem>, data: seq<Interval>, lists: seq<seq<Interval>>, raws: seq<set<Interval>>,
                       margin: nat, top: nat)
    requires Stacked(s, data, lists, raws, margin, top) && s == []
    ensures All(raws) == {}
  {
  }

  lemma MergingParts(s: seq<Elem>, data: seq<Interval>, lists: seq<seq<Interval>>, raws: seq<set<Interval>>,
                     margin: nat, bits: nat, before: seq<Interval>, news: seq<Ext>, forced: seq<bool>)
    requires Merging(s, data, lists, raws, margin, bits, before, news, forced)
    ensures Stacked(s, data, lists, raws, margin, INT32_MAX + Pow2(bits))
    ensures Collected(All(raws), before, news, Pow2(bits)) && PutIn(All(raws), before, news, forced, margin, Pow2(bits))
    ensures s != [] ==> Halved(s[..|s| - 1])
    ensures s == [] ==> All(raws) == {}
  {
    hide Collected, Pow2, AllRepresent, Buffered, PutIn;
    if s != [] {
      HalvedInit(s);
    } else {
      NothingStacked(s, data, lists, raws, margin, INT32_MAX + Pow2(bits));
    }
  }

  /** What is left when the stack has one run. */
  lemma OneRun(e: Elem, data: seq<Interval>, lists: seq<seq<Interval>>, raws: seq<set<Interval>>, margin: nat, top: nat)
    requires Stacked([e], data, lists, raws, margin, top)
    ensures e.count <= |data| && Separated(data[..e.count], Min(margin, 1)) && lists == [data[..e.count]]
    ensures forall x ::
      (InSome(All(raws), x) ==> Covers(data[..e.count], x)) &&
      (Covers(data[..e.count], x) ==> InClosure(All(raws), margin, x))
  {
    var l := lists[0];
    assert Represents(l, raws[0], margin, top);
    assert lists == [] + [l] && lists[..0] == [];
    BufferedLast([], l);
    assert data[..e.count] == l;
    assert raws[..0] == [] && All(raws) == All([]) + raws[0] == raws[0];
    hide Represents, Buffered, All, InSome, InClosure, Covers;
    forall x ensures (InSome(raws[0], x) ==> Covers(l, x)) && (Covers(l, x) ==> InClosure(raws[0], margin, x)) {
      RunMeans(l, raws[0], margin, top, x);
    }
  }

  lemma NoRun()
    ensures Separated([], 0) && Separated([], 1) && forall x :: !InSome({}, x) && !Covers([], x)
  {
  }

  /**
   * Merge the old damage list with the new extended intervals. `raw` are the
   * intervals that went in: the old ones and the unpacked rows.
   */
  method MergeMergesort(before: seq<Interval>, news: seq<Ext>, margin: nat, bits: nat)
    returns (dst: seq<Interval>, ghost raw: set<Interval>, ghost forced: seq<bool>,
             ghost runs: seq<seq<seq<Interval>>>)
    requires Run(before, margin) && (forall i :: 0 <= i < |before| ==> before[i].hi < INT32_MAX + Pow2(bits))
    requires (forall j :: 0 <= j < |news| ==> Acceptable(news[j])) && margin <= INT32_MAX && bits <= 30
    ensures Separated(dst, Min(margin, 1))
    ensures PutIn(raw, before, news, forced, margin, Pow2(bits)) && Collected(raw, before, news, Pow2(bits))
    ensures forall x :: (InSome(raw, x) ==> Covers(dst, x)) && (Covers(dst, x) ==> InClosure(raw, margin, x))
    ensures History(runs, before, news, forced, margin, Pow2(bits))
    ensures if runs[|news|] == [] then dst == [] else Restacks(runs[|news|], [dst], margin, true)
  {
    hide History, Restacks, Total, PutCount, PieceList, Merging, Acceptable, Collected, PutIn, All, Pow2, Run, Covers,
    InSome, InClosure, Stacked, Halved, Separated,
      Elems;
    var stack := new Elem[32](i => Elem(0, 0));
    var data: seq<Interval>, size, srcCount, absorbed := [], 0, 0, 0;
    ghost var lists: seq<seq<Interval>>, raws: seq<set<Interval>> := [], [];
    forced := [];
    MergingStart(before, margin, bits);
    HistoryStart(before, margin, Pow2(bits));
    if before != [] {
      data, size := before + [SENTINEL], 1;
      lists, raws := [before], [Elems(before)];
      stack[0] := Elem(0, |before|);
      assert stack[..1] == [Elem(0, |before|)];
    } else {
      assert stack[..0] == [];
    }
    assert news[..0] == [];
    runs := [lists];
    for jn := 0 to |news|
      invariant size <= 32 && Merging(stack[..size], data, lists, raws, margin, bits, before, news[..jn], forced)
      invariant size == 0 ==> stack[0] == Elem(0, 0)
      invariant |runs| == jn + 1 && runs[jn] == lists && |forced| == jn
      invariant History(runs, before, news[..jn], forced, margin, Pow2(bits))
      invariant srcCount == PutCount(news[..jn], forced, margin, Pow2(bits))
      invariant absorbed + Total(lists) == |before| + srcCount
    {
      var e := news[jn];
      assert news[..jn + 1] == news[..jn] + [e];
      if e.width <= 0 || e.rep <= 0 || e.start < 0 {
        MergingSkip(stack[..size], data, lists, raws, margin, bits, before, news[..jn], forced, e);
        HistorySkip(runs, before, news[..jn], forced, margin, Pow2(bits), e);
        PutCountMore(news[..jn], forced, margin, Pow2(bits), e, false);
        runs, forced := runs + [lists], forced + [false];
        continue;
      }
      var remaining := srcCount - absorbed;
      var force := absorbed > 30000 || 10 * remaining < srcCount;
      var iw;
      size, data, absorbed, iw, lists, raws :=
        AddRun(stack, size, data, e, margin, bits, force, absorbed, lists, raws, before, news[..jn], forced);
      HistoryMore(runs, before, news[..jn], forced, margin, Pow2(bits), lists, e, force);
      PutCountMore(news[..jn], forced, margin, Pow2(bits), e, force);
      runs, forced := runs + [lists], forced + [force];
      srcCount := srcCount + iw;
    }
    assert news[..|news|] == news;
    raw := All(raws);
    MergingParts(stack[..size], data, lists, raws, margin, bits, before, news, forced);
    DataLength(stack[..size], data, lists, raws, margin, INT32_MAX + Pow2(bits));
    if size == 0 {
      NoRun();
      dst := data[..stack[0].count];
    } else {
      assert stack[..size][..size - 1] == stack[..size - 1];
      size, data, absorbed, lists, raws :=
        FixMergeStackProperty(size, stack, data, margin, true, absorbed, lists, raws, INT32_MAX + Pow2(bits));
      assert stack[..1] == [stack[0]];
      OneRun(stack[0], data, lists, raws, margin, INT32_MAX + Pow2(bits));
      dst := data[..stack[0].count];
    }
  }
}

/** When the inputs of the C damage merge lie apart, nothing is compacted by force and the result is exact. */
module MergeExact {
  import opened Bytes
  import opened Intervals
  import opened MergeStack

  // ---- Intervals that lie apart ----

  /** Members that differ are at least `m` apart. */
  ghost predicate Apart(s: set<Interval>, m: nat) {
    && Nonempty(s)
    && forall a, b :: a in s && b in s && a != b ==> a.hi + m <= b.lo || b.hi + m <= a.lo
  }

  /** No two members are closer than `m`, and none is there twice. */
  predicate Spaced(l: seq<Interval>, m: nat) {
    && (forall i :: 0 <= i < |l| ==> l[i].lo < l[i].hi)
    && (forall i, j :: 0 <= i < j < |l| ==> l[i].hi + m <= l[j].lo || l[j].hi + m <= l[i].lo)
  }

  lemma SpacedApart(l: seq<Interval>, m: nat)
    requires Spaced(l, m)
    ensures Apart(Elems(l), m)
  {
    forall a, b | a in Elems(l) && b in Elems(l) && a != b ensures a.hi + m <= b.lo || b.hi + m <= a.lo {
      var i :| 0 <= i < |l| && l[i] == a;
      var j :| 0 <= j < |l| && l[j] == b;
      assert i < j || j < i;
    }
  }

  lemma ElemsFront(l: seq<Interval>)
    requires l != []
    ensures Elems(l) == Elems(l[..|l| - 1]) + {l[|l| - 1]}
  {
    var init := l[..|l| - 1];
    assert forall i :: 0 <= i < |init| ==> l[i] == init[i];
    assert l[|l| - 1] in Elems(l);
    forall a | a in Elems(init) ensures a in Elems(l) {
      var i :| 0 <= i < |init| && init[i] == a;
      assert l[i] == a;
    }
  }

  lemma {:induction false} SpacedCount(l: seq<Interval>, m: nat)
    requires Spaced(l, m)
    ensures |Elems(l)| == |l|
    decreases |l|
  {
    if l == [] {
      assert Elems(l) == {};
    } else {
      var init := l[..|l| - 1];
      SpacedCount(init, m);
      ElemsFront(l);
      assert l[|l| - 1] !in Elems(init);
    }
  }

  lemma {:induction false} ElemsCount(l: seq<Interval>)
    ensures |Elems(l)| <= |l|
    decreases |l|
  {
    if l == [] {
      assert Elems(l) == {};
    } else {
      ElemsCount(l[..|l| - 1]);
      ElemsFront(l);
    }
  }

  lemma ElemsConcat(a: seq<Interval>, b: seq<Interval>)
    ensures Elems(a + b) == Elems(a) + Elems(b)
  {
    forall n ensures n in Elems(a + b) <==> n in Elems(a) + Elems(b) {
      if n in Elems(a) { var i :| 0 <= i < |a| && a[i] == n; assert (a + b)[i] == n; }
      if n in Elems(b) { var i :| 0 <= i < |b| && b[i] == n; assert (a + b)[|a| + i] == n; }
    }
  }

  // ---- Merging what lies apart ----

  /** Between intervals that lie apart there is no short gap. */
  lemma NoGaps(s: set<Interval>, m: nat, g: nat, x: int)
    requires Apart(s, m) && g <= m
    ensures !InGap(s, g, x)
  {
  }

  /** A byte just after a member belongs to no member. */
  lemma AfterEnd(s: set<Interval>, m: nat, a: Interval)
    requires Apart(s, m) && m > 0 && a in s
    ensures forall d :: d in s ==> !d.Has(a.hi)
  {
  }

  /** A list of what lies apart covers just the bytes of its members. */
  lemma OnlyMembers(u: seq<Interval>, s: set<Interval>, g: nat, m: nat, x: int)
    requires Lists(u, s, g) && Apart(s, m) && g <= m && Covers(u, x)
    ensures exists d :: d in s && d.Has(x)
  {
    NoGaps(s, m, g, x);
    hide Apart, InGap;
  }

  lemma StopsAtEnd(u: seq<Interval>, s: set<Interval>, g: nat, m: nat, a: Interval, i: nat)
    requires Lists(u, s, g) && Apart(s, m) && g <= m && m > 0 && a in s && i < |u|
    ensures !u[i].Has(a.hi)
  {
    AfterEnd(s, m, a);
    hide Lists, Apart;
    if u[i].Has(a.hi) { OnlyMembers(u, s, g, m, a.hi); }
  }

  /** The interval of a merged list that a member starts in is that member. */
  lemma MemberKept(u: seq<Interval>, s: set<Interval>, g: nat, m: nat, c: Interval, i: nat)
    requires Lists(u, s, g) && Apart(s, m) && g <= m && m > 0 && c in s && i < |u| && u[i].Has(c.lo)
    ensures u[i] == c
  {
    hide InClosure, Covers;
    assert Starts(s, u[i].lo) && Ends(s, u[i].hi);
    var a :| a in s && a.lo == u[i].lo;
    var b :| b in s && b.hi == u[i].hi;
    StopsAtEnd(u, s, g, m, a, i);
    StopsAtEnd(u, s, g, m, c, i);
  }

  lemma MergedApart(u: seq<Interval>, s: set<Interval>, g: nat, m: nat)
    requires Separated(u, 0) && Lists(u, s, g) && Apart(s, m) && g <= m && m > 0
    ensures Elems(u) == s && |u| == |s|
  {
    forall c | c in s ensures c in Elems(u) {
      assert InClosure(s, g, c.lo);
      assert Covers(u, c.lo);
      var i :| 0 <= i < |u| && u[i].Has(c.lo);
      MemberKept(u, s, g, m, c, i);
    }
    forall i | 0 <= i < |u| ensures u[i] in s {
      assert Starts(s, u[i].lo);
      var a :| a in s && a.lo == u[i].lo;
      MemberKept(u, s, g, m, a, i);
    }
    assert Elems(u) == s;
    SpacedCount(u, 0);
  }

  // ---- Restacking keeps everything ----

  ghost function Members(lists: seq<seq<Interval>>): set<Interval> {
    if lists == [] then {} else Members(lists[..|lists| - 1]) + Elems(lists[|lists| - 1])
  }

  lemma {:induction false} MembersCount(lists: seq<seq<Interval>>)
    ensures |Members(lists)| <= Total(lists)
    decreases |lists|
  {
    if lists != [] {
      MembersCount(lists[..|lists| - 1]);
      ElemsCount(lists[|lists| - 1]);
      UnionCount(Members(lists[..|lists| - 1]), Elems(lists[|lists| - 1]));
    }
  }

  lemma UnionCount(a: set<Interval>, b: set<Interval>)
    ensures |a + b| <= |a| + |b|
  {
  }

  lemma MembersMerged(lists: seq<seq<Interval>>, u: seq<Interval>)
    requires |lists| >= 2 && Elems(u) == Elems(lists[|lists| - 1]) + Elems(lists[|lists| - 2])
    ensures Members(lists[..|lists| - 2] + [u]) == Members(lists)
  {
    hide Elems;
    var n := |lists|;
    assert (lists[..n - 2] + [u])[..n - 2] == lists[..n - 2] == lists[..n - 1][..n - 2];
  }

  lemma MembersMore(lists: seq<seq<Interval>>, l: seq<Interval>)
    ensures Members(lists + [l]) == Members(lists) + Elems(l)
  {
    assert (lists + [l])[..|lists|] == lists;
  }

  lemma TopMembers(lists: seq<seq<Interval>>)
    requires |lists| >= 2
    ensures Elems(lists[|lists| - 1]) + Elems(lists[|lists| - 2]) <= Members(lists)
  {
    var n := |lists|;
    assert lists[..n - 1][n - 2] == lists[n - 2];
  }

  lemma ApartPart(s: set<Interval>, t: set<Interval>, m: nat)
    requires Apart(s, m) && t <= s
    ensures Apart(t, m)
  {
  }

  /** When all members lie apart and none is there twice, merging runs keeps each as it is. */
  lemma {:induction false} RestackKeeps(lists: seq<seq<Interval>>, after: seq<seq<Interval>>, margin: nat, force: bool)
    requires Restacks(lists, after, margin, force)
    requires Apart(Members(lists), Max(margin, 1)) && Total(lists) == |Members(lists)|
    ensures Members(after) == Members(lists) && Total(after) == Total(lists)
    decreases |lists|
  {
    hide Apart, Members, Total, Elems, Merged;
    var n := |lists|;
    if !Rests(lists, force) {
      var a, b := lists[n - 1], lists[n - 2];
      var u :| Merged(u, Elems(a) + Elems(b), margin) && Restacks(lists[..n - 2] + [u], after, margin, force);
      TopMembers(lists);
      ApartPart(Members(lists), Elems(a) + Elems(b), Max(margin, 1));
      MergedLists(u, Elems(a) + Elems(b), margin);
      MergedApart(u, Elems(a) + Elems(b), margin, Max(margin, 1));
      MembersMerged(lists, u);
      ElemsCount(a);
      ElemsCount(b);
      UnionCount(Elems(a), Elems(b));
      MembersCount(lists[..n - 2] + [u]);
      TotalMerged(lists, u);
      RestackKeeps(lists[..n - 2] + [u], after, margin, force);
    }
  }

  lemma MergedLists(u: seq<Interval>, s: set<Interval>, margin: nat)
    requires Merged(u, s, margin)
    ensures Separated(u, 0) && Lists(u, s, margin)
  {
  }

  // ---- The whole merge ----

  /** What goes in when nothing is forced, one after the other. */
  ghost function Inputs(before: seq<Interval>, news: seq<Ext>, margin: nat, unit: nat): seq<Interval>
    requires unit > 0
  {
    if news == [] then before
    else
      var n := |news| - 1;
      Inputs(before, news[..n], margin, unit) +
      if Valid(news[n]) && Acceptable(news[n]) then PieceList(news[n], margin, false, unit) else []
  }

  lemma InputsStep(before: seq<Interval>, news: seq<Ext>, margin: nat, unit: nat, j: nat)
    requires unit > 0 && j < |news|
    ensures Inputs(before, news[..j + 1], margin, unit) == Inputs(before, news[..j], margin, unit) +
      if Valid(news[j]) && Acceptable(news[j]) then PieceList(news[j], margin, false, unit) else []
  {
    hide PieceList, Acceptable, Valid;
    assert news[..j + 1][..j] == news[..j];
  }

  lemma {:induction false} InputsPrefix(before: seq<Interval>, news: seq<Ext>, margin: nat, unit: nat, j: nat)
    requires unit > 0 && j <= |news|
    ensures Inputs(before, news[..j], margin, unit) <= Inputs(before, news, margin, unit)
    decreases |news| - j
  {
    if j < |news| {
      InputsStep(before, news, margin, unit, j);
      InputsPrefix(before, news, margin, unit, j + 1);
      hide Inputs, PieceList, Acceptable, Valid;
    } else {
      assert news[..j] == news;
    }
  }

  /** What is known of the runs when nothing was forced so far. */
  ghost predicate Untouched(lists: seq<seq<Interval>>, before: seq<Interval>, news: seq<Ext>, forced: seq<bool>,
                            margin: nat, unit: nat)
    requires unit > 0 && |forced| == |news|
  {
    var l := Inputs(before, news, margin, unit);
    && Members(lists) == Elems(l) && Total(lists) == |l| == |before| + PutCount(news, forced, margin, unit)
    && forall i :: 0 <= i < |forced| ==> !forced[i]
  }

  lemma FrontSpaced(l: seq<Interval>, p: seq<Interval>, m: nat)
    requires Spaced(l + p, m)
    ensures Spaced(l, m)
  {
    assert forall i :: 0 <= i < |l| ==> (l + p)[i] == l[i];
  }

  lemma PutCountStep(news: seq<Ext>, forced: seq<bool>, margin: nat, unit: nat, j: nat)
    requires unit > 0 && j < |news| == |forced|
    ensures PutCount(news[..j + 1], forced[..j + 1], margin, unit) == PutCount(news[..j], forced[..j], margin, unit) +
      if Valid(news[j]) && Acceptable(news[j]) then |PieceList(news[j], margin, forced[j], unit)| else 0
  {
    hide PieceList, Acceptable, Valid, PutCount;
    PutCountMore(news[..j], forced[..j], margin, unit, news[j], forced[j]);
    assert news[..j] + [news[j]] == news[..j + 1] && forced[..j] + [forced[j]] == forced[..j + 1];
  }

  /** As long as the inputs lie apart none is compacted by force, whatever comes next, and no run loses any of them. */
  lemma {:induction false} NothingForced(runs: seq<seq<seq<Interval>>>, before: seq<Interval>, news: seq<Ext>,
                                         forced: seq<bool>, margin: nat, unit: nat, j: nat)
    requires unit > 0 && History(runs, before, news, forced, margin, unit) && j <= |news|
    requires Spaced(Inputs(before, news[..j], margin, unit), Max(margin, 1))
    ensures |forced| == |news| && |runs| == |news| + 1
    ensures Untouched(runs[j], before, news[..j], forced[..j], margin, unit) && (j < |news| ==> !forced[j])
  {
    hide History, Considered, Spaced, Inputs, Untouched, PutCount, Members, Total, Elems, Acceptable, PieceList;
    HistoryFirst(runs, before, news, forced, margin, unit);
    if j == 0 {
      UntouchedFirst(before, margin, unit);
      assert news[..0] == [] && forced[..0] == [];
    } else {
      HistoryAt(runs, before, news, forced, margin, unit, j - 1);
      InputsStep(before, news, margin, unit, j - 1);
      FrontSpaced(Inputs(before, news[..j - 1], margin, unit),
                  if Valid(news[j - 1]) && Acceptable(news[j - 1]) then PieceList(news[j - 1], margin, false, unit)
                    else [],
                  Max(margin, 1));
      NothingForced(runs, before, news, forced, margin, unit, j - 1);
      UntouchedNext(runs, before, news, forced, margin, unit, j - 1);
    }
    if j < |news| {
      HistoryAt(runs, before, news, forced, margin, unit, j);
      NotForcedNext(runs, before, news, forced, margin, unit, j);
    }
  }

  /** If nothing was lost, nothing is forced. */
  lemma NotForcedNext(runs: seq<seq<seq<Interval>>>, before: seq<Interval>, news: seq<Ext>, forced: seq<bool>,
                      margin: nat, unit: nat, j: nat)
    requires unit > 0 && j < |news| == |forced| && |runs| == |news| + 1
    requires Considered(runs, |before|, news, forced, margin, unit, j)
    requires Untouched(runs[j], before, news[..j], forced[..j], margin, unit)
    ensures !forced[j]
  {
    hide Inputs, PutCount, Members, Total, Elems, Acceptable, PieceList, Restacks;
  }

  lemma HistoryFirst(runs: seq<seq<seq<Interval>>>, before: seq<Interval>, news: seq<Ext>, forced: seq<bool>,
                     margin: nat, unit: nat)
    requires unit > 0 && History(runs, before, news, forced, margin, unit)
    ensures |forced| == |news| && |runs| == |news| + 1 && runs[0] == (if before == [] then [] else [before])
  {
    hide Considered;
  }

  lemma UntouchedFirst(before: seq<Interval>, margin: nat, unit: nat)
    requires unit > 0
    ensures Untouched(if before == [] then [] else [before], before, [], [], margin, unit)
  {
    assert [before][..0] == [];
    assert Members([before]) == Members([]) + Elems(before) == Elems(before);
    if before == [] { assert Elems(before) == {}; }
  }

  lemma HistoryAt(runs: seq<seq<seq<Interval>>>, before: seq<Interval>, news: seq<Ext>, forced: seq<bool>, margin: nat,
                  unit: nat, j: nat)
    requires unit > 0 && History(runs, before, news, forced, margin, unit) && j < |news|
    ensures |forced| == |news| && |runs| == |news| + 1 && Considered(runs, |before|, news, forced, margin, unit, j)
  {
  }

  lemma UntouchedNext(runs: seq<seq<seq<Interval>>>, before: seq<Interval>, news: seq<Ext>, forced: seq<bool>,
                      margin: nat, unit: nat, j: nat)
    requires unit > 0 && j < |news| == |forced| && |runs| == |news| + 1
    requires Considered(runs, |before|, news, forced, margin, unit, j)
    requires Untouched(runs[j], before, news[..j], forced[..j], margin, unit)
    requires Spaced(Inputs(before, news[..j + 1], margin, unit), Max(margin, 1))
    ensures Untouched(runs[j + 1], before, news[..j + 1], forced[..j + 1], margin, unit)
  {
    hide Spaced, Inputs, PutCount, Members, Total, Elems, Acceptable, PieceList, Restacks, Apart;
    InputsStep(before, news, margin, unit, j);
    PutCountStep(news, forced, margin, unit, j);
    if Valid(news[j]) && Acceptable(news[j]) {
      assert !forced[j];
      var l, p := Inputs(before, news[..j], margin, unit), PieceList(news[j], margin, false, unit);
      MembersMore(runs[j], p);
      TotalMore(runs[j], p);
      ElemsConcat(l, p);
      SpacedApart(l + p, Max(margin, 1));
      SpacedCount(l + p, Max(margin, 1));
      RestackKeeps(runs[j] + [p], runs[j + 1], margin, false);
    } else {
      var l := Inputs(before, news[..j], margin, unit);
      assert l + [] == l;
    }
  }

  // ---- The result in terms of rows ----

  /** The rounded rows of all valid extended intervals. */
  ghost function RowSet(news: seq<Ext>, unit: nat): (s: set<Interval>)
    requires unit > 0
    ensures Nonempty(s)
  {
    if news == [] then {}
    else
      var e := news[|news| - 1];
      RowSet(news[..|news| - 1], unit) + if Valid(e) && Rising(e) then Rows(e, e.rep, unit) else {}
  }

  /** Inside the index range. */
  predicate InRange(e: Ext) {
    Acceptable(e) && (Valid(e) ==> e.start + e.stride * (e.rep - 1) + e.width < INT32_MAX)
  }

  lemma WidenGap(l: seq<Interval>, s: set<Interval>, g: nat)
    requires IsClosure(l, s, 1) && Separated(l, g) && Nonempty(s)
    ensures Lists(l, s, g)
  {
    forall x ensures Covers(l, x) <==> InClosure(s, g, x) {
      BytesOnly(s, g, x);
      if InClosure(s, g, x) && !InSome(s, x) {
        var a, b :| a in s && b in s && a.hi <= x < b.lo && b.lo - a.hi < g;
        GapInside(l, s, g, a, b, x);
      }
    }
  }

  lemma GapInside(l: seq<Interval>, s: set<Interval>, g: nat, a: Interval, b: Interval, x: int)
    requires IsClosure(l, s, 1) && Separated(l, g) && a in s && b in s && a.lo < a.hi <= x < b.lo < b.hi
    requires b.lo - a.hi < g
    ensures Covers(l, x)
  {
    assert InClosure(s, 1, a.hi - 1) && InClosure(s, 1, b.lo);
    var i :| 0 <= i < |l| && l[i].Has(a.hi - 1);
    var j :| 0 <= j < |l| && l[j].Has(b.lo);
    if i == j { assert l[i].Has(x); }
  }

  /** The pieces of an extended interval that is not forced list its rows with short gaps closed, if they lie apart. */
  lemma PiecesList(e: Ext, margin: nat, unit: nat)
    requires Valid(e) && InRange(e) && unit > 0 && Separated(PieceList(e, margin, false, unit), margin)
    ensures Lists(PieceList(e, margin, false, unit), Rows(e, e.rep, unit), margin)
  {
    hide Rows, Lists, Adjusted, Closure, IsClosure;
    UnforcedIs(e, margin);
    AdjustedOk(e, margin, false);
    var a := Adjusted(e, margin, false);
    ClosureIs(Rows(a, a.rep, unit), 1);
    if e.width > e.stride - margin {
      OneRow(e, unit);
      HullLists(e, margin, unit);
    } else {
      WidenGap(PieceList(e, margin, false, unit), Rows(e, e.rep, unit), margin);
    }
  }

  lemma ClosureOfHull(h: Interval)
    requires h.lo < h.hi
    ensures Closure({h}, 1) == [h]
  {
    ClosureOfOne(h, 1);
    ClosureUnique([h], {h}, 1);
  }

  lemma HullLists(e: Ext, margin: nat, unit: nat)
    requires Valid(e) && Rising(e) && unit > 0 && e.width > e.stride - margin
    ensures Closure({Hull(e, unit)}, 1) == [Hull(e, unit)] && Lists([Hull(e, unit)], Rows(e, e.rep, unit), margin)
  {
    hide Rows, Hull, InClosure, Closure, Row, RowStart;
    var h, s := Hull(e, unit), Rows(e, e.rep, unit);
    HullIs(e, unit);
    HullOrder(e, unit);
    ClosureOfHull(h);
    RowsIn(e, e.rep, unit, 0);
    RowsIn(e, e.rep, unit, e.rep - 1);
    assert Starts(s, h.lo) && Ends(s, h.hi);
    RowsInHull(e, e.rep, unit);
    forall x ensures Covers([h], x) <==> InClosure(s, margin, x) {
      HullByte(h, s, margin, x);
      if h.Has(x) {
        assert [h][0].Has(x);
        NearRow(e, margin, unit, x, e.rep - 1);
      }
    }
  }

  lemma HullByte(h: Interval, s: set<Interval>, g: nat, x: int)
    requires forall a :: a in s ==> h.lo <= a.lo && a.hi <= h.hi
    requires Nonempty(s)
    ensures InClosure(s, g, x) ==> h.Has(x)
  {
  }

  lemma HullOrder(e: Ext, unit: nat)
    requires Valid(e) && Rising(e) && unit > 0
    ensures Hull(e, unit).lo < Hull(e, unit).hi
  {
    HullIs(e, unit);
    RowsRise(e, 0, e.rep - 1, unit);
  }

  lemma PieceSpaced(before: seq<Interval>, news: seq<Ext>, margin: nat, unit: nat, j: nat)
    requires unit > 0 && j < |news| && Valid(news[j]) && Acceptable(news[j])
    requires Spaced(Inputs(before, news, margin, unit), Max(margin, 1))
    ensures Separated(PieceList(news[j], margin, false, unit), margin)
  {
    var e := news[j];
    AdjustedOk(e, margin, false);
    var a := Adjusted(e, margin, false);
    ClosureIs(Rows(a, a.rep, unit), 1);
    InputsStep(before, news, margin, unit, j);
    InputsPrefix(before, news, margin, unit, j + 1);
    hide Inputs, Adjusted, Rows, Closure, Lists, Acceptable;
    var l, p := Inputs(before, news[..j], margin, unit), PieceList(e, margin, false, unit);
    assert Separated(p, 1);
    SpacedPart(Inputs(before, news, margin, unit), l, p, margin);
  }

  lemma SpacedPart(all: seq<Interval>, l: seq<Interval>, p: seq<Interval>, margin: nat)
    requires Spaced(all, Max(margin, 1)) && l + p <= all && Separated(p, 1)
    ensures Separated(p, margin)
  {
    assert forall i :: 0 <= i < |p| ==> all[|l| + i] == p[i];
    forall i, j | 0 <= i < j < |p| ensures p[i].hi + margin <= p[j].lo {
      assert all[|l| + i] == p[i] && all[|l| + j] == p[j];
    }
  }

  lemma {:induction false} PiecesNonempty(news: seq<Ext>, forced: seq<bool>, margin: nat, unit: nat)
    requires |forced| == |news| && unit > 0
    ensures Nonempty(AllPieces(news, forced, margin, unit))
    decreases |news|
  {
    if news != [] {
      var n := |news| - 1;
      PiecesNonempty(news[..n], forced[..n], margin, unit);
      if Valid(news[n]) && Acceptable(news[n]) {
        AdjustedOk(news[n], margin, forced[n]);
        var a := Adjusted(news[n], margin, forced[n]);
        ClosureIs(Rows(a, a.rep, unit), 1);
        hide Adjusted, Rows, Closure, Lists, Acceptable;
        assert Separated(PieceList(news[n], margin, forced[n], unit), 1);
      }
    }
  }

  /** Extended interval `j`, if valid, is not forced, and its pieces lie apart. */
  ghost predicate Loose(news: seq<Ext>, forced: seq<bool>, margin: nat, unit: nat, j: nat)
    requires j < |news| == |forced| && unit > 0
  {
    InRange(news[j]) && !forced[j] && (Valid(news[j]) ==> Separated(PieceList(news[j], margin, false, unit), margin))
  }

  /** What lists the pieces lists the rows. */
  lemma {:induction false} RowsForPieces(dst: seq<Interval>, base: set<Interval>, news: seq<Ext>, forced: seq<bool>,
                                         margin: nat, unit: nat)
    requires |forced| == |news| && unit > 0 && Nonempty(base)
    requires forall j :: 0 <= j < |news| ==> Loose(news, forced, margin, unit, j)
    requires Lists(dst, base + AllPieces(news, forced, margin, unit), margin)
    ensures Lists(dst, base + RowSet(news, unit), margin)
    decreases |news|
  {
    hide Lists, PieceList, Rows, Elems;
    if news != [] {
      var n := |news| - 1;
      var e, rest := news[n], AllPieces(news[..n], forced[..n], margin, unit);
      assert Loose(news, forced, margin, unit, n);
      forall j | 0 <= j < n ensures Loose(news[..n], forced[..n], margin, unit, j) {
        assert Loose(news, forced, margin, unit, j);
      }
      PiecesNonempty(news[..n], forced[..n], margin, unit);
      if Valid(e) {
        var p, rows := PieceList(e, margin, false, unit), Rows(e, e.rep, unit);
        PiecesList(e, margin, unit);
        assert base + AllPieces(news, forced, margin, unit) == Elems(p) + (base + rest);
        ListsVia(dst, p, rows, base + rest, margin);
        assert rows + (base + rest) == (base + rows) + rest;
        RowsForPieces(dst, base + rows, news[..n], forced[..n], margin, unit);
        assert (base + rows) + RowSet(news[..n], unit) == base + RowSet(news, unit);
      } else {
        assert rest + {} == rest && RowSet(news[..n], unit) + {} == RowSet(news[..n], unit);
        assert AllPieces(news, forced, margin, unit) == rest && RowSet(news, unit) == RowSet(news[..n], unit);
        RowsForPieces(dst, base, news[..n], forced[..n], margin, unit);
      }
    }
  }

  lemma {:induction false} InputsAre(before: seq<Interval>, news: seq<Ext>, forced: seq<bool>, margin: nat, unit: nat)
    requires unit > 0 && |forced| == |news| && forall i :: 0 <= i < |forced| ==> !forced[i]
    ensures Elems(Inputs(before, news, margin, unit)) == Elems(before) + AllPieces(news, forced, margin, unit)
    decreases |news|
  {
    hide Elems, PieceList, Acceptable;
    if news != [] {
      var n := |news| - 1;
      InputsAre(before, news[..n], forced[..n], margin, unit);
      if Valid(news[n]) && Acceptable(news[n]) {
        ElemsConcat(Inputs(before, news[..n], margin, unit), PieceList(news[n], margin, false, unit));
      } else {
        assert Inputs(before, news[..n], margin, unit) + [] == Inputs(before, news[..n], margin, unit);
      }
    }
  }

  /** The one run that is left has everything that went in. */
  lemma LastRun(lists: seq<seq<Interval>>, dst: seq<Interval>, margin: nat, s: set<Interval>)
    requires if lists == [] then dst == [] else Restacks(lists, [dst], margin, true)
    requires Members(lists) == s && Total(lists) == |s| && Apart(s, Max(margin, 1))
    ensures Elems(dst) == s
  {
    if lists == [] {
      assert Elems(dst) == {};
    } else {
      RestackKeeps(lists, [dst], margin, true);
      assert [dst][..0] == [] && Members([dst]) == {} + Elems(dst);
    }
  }

  lemma SeparatedMore(l: seq<Interval>, m: nat)
    requires Separated(l, 0) && Apart(Elems(l), m)
    ensures Separated(l, m)
  {
    forall i, j | 0 <= i < j < |l| ensures l[i].hi + m <= l[j].lo {
      assert l[i] in Elems(l) && l[j] in Elems(l) && l[i].lo < l[i].hi <= l[j].lo < l[j].hi;
    }
  }

  /**
   * When everything that goes in lies at least the margin apart, nothing is compacted
   * by force, and the merged list is the gap closure of the old list and all rounded rows.
   */
  lemma SpacedExact(dst: seq<Interval>, runs: seq<seq<seq<Interval>>>, before: seq<Interval>, news: seq<Ext>,
                    forced: seq<bool>, margin: nat, unit: nat)
    requires unit > 0 && History(runs, before, news, forced, margin, unit) && Separated(dst, 0)
    requires if runs[|news|] == [] then dst == [] else Restacks(runs[|news|], [dst], margin, true)
    requires forall j :: 0 <= j < |news| ==> InRange(news[j])
    requires Spaced(Inputs(before, news, margin, unit), Max(margin, 1))
    ensures forall j :: 0 <= j < |news| ==> !forced[j]
    ensures dst == Closure(Elems(before) + RowSet(news, unit), margin)
  {
    var l, m := Inputs(before, news, margin, unit), Max(margin, 1);
    HistoryFirst(runs, before, news, forced, margin, unit);
    assert news[..|news|] == news && forced[..|news|] == forced;
    NothingForced(runs, before, news, forced, margin, unit, |news|);
    SpacedApart(l, m);
    SpacedCount(l, m);
    InputsPrefix(before, news, margin, unit, 0);
    assert news[..0] == [];
    SpacedFront(before, l, m);
    forall j | 0 <= j < |news| ensures Loose(news, forced, margin, unit, j) {
      if Valid(news[j]) { PieceSpaced(before, news, margin, unit, j); }
    }
    hide *;
    LastRun(runs[|news|], dst, margin, Elems(l));
    SeparatedMore(dst, m);
    SeparatedIsClosure(dst, margin);
    InputsAre(before, news, forced, margin, unit);
    ClosureLists(dst, Elems(l), margin);
    RowsForPieces(dst, Elems(before), news, forced, margin, unit);
    ListsClosure(dst, Elems(before) + RowSet(news, unit), margin);
    NonemptyUnion(Elems(before), RowSet(news, unit));
    ClosureUnique(dst, Elems(before) + RowSet(news, unit), margin);
  }

  lemma NonemptyUnion(a: set<Interval>, b: set<Interval>)
    requires Nonempty(a) && Nonempty(b)
    ensures Nonempty(a + b)
  {
  }

  lemma SpacedFront(before: seq<Interval>, l: seq<Interval>, m: nat)
    requires before <= l && Spaced(l, m)
    ensures Nonempty(Elems(before))
  {
    assert forall i :: 0 <= i < |before| ==> before[i] == l[i];
  }

  lemma ClosureLists(l: seq<Interval>, s: set<Interval>, g: nat)
    requires IsClosure(l, s, g)
    ensures Lists(l, s, g)
  {
  }

  lemma ListsClosure(l: seq<Interval>, s: set<Interval>, g: nat)
    requires Lists(l, s, g) && Separated(l, Max(g, 1))
    ensures IsClosure(l, s, g)
  {
  }
}

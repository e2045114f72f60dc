/**
 * Half-open byte intervals and the gap closure of a set of them: the bytes the
 * set contains, plus those in gaps shorter than `g` between two of its members.
 */
module Intervals {
  import opened Bytes

  datatype Interval = Interval(lo: nat, hi: nat) {
    predicate Has(x: int) { lo <= x < hi }
  }

  predicate Covers(l: seq<Interval>, x: int) {
    exists i :: 0 <= i < |l| && l[i].Has(x)
  }

  function Elems(l: seq<Interval>): set<Interval> {
    set i | 0 <= i < |l| :: l[i]
  }

  /** Nonempty intervals, ascending, at least `g` apart. */
  predicate Separated(l: seq<Interval>, g: nat) {
    && (forall i :: 0 <= i < |l| ==> l[i].lo < l[i].hi)
    && (forall i, j :: 0 <= i < j < |l| ==> l[i].hi + g <= l[j].lo)
  }

  ghost predicate InGap(s: set<Interval>, g: nat, x: int) {
    exists a, b :: a in s && b in s && a.hi <= x < b.lo && b.lo - a.hi < g
  }

  /** The gap closure, byte by byte. */
  ghost predicate InClosure(s: set<Interval>, g: nat, x: int) {
    (exists a :: a in s && a.Has(x)) || InGap(s, g, x)
  }

  ghost predicate Nonempty(s: set<Interval>) {
    forall a :: a in s ==> a.lo < a.hi
  }

  ghost predicate Starts(s: set<Interval>, lo: nat) { exists a :: a in s && a.lo == lo }

  ghost predicate Ends(s: set<Interval>, hi: nat) { exists a :: a in s && a.hi == hi }

  /** Endpoints of the list are endpoints of members of the set. */
  ghost predicate EndsFrom(l: seq<Interval>, s: set<Interval>) {
    forall i :: 0 <= i < |l| ==> Starts(s, l[i].lo) && Ends(s, l[i].hi)
  }

  /** `l` covers the gap closure of `s`, with endpoints from `s`. */
  ghost predicate Lists(l: seq<Interval>, s: set<Interval>, g: nat) {
    && (forall x :: Covers(l, x) <==> InClosure(s, g, x))
    && EndsFrom(l, s)
  }

  /** `l` lists the gap closure of `s` as maximal separated intervals. */
  ghost predicate IsClosure(l: seq<Interval>, s: set<Interval>, g: nat) {
    Separated(l, Max(g, 1)) && Lists(l, s, g)
  }

  /** Add an interval that starts no earlier than any before it. */
  function Absorb(l: seq<Interval>, n: Interval, g: nat): seq<Interval> {
    if l == [] then [n]
    else
      var last := l[|l| - 1];
      if n.lo <= last.hi || n.lo - last.hi < g then l[..|l| - 1] + [Interval(last.lo, Max(last.hi, n.hi))]
      else l + [n]
  }

  /** A finished list and the interval still being grown. */
  function Pending(output: seq<Interval>, last: Option<Interval>): seq<Interval> {
    match last case None => output case Some(y) => output + [y]
  }

  /** Grow the open interval, or finish it and open another. */
  method Extend(output: seq<Interval>, last: Option<Interval>, nxt: Interval, g: nat)
    returns (output': seq<Interval>, last': Option<Interval>)
    requires last.None? ==> output == []
    ensures Pending(output', last') == Absorb(Pending(output, last), nxt, g) && last'.Some?
  {
    match last {
      case None =>
        output', last' := output, Some(nxt);
      case Some(y) =>
        if nxt.lo <= y.hi || nxt.lo - y.hi < g {
          output', last' := output, Some(Interval(y.lo, Max(y.hi, nxt.hi)));
        } else {
          output', last' := output + [y], Some(nxt);
        }
    }
    assert Pending(output', last') == Absorb(Pending(output, last), nxt, g);
  }

  lemma CoversAppend(l: seq<Interval>, n: Interval, x: int)
    ensures Covers(l + [n], x) <==> Covers(l, x) || n.Has(x)
  {
    if Covers(l, x) { var i :| 0 <= i < |l| && l[i].Has(x); assert (l + [n])[i].Has(x); }
    if n.Has(x) { assert (l + [n])[|l|].Has(x); }
  }

  /** No member of the set ends after its closure does. */
  lemma EndsInside(l: seq<Interval>, s: set<Interval>, g: nat, a: Interval)
    requires IsClosure(l, s, g) && Nonempty(s) && a in s
    ensures l != [] && a.hi <= l[|l| - 1].hi
  {
    assert a.Has(a.hi - 1);
    assert Covers(l, a.hi - 1);
  }

  lemma ClosureMonotone(s: set<Interval>, t: set<Interval>, g: nat, x: int)
    requires s <= t && InClosure(s, g, x)
    ensures InClosure(t, g, x)
  {
    if InGap(s, g, x) {
      var a, b :| a in s && b in s && a.hi <= x < b.lo && b.lo - a.hi < g;
      assert a in t && b in t;
    }
  }

  lemma AbsorbCovers(l: seq<Interval>, g: nat, n: Interval, x: int)
    requires l != [] && l[|l| - 1].lo <= n.lo < n.hi && l[|l| - 1].lo < l[|l| - 1].hi
    ensures var last := l[|l| - 1];
      Covers(Absorb(l, n, g), x) <==>
      Covers(l, x) || n.Has(x) || (last.hi <= x < n.lo && n.lo - last.hi < g)
  {
    var last, init := l[|l| - 1], l[..|l| - 1];
    assert l == init + [last];
    CoversAppend(init, last, x);
    CoversAppend(init, Interval(last.lo, Max(last.hi, n.hi)), x);
    CoversAppend(l, n, x);
  }

  lemma AbsorbSound(l: seq<Interval>, s: set<Interval>, g: nat, n: Interval, x: int)
    requires IsClosure(l, s, g) && l != [] && l[|l| - 1].lo <= n.lo < n.hi
    requires Covers(Absorb(l, n, g), x)
    ensures InClosure(s + {n}, g, x)
  {
    var last, t := l[|l| - 1], s + {n};
    AbsorbCovers(l, g, n, x);
    assert n in t;
    if Covers(l, x) {
      ClosureMonotone(s, t, g, x);
    } else if !n.Has(x) {
      var a :| a in s && a.hi == last.hi;
      assert a in t && a.hi <= x < n.lo && n.lo - a.hi < g;
    }
  }

  lemma AbsorbComplete(l: seq<Interval>, s: set<Interval>, g: nat, n: Interval, x: int)
    requires IsClosure(l, s, g) && Nonempty(s) && l != [] && n.lo < n.hi
    requires forall a :: a in s ==> a.lo <= n.lo
    requires l[|l| - 1].lo <= n.lo
    requires InClosure(s + {n}, g, x)
    ensures Covers(Absorb(l, n, g), x)
  {
    AbsorbCovers(l, g, n, x);
    if !Covers(l, x) && !n.Has(x) {
      assert !InClosure(s, g, x);
      assert InGap(s + {n}, g, x);
      var a, b :| a in s + {n} && b in s + {n} && a.hi <= x < b.lo && b.lo - a.hi < g;
      GapToLast(l, s, g, n, x, a, b);
    }
  }

  lemma GapToLast(l: seq<Interval>, s: set<Interval>, g: nat, n: Interval, x: int, a: Interval, b: Interval)
    requires IsClosure(l, s, g) && Nonempty(s) && l != [] && n.lo < n.hi
    requires forall c :: c in s ==> c.lo <= n.lo
    requires a in s + {n} && b in s + {n} && a.hi <= x < b.lo && b.lo - a.hi < g
    requires !Covers(l, x)
    ensures l[|l| - 1].hi <= x < n.lo && n.lo - l[|l| - 1].hi < g
  {
    var last := l[|l| - 1];
    assert !InClosure(s, g, x) && !InGap(s, g, x);
    assert b == n && a in s;
    EndsInside(l, s, g, a);
    assert !l[|l| - 1].Has(x);
    var c :| c in s && c.lo == last.lo;
    assert !(a.hi <= x < c.lo && c.lo - a.hi < g);
  }

  lemma AbsorbEnds(l: seq<Interval>, s: set<Interval>, g: nat, n: Interval)
    requires IsClosure(l, s, g) && l != []
    ensures EndsFrom(Absorb(l, n, g), s + {n})
  {
    var l' := Absorb(l, n, g);
    forall i | 0 <= i < |l'|
      ensures Starts(s + {n}, l'[i].lo) && Ends(s + {n}, l'[i].hi)
    {
      assert n in s + {n};
      if i < |l| {
        var a :| a in s && a.lo == l[i].lo;
        var b :| b in s && b.hi == l[i].hi;
        assert a in s + {n} && b in s + {n};
      }
    }
  }

  lemma AbsorbSeparated(l: seq<Interval>, g: nat, n: Interval)
    requires Separated(l, Max(g, 1)) && n.lo < n.hi && (l != [] ==> l[|l| - 1].lo <= n.lo)
    ensures Separated(Absorb(l, n, g), Max(g, 1))
  {
  }

  lemma ClosureOfOne(n: Interval, g: nat)
    requires n.lo < n.hi
    ensures IsClosure([n], {n}, g)
  {
    forall x ensures Covers([n], x) <==> InClosure({n}, g, x) {
      if n.Has(x) { assert [n][0].Has(x); }
    }
  }

  /** `Absorb` computes the closure one interval at a time. */
  lemma AbsorbClosure(l: seq<Interval>, s: set<Interval>, g: nat, n: Interval)
    requires IsClosure(l, s, g) && Nonempty(s) && n.lo < n.hi
    requires forall a :: a in s ==> a.lo <= n.lo
    ensures IsClosure(Absorb(l, n, g), s + {n}, g)
  {
    if l == [] {
      if a :| a in s { EndsInside(l, s, g, a); }
      assert s + {n} == {n};
      ClosureOfOne(n, g);
    } else {
      var c :| c in s && c.lo == l[|l| - 1].lo;
      AbsorbSeparated(l, g, n);
      AbsorbEnds(l, s, g, n);
      forall x ensures Covers(Absorb(l, n, g), x) <==> InClosure(s + {n}, g, x) {
        hide IsClosure, Absorb, Covers, InClosure;
        if Covers(Absorb(l, n, g), x) { AbsorbSound(l, s, g, n, x); }
        if InClosure(s + {n}, g, x) { AbsorbComplete(l, s, g, n, x); }
      }
    }
  }

  // ---- The closure as a function ----

  lemma LatestExists(s: set<Interval>)
    requires s != {}
    ensures exists n :: n in s && forall a :: a in s ==> a.lo <= n.lo
  {
    var m :| m in s;
    if s != {m} {
      LatestExists(s - {m});
      var n :| n in s - {m} && forall a :: a in s - {m} ==> a.lo <= n.lo;
      var best := if m.lo <= n.lo then n else m;
      assert best in s && forall a :: a in s ==> a.lo <= best.lo;
    }
  }

  /** An interval that starts as late as any. */
  ghost function Latest(s: set<Interval>): (n: Interval)
    requires s != {}
    ensures n in s && forall a :: a in s ==> a.lo <= n.lo
  {
    LatestExists(s);
    var n :| n in s && forall a :: a in s ==> a.lo <= n.lo;
    n
  }

  /** The gap closure of a set, as a list. */
  ghost function Closure(s: set<Interval>, g: nat): seq<Interval> {
    if s == {} then []
    else
      var n := Latest(s);
      Absorb(Closure(s - {n}, g), n, g)
  }

  lemma {:induction false} ClosureIs(s: set<Interval>, g: nat)
    requires Nonempty(s)
    ensures IsClosure(Closure(s, g), s, g)
  {
    if s != {} {
      var n := Latest(s);
      ClosureIs(s - {n}, g);
      assert Closure(s, g) == Absorb(Closure(s - {n}, g), n, g);
      hide IsClosure, Absorb, Closure;
      AbsorbClosure(Closure(s - {n}, g), s - {n}, g, n);
      assert s - {n} + {n} == s;
    }
  }

  lemma CoversCons(n: Interval, l: seq<Interval>, x: int)
    ensures Covers([n] + l, x) <==> n.Has(x) || Covers(l, x)
  {
    if n.Has(x) { assert ([n] + l)[0].Has(x); }
    if Covers(l, x) { var i :| 0 <= i < |l| && l[i].Has(x); assert ([n] + l)[i + 1].Has(x); }
  }

  lemma FirstInterval(a: seq<Interval>, x: int)
    requires Separated(a, 1) && a != []
    ensures Covers(a, a[0].lo) && (Covers(a, x) ==> a[0].lo <= x)
    ensures a[0].lo <= x < a[0].hi ==> Covers(a, x)
    ensures !Covers(a, a[0].hi)
  {
    assert a[0].Has(a[0].lo);
  }

  /** A separated list is determined by the bytes it covers. */
  lemma {:induction false} SeparatedUnique(a: seq<Interval>, b: seq<Interval>)
    requires Separated(a, 1) && Separated(b, 1)
    requires forall x :: Covers(a, x) <==> Covers(b, x)
    ensures a == b
    decreases |a|
  {
    if a == [] {
      if b != [] { FirstInterval(b, 0); }
    } else if b == [] {
      FirstInterval(a, 0);
    } else {
      FirstInterval(a, b[0].lo);
      FirstInterval(b, a[0].lo);
      FirstInterval(a, b[0].hi);
      FirstInterval(b, a[0].hi);
      assert a[0] == b[0];
      forall x ensures Covers(a[1..], x) <==> Covers(b[1..], x) {
        assert a == [a[0]] + a[1..] && b == [b[0]] + b[1..];
        CoversCons(a[0], a[1..], x);
        CoversCons(b[0], b[1..], x);
      }
      SeparatedUnique(a[1..], b[1..]);
    }
  }

  /** Whatever lists the closure of a set is its closure. */
  lemma ClosureUnique(l: seq<Interval>, s: set<Interval>, g: nat)
    requires Nonempty(s) && IsClosure(l, s, g)
    ensures l == Closure(s, g)
  {
    ClosureIs(s, g);
    SeparatedUnique(l, Closure(s, g));
  }

  lemma ElemOf(l: seq<Interval>, x: int)
    ensures Covers(l, x) <==> exists a :: a in Elems(l) && a.Has(x)
  {
    if Covers(l, x) { var i :| 0 <= i < |l| && l[i].Has(x); assert l[i] in Elems(l); }
  }

  lemma PartSound(l: seq<Interval>, a: set<Interval>, b: set<Interval>, g: nat, x: int)
    requires Lists(l, a, g) && InClosure(Elems(l) + b, g, x)
    ensures InClosure(a + b, g, x)
  {
    ElemOf(l, x);
    if Covers(l, x) {
      ClosureMonotone(a, a + b, g, x);
    } else if c :| c in b && c.Has(x) {
      assert c in a + b;
    } else {
      var c, d :| c in Elems(l) + b && d in Elems(l) + b && c.hi <= x < d.lo && d.lo - c.hi < g;
      var c' :| c' in a + b && c'.hi == c.hi;
      var d' :| d' in a + b && d'.lo == d.lo;
      assert InGap(a + b, g, x);
    }
  }

  lemma LeftNeighbour(l: seq<Interval>, a: set<Interval>, g: nat, x: int, c: Interval) returns (c': Interval)
    requires Nonempty(a) && Lists(l, a, g) && !Covers(l, x) && c in a && c.hi <= x
    ensures c' in Elems(l) && c.hi <= c'.hi <= x
  {
    assert c.Has(c.hi - 1) && InClosure(a, g, c.hi - 1);
    ElemOf(l, c.hi - 1);
    c' :| c' in Elems(l) && c'.Has(c.hi - 1);
    ElemOf(l, x);
    assert !c'.Has(x);
  }

  lemma RightNeighbour(l: seq<Interval>, a: set<Interval>, g: nat, x: int, d: Interval) returns (d': Interval)
    requires Nonempty(a) && Lists(l, a, g) && !Covers(l, x) && d in a && x < d.lo
    ensures d' in Elems(l) && x < d'.lo <= d.lo
  {
    assert d.Has(d.lo) && InClosure(a, g, d.lo);
    ElemOf(l, d.lo);
    d' :| d' in Elems(l) && d'.Has(d.lo);
    ElemOf(l, x);
    assert !d'.Has(x);
  }

  lemma GapComplete(l: seq<Interval>, a: set<Interval>, b: set<Interval>, g: nat, x: int, c: Interval, d: Interval)
    requires Nonempty(a) && Lists(l, a, g) && !Covers(l, x)
    requires c in a + b && d in a + b && c.hi <= x < d.lo && d.lo - c.hi < g
    ensures InGap(Elems(l) + b, g, x)
  {
    hide Lists, Covers, Elems, Nonempty;
    var c', d' := c, d;
    if c in a { c' := LeftNeighbour(l, a, g, x, c); }
    if d in a { d' := RightNeighbour(l, a, g, x, d); }
    assert c' in Elems(l) + b && d' in Elems(l) + b;
  }

  lemma PartComplete(l: seq<Interval>, a: set<Interval>, b: set<Interval>, g: nat, x: int)
    requires Nonempty(a) && Lists(l, a, g) && InClosure(a + b, g, x)
    ensures InClosure(Elems(l) + b, g, x)
  {
    ElemOf(l, x);
    if Covers(l, x) {
      var c :| c in Elems(l) && c.Has(x);
      assert c in Elems(l) + b;
    } else if c :| c in b && c.Has(x) {
      assert c in Elems(l) + b;
    } else {
      NotInPart(l, a, b, g, x);
      var c, d :| c in a + b && d in a + b && c.hi <= x < d.lo && d.lo - c.hi < g;
      hide Lists, Covers, Elems, Nonempty;
      GapComplete(l, a, b, g, x, c, d);
    }
  }

  lemma NotInPart(l: seq<Interval>, a: set<Interval>, b: set<Interval>, g: nat, x: int)
    requires Lists(l, a, g) && InClosure(a + b, g, x) && !Covers(l, x) && !exists c :: c in b && c.Has(x)
    ensures InGap(a + b, g, x)
  {
    assert !InClosure(a, g, x);
  }

  /** Closing part of a set first changes nothing. */
  lemma ClosureOfPart(l: seq<Interval>, a: set<Interval>, b: set<Interval>, g: nat)
    requires Nonempty(a) && Nonempty(b) && IsClosure(l, a, g)
    ensures Nonempty(Elems(l) + b)
    ensures Closure(Elems(l) + b, g) == Closure(a + b, g)
  {
    ClosureIs(a + b, g);
    ClosureIs(Elems(l) + b, g);
    SameClosure(l, a, b, g);
    SeparatedUnique(Closure(a + b, g), Closure(Elems(l) + b, g));
  }

  lemma SameClosure(l: seq<Interval>, a: set<Interval>, b: set<Interval>, g: nat)
    requires Nonempty(a) && Nonempty(b) && Lists(l, a, g)
    ensures forall x :: InClosure(Elems(l) + b, g, x) <==> InClosure(a + b, g, x)
  {
    hide InClosure, Lists;
    forall x ensures InClosure(Elems(l) + b, g, x) <==> InClosure(a + b, g, x) {
      if InClosure(Elems(l) + b, g, x) { PartSound(l, a, b, g, x); }
      if InClosure(a + b, g, x) { PartComplete(l, a, b, g, x); }
    }
  }

  /** Far enough apart, closures do not interact. */
  lemma ClosureConcat(l: seq<Interval>, a: set<Interval>, m: seq<Interval>, b: set<Interval>, g: nat)
    requires Nonempty(a) && Nonempty(b) && IsClosure(l, a, g) && IsClosure(m, b, g)
    requires forall c, d :: c in a && d in b ==> c.hi + Max(g, 1) <= d.lo
    ensures IsClosure(l + m, a + b, g)
  {
    ConcatSeparated(l, a, m, b, g);
    forall i | 0 <= i < |l + m|
      ensures Starts(a + b, (l + m)[i].lo) && Ends(a + b, (l + m)[i].hi)
    {
      if i < |l| {
        assert Starts(a, l[i].lo) && Ends(a, l[i].hi);
      } else {
        assert Starts(b, m[i - |l|].lo) && Ends(b, m[i - |l|].hi);
      }
    }
    forall x ensures Covers(l + m, x) <==> InClosure(a + b, g, x) {
      ConcatCovers(l, m, x);
      if Covers(l, x) { ClosureMonotone(a, a + b, g, x); }
      if Covers(m, x) { ClosureMonotone(b, a + b, g, x); }
      if InClosure(a + b, g, x) { ConcatSplits(a, b, g, x); }
    }
  }

  lemma ConcatSeparated(l: seq<Interval>, a: set<Interval>, m: seq<Interval>, b: set<Interval>, g: nat)
    requires IsClosure(l, a, g) && IsClosure(m, b, g)
    requires forall c, d :: c in a && d in b ==> c.hi + Max(g, 1) <= d.lo
    ensures Separated(l + m, Max(g, 1))
  {
    forall i, j | 0 <= i < |l| && 0 <= j < |m| ensures l[i].hi + Max(g, 1) <= m[j].lo {
      assert Ends(a, l[i].hi) && Starts(b, m[j].lo);
    }
  }

  lemma ConcatCovers(l: seq<Interval>, m: seq<Interval>, x: int)
    ensures Covers(l + m, x) <==> Covers(l, x) || Covers(m, x)
  {
    if Covers(l, x) { var i :| 0 <= i < |l| && l[i].Has(x); assert (l + m)[i].Has(x); }
    if Covers(m, x) { var i :| 0 <= i < |m| && m[i].Has(x); assert (l + m)[|l| + i].Has(x); }
  }

  lemma ConcatSplits(a: set<Interval>, b: set<Interval>, g: nat, x: int)
    requires Nonempty(a) && Nonempty(b) && InClosure(a + b, g, x)
    requires forall c, d :: c in a && d in b ==> c.hi + Max(g, 1) <= d.lo
    ensures InClosure(a, g, x) || InClosure(b, g, x)
  {
    if InGap(a + b, g, x) {
      var c, d :| c in a + b && d in a + b && c.hi <= x < d.lo && d.lo - c.hi < g;
      assert (c in a && d in a) || (c in b && d in b);
    }
  }

  /** A list that is already separated is its own closure. */
  lemma SeparatedIsClosure(l: seq<Interval>, g: nat)
    requires Separated(l, Max(g, 1))
    ensures Nonempty(Elems(l)) && IsClosure(l, Elems(l), g)
  {
    forall x ensures Covers(l, x) <==> InClosure(Elems(l), g, x) {
      ElemOf(l, x);
    }
    OwnEnds(l);
  }

  lemma ElemsAppend(l: seq<Interval>, n: Interval)
    ensures Elems(l + [n]) == Elems(l) + {n}
  {
    forall a | a in Elems(l) + {n} ensures a in Elems(l + [n]) {
      if a == n {
        assert (l + [n])[|l|] == n;
      } else {
        var i :| 0 <= i < |l| && l[i] == a;
        assert (l + [n])[i] == a;
      }
    }
  }

  /** The closure starts where the earliest member does. */
  lemma ClosureStart(n: Interval, t: set<Interval>, g: nat)
    requires n.lo < n.hi && Nonempty(t) && forall a :: a in t ==> n.lo <= a.lo
    ensures var m := Closure({n} + t, g); m != [] && m[0].lo == n.lo
  {
    hide *;
    NonemptyWith(n, t);
    ClosureIs({n} + t, g);
    ListStart(Closure({n} + t, g), n, {n} + t, g);
  }

  lemma ListStart(m: seq<Interval>, n: Interval, s: set<Interval>, g: nat)
    requires IsClosure(m, s, g) && n in s && n.lo < n.hi && forall a :: a in s ==> n.lo <= a.lo
    ensures m != [] && m[0].lo == n.lo
  {
    assert n.Has(n.lo) && InClosure(s, g, n.lo);
    var j :| 0 <= j < |m| && m[j].Has(n.lo);
    assert m[0].lo <= m[j].lo;
    assert Starts(s, m[0].lo);
  }

  lemma LastApart(l: seq<Interval>, n: Interval, s: set<Interval>, g: nat)
    requires IsClosure(l + [n], s, g)
    ensures Separated(l, Max(g, 1)) && n.lo < n.hi
    ensures forall c :: c in Elems(l) ==> c.hi + Max(g, 1) <= n.lo
  {
    assert (l + [n])[|l|] == n;
    assert forall i :: 0 <= i < |l| ==> (l + [n])[i] == l[i];
  }

  lemma NonemptyWith(n: Interval, t: set<Interval>)
    requires n.lo < n.hi && Nonempty(t)
    ensures Nonempty({n} + t)
  {
  }

  /** Later intervals can only grow the last one and add more behind it. */
  lemma ClosurePrefix(l: seq<Interval>, n: Interval, s: set<Interval>, t: set<Interval>, g: nat)
    requires IsClosure(l + [n], s, g) && Nonempty(s) && Nonempty(t) && forall a :: a in t ==> n.lo <= a.lo
    ensures var full := Closure(s + t, g); |full| > |l| && full[..|l|] == l && full[|l|].lo == n.lo
  {
    hide *;
    LastApart(l, n, s, g);
    NonemptyWith(n, t);
    ElemsAppend(l, n);
    var tail, m := {n} + t, Closure({n} + t, g);
    assert Elems(l + [n]) + t == Elems(l) + tail;
    ClosureOfPart(l + [n], s, t, g);
    SeparatedIsClosure(l, g);
    ClosureIs(tail, g);
    ClosureConcat(l, Elems(l), m, tail, g);
    ClosureUnique(l + m, Elems(l) + tail, g);
    ClosureStart(n, t, g);
  }

  lemma OwnEnds(l: seq<Interval>)
    ensures EndsFrom(l, Elems(l))
  {
    forall i | 0 <= i < |l|
      ensures Starts(Elems(l), l[i].lo) && Ends(Elems(l), l[i].hi)
    {
      assert l[i] in Elems(l);
    }
  }
}

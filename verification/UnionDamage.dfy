/** Merging two damage lists. */
module UnionDamage {
  import opened Bytes
  import opened Intervals

  /** The validity test for damage lists. */
  method ValidateOutput(a: seq<Interval>, alignBits: nat, minGap: nat) returns (ok: bool)
    ensures ok <==> Separated(a, minGap) && forall i :: 0 <= i < |a| ==> Aligned(a[i], alignBits)
  {
    for k := 0 to |a|
      invariant forall i :: 0 <= i < k ==> a[i].lo < a[i].hi && Aligned(a[i], alignBits)
    {
      if a[k].lo >= a[k].hi { return false; }
      if a[k].lo % Pow2(alignBits) != 0 || a[k].hi % Pow2(alignBits) != 0 { return false; }
    }
    var k := 1;
    while k < |a|
      invariant 1 <= k
      invariant forall i, j :: 0 <= i < j < k && j < |a| ==> a[i].hi + minGap <= a[j].lo
    {
      if a[k].lo < a[k - 1].hi { return false; }
      if a[k].lo < a[k - 1].hi + minGap { return false; }
      k := k + 1;
    }
    return true;
  }

  predicate Aligned(i: Interval, alignBits: nat) {
    i.lo % Pow2(alignBits) == 0 && i.hi % Pow2(alignBits) == 0
  }

  ghost function Union(a: seq<Interval>, b: seq<Interval>, minGap: nat): seq<Interval> {
    Closure(Elems(a) + Elems(b), minGap)
  }

  lemma UnionIs(a: seq<Interval>, b: seq<Interval>, minGap: nat)
    ensures Union(a, b, minGap) == Closure(Elems(a) + Elems(b), minGap)
  {
  }

  lemma NoElems()
    ensures Elems([]) == {}
  {
  }

  lemma ElemsMore(a: seq<Interval>, k: nat)
    requires k < |a|
    ensures Elems(a[..k + 1]) == Elems(a[..k]) + {a[k]}
  {
    forall x ensures x in Elems(a[..k + 1]) <==> x in Elems(a[..k]) + {a[k]} {
      if x in Elems(a[..k]) { var i :| 0 <= i < k && a[..k][i] == x; assert a[..k + 1][i] == x; }
      if x == a[k] { assert a[..k + 1][k] == x; }
    }
  }

  lemma NothingYet(a: seq<Interval>, b: seq<Interval>, g: nat)
    ensures IsClosure(Pending([], None), {}, g) && Upcoming({}, a, 0) && Upcoming({}, b, 0)
  {
  }

  /** The next element of `l`, if any, starts no earlier than anything in `s`. */
  ghost predicate Upcoming(s: set<Interval>, l: seq<Interval>, k: nat) {
    k < |l| ==> forall c :: c in s ==> c.lo <= l[k].lo
  }

  lemma TakeNext(s: set<Interval>, l: seq<Interval>, k: nat, other: seq<Interval>, j: nat, g: nat)
    requires Separated(l, g) && k < |l| && Upcoming(s, l, k) && Upcoming(s, other, j)
    requires j < |other| ==> l[k].lo <= other[j].lo
    ensures Upcoming(s + {l[k]}, l, k + 1) && Upcoming(s + {l[k]}, other, j)
    ensures Elems(l[..k + 1]) == Elems(l[..k]) + {l[k]}
    ensures l[k].lo < l[k].hi && forall c :: c in s ==> c.lo <= l[k].lo
  {
    ElemsMore(l, k);
  }

  lemma TakenSoFar(a: seq<Interval>, ia: nat, b: seq<Interval>, ib: nat, g: nat)
    requires Separated(a, g) && Separated(b, g) && ia <= |a| && ib <= |b|
    ensures Nonempty(Elems(a[..ia]) + Elems(b[..ib]))
  {
  }

  /** Merge two damage lists, closing gaps below `minGap`. */
  method UnionDamage(a: seq<Interval>, b: seq<Interval>, minGap: nat) returns (output: seq<Interval>)
    requires Separated(a, minGap) && Separated(b, minGap)
    ensures output == Union(a, b, minGap)
  {
    hide *;
    output := [];
    var last: Option<Interval> := None;
    var ia, ib := 0, 0;
    assert Elems(a[..0]) + Elems(b[..0]) == {} by { NoElems(); }
    NothingYet(a, b, minGap);
    while ia < |a| || ib < |b|
      invariant 0 <= ia <= |a| && 0 <= ib <= |b|
      invariant IsClosure(Pending(output, last), Elems(a[..ia]) + Elems(b[..ib]), minGap)
      invariant last.None? ==> output == []
      invariant Upcoming(Elems(a[..ia]) + Elems(b[..ib]), a, ia)
      invariant Upcoming(Elems(a[..ia]) + Elems(b[..ib]), b, ib)
      decreases |a| - ia + |b| - ib
    {
      ghost var s := Elems(a[..ia]) + Elems(b[..ib]);
      TakenSoFar(a, ia, b, ib, minGap);
      var nxt;
      if ia < |a| && (ib >= |b| || a[ia].lo <= b[ib].lo) {
        TakeNext(s, a, ia, b, ib, minGap);
        nxt := a[ia];
        ia := ia + 1;
      } else {
        TakeNext(s, b, ib, a, ia, minGap);
        nxt := b[ib];
        ib := ib + 1;
      }
      AbsorbClosure(Pending(output, last), s, minGap, nxt);
      assert Elems(a[..ia]) + Elems(b[..ib]) == s + {nxt};
      output, last := Extend(output, last, nxt, minGap);
    }
    output := Pending(output, last);
    assert a[..|a|] == a && b[..|b|] == b;
    TakenSoFar(a, |a|, b, |b|, minGap);
    ClosureUnique(output, Elems(a) + Elems(b), minGap);
    UnionIs(a, b, minGap);
  }

  /** What the merged list covers, and where its endpoints come from. */
  lemma UnionMeaning(a: seq<Interval>, b: seq<Interval>, minGap: nat)
    requires Separated(a, minGap) && Separated(b, minGap)
    ensures var r := Union(a, b, minGap);
      && Separated(r, Max(minGap, 1))
      && (forall x :: Covers(r, x) <==> Covers(a, x) || Covers(b, x) || InGap(Elems(a) + Elems(b), minGap, x))
      && EndsFrom(r, Elems(a) + Elems(b))
  {
    var r, s := Union(a, b, minGap), Elems(a) + Elems(b);
    ClosureIs(s, minGap);
    forall x ensures Covers(r, x) <==> Covers(a, x) || Covers(b, x) || InGap(s, minGap, x) {
      ElemOf(a, x);
      ElemOf(b, x);
    }
  }

  lemma UnionKeepsAlignment(a: seq<Interval>, b: seq<Interval>, minGap: nat, alignBits: nat)
    requires Separated(a, minGap) && Separated(b, minGap)
    requires forall i :: 0 <= i < |a| ==> Aligned(a[i], alignBits)
    requires forall i :: 0 <= i < |b| ==> Aligned(b[i], alignBits)
    ensures forall i :: 0 <= i < |Union(a, b, minGap)| ==> Aligned(Union(a, b, minGap)[i], alignBits)
  {
    UnionMeaning(a, b, minGap);
  }

  lemma UnionCommutes(a: seq<Interval>, b: seq<Interval>, minGap: nat)
    ensures Union(a, b, minGap) == Union(b, a, minGap)
  {
    assert Elems(a) + Elems(b) == Elems(b) + Elems(a);
  }

  lemma UnionAssociates(a: seq<Interval>, b: seq<Interval>, c: seq<Interval>, minGap: nat)
    requires Separated(a, minGap) && Separated(b, minGap) && Separated(c, minGap)
    ensures Union(Union(a, b, minGap), c, minGap) == Union(a, Union(b, c, minGap), minGap)
  {
    var x, y, z := Elems(a), Elems(b), Elems(c);
    ClosureIs(x + y, minGap);
    ClosureOfPart(Union(a, b, minGap), x + y, z, minGap);
    ClosureIs(y + z, minGap);
    ClosureOfPart(Union(b, c, minGap), y + z, x, minGap);
    assert x + y + z == y + z + x;
    UnionCommutes(a, Union(b, c, minGap), minGap);
  }

  /** Damage already recorded adds nothing, unless intervals touch, which only `minGap == 0` lets them. */
  lemma UnionIdempotent(a: seq<Interval>, minGap: nat)
    requires Separated(a, minGap)
    ensures Union(a, a, minGap) == a <==> Separated(a, 1)
    ensures Union(a, [], minGap) == a <==> Separated(a, 1)
  {
    hide *;
    UnionSelf(a, minGap);
    UnionMeaning(a, a, minGap);
    CloserToo(a, minGap);
    CloserToo(Union(a, a, minGap), minGap);
    if Separated(a, 1) {
      SeparatedIsClosure(a, minGap);
      ClosureUnique(a, Elems(a), minGap);
    }
  }

  lemma UnionSelf(a: seq<Interval>, minGap: nat)
    ensures Union(a, a, minGap) == Union(a, [], minGap) == Closure(Elems(a), minGap)
  {
    hide *;
    UnionIs(a, a, minGap);
    UnionIs(a, [], minGap);
    NoElems();
    assert Elems(a) + Elems(a) == Elems(a) && Elems(a) + {} == Elems(a);
  }

  lemma CloserToo(a: seq<Interval>, minGap: nat)
    ensures Separated(a, Max(minGap, 1)) <==> Separated(a, minGap) && Separated(a, 1)
  {
  }

  /** Two touching intervals are a valid list for `minGap == 0`, and become one. */
  lemma TouchingAreJoined()
    ensures var a := [Interval(0, 1), Interval(1, 2)];
      Separated(a, 0) && Union(a, a, 0) != a
  {
    var a := [Interval(0, 1), Interval(1, 2)];
    assert Separated(a, 0) && !(a[0].hi + 1 <= a[1].lo);
    UnionIdempotent(a, 0);
  }
}

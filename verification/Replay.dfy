/** Positioned writes: what a diff does to a copy of a buffer, independent of how it is encoded. */
module Replay {

  /** `data` is to be stored from position `at` onwards. */
  datatype Record<T> = Record(at: nat, data: seq<T>) {
    predicate Covers(k: nat) { at <= k < at + |data| }
  }

  function Writes<T>(r: Record<T>): map<nat, T> {
    map k: nat | r.at <= k < r.at + |r.data| && r.Covers(k) :: r.data[k - r.at]
  }

  /** The net effect of a list of records; later records win. */
  function Effect<T>(rs: seq<Record<T>>): map<nat, T> {
    if rs == [] then map[] else Effect(rs[..|rs| - 1]) + Writes(rs[|rs| - 1])
  }

  /** `mem` holds positions `base..base+|mem|`; replace those that `m` mentions. */
  function Override<T>(mem: seq<T>, base: nat, m: map<nat, T>): (r: seq<T>)
    ensures |r| == |mem|
    ensures forall i {:trigger r[i]} :: 0 <= i < |mem| ==> r[i] == if base + i in m then m[base + i] else mem[i]
  {
    seq(|mem|, i requires 0 <= i < |mem| => if base + i in m then m[base + i] else mem[i])
  }

  /** Every position `m` mentions lies in `lo..hi`. */
  ghost predicate Within<T>(m: map<nat, T>, lo: nat, hi: nat) {
    forall k :: k in m ==> lo <= k < hi
  }

  /**
   * The records turn `was` into `now` on the first `upto` elements (positions
   * `base..base+upto`): they are ascending and disjoint, each carries the new
   * contents, and whatever lies between them did not change.
   */
  ghost predicate Explains<T>(rs: seq<Record<T>>, was: seq<T>, now: seq<T>, base: nat, upto: nat)
    requires upto <= |was| == |now|
    decreases |rs|
  {
    if rs == [] then was[..upto] == now[..upto]
    else
      var r := rs[|rs| - 1];
      var lo, hi := r.at - base, r.at - base + |r.data|;
      && 0 <= lo < hi <= upto
      && r.data == now[lo..hi]
      && was[hi..upto] == now[hi..upto]
      && Explains(rs[..|rs| - 1], was, now, base, lo)
  }

  /** More than `gap` elements lie between one record and the next. */
  ghost predicate Spread<T>(rs: seq<Record<T>>, gap: nat) {
    forall i :: 0 < i < |rs| ==> rs[i - 1].at + |rs[i - 1].data| + gap < rs[i].at
  }

  /** A record that starts at `next` or later would keep the distance. */
  ghost predicate Clear<T>(rs: seq<Record<T>>, gap: nat, next: int) {
    rs != [] ==> rs[|rs| - 1].at + |rs[|rs| - 1].data| + gap < next
  }

  lemma SpreadMore<T>(rs: seq<Record<T>>, r: Record<T>, gap: nat)
    requires Spread(rs, gap) && Clear(rs, gap, r.at)
    ensures Spread(rs + [r], gap)
  {
  }

  /** No record carries only what was there already. */
  ghost predicate Needed<T>(rs: seq<Record<T>>, was: seq<T>, base: nat) {
    forall i :: 0 <= i < |rs| ==> Differs(rs[i], was, base)
  }

  ghost predicate Differs<T>(r: Record<T>, was: seq<T>, base: nat) {
    var lo := r.at - base;
    0 <= lo && lo + |r.data| <= |was| && r.data != was[lo..lo + |r.data|]
  }

  /** Records that are all needed are none exactly when nothing changed. */
  lemma NoneIfUnchanged<T>(rs: seq<Record<T>>, was: seq<T>, now: seq<T>, base: nat)
    requires |was| == |now| && Explains(rs, was, now, base, |was|) && Needed(rs, was, base)
    ensures rs == [] <==> was == now
  {
    if rs == [] {
      assert was[..|was|] == was && now[..|was|] == now;
    } else {
      assert Differs(rs[|rs| - 1], was, base);
    }
  }

  lemma NeededMore<T>(rs: seq<Record<T>>, r: Record<T>, was: seq<T>, base: nat)
    requires Needed(rs, was, base) && Differs(r, was, base)
    ensures Needed(rs + [r], was, base)
  {
  }

  /** Reading through `m` turns `was` into `now` on positions `base..base+upto`, and `m` stays there. */
  ghost predicate Yields<T(!new)>(m: map<nat, T>, was: seq<T>, now: seq<T>, base: nat, upto: nat)
    requires upto <= |was| == |now|
  {
    && Within(m, base, base + upto)
    && forall i {:trigger now[i]} :: 0 <= i < upto ==> now[i] == if base + i in m then m[base + i] else was[i]
  }

  lemma YieldsMore<T(!new)>(m: map<nat, T>, r: Record<T>, was: seq<T>, now: seq<T>, base: nat, lo: nat, hi: nat,
                            upto: nat)
    requires lo < hi <= upto <= |was| == |now|
    requires Yields(m, was, now, base, lo)
    requires r == Record(base + lo, now[lo..hi])
    requires was[hi..upto] == now[hi..upto]
    ensures Yields(m + Writes(r), was, now, base, upto)
  {
    var m' := m + Writes(r);
    forall i {:trigger now[i]} | 0 <= i < upto ensures now[i] == if base + i in m' then m'[base + i] else was[i] {
      if hi <= i {
        assert was[hi..upto][i - hi] == now[hi..upto][i - hi];
        assert base + i !in Writes(r);
      } else if lo <= i {
        assert base + i in Writes(r);
      } else {
        assert base + i !in Writes(r);
      }
    }
  }

  lemma {:induction false} ExplainsEffect<T(!new)>(rs: seq<Record<T>>, was: seq<T>, now: seq<T>, base: nat, upto: nat)
    requires upto <= |was| == |now|
    requires Explains(rs, was, now, base, upto)
    ensures Yields(Effect(rs), was, now, base, upto)
    decreases |rs|
  {
    if rs == [] {
      forall i {:trigger now[i]} | 0 <= i < upto ensures now[i] == was[i] {
        assert was[..upto][i] == now[..upto][i];
      }
    } else {
      var r := rs[|rs| - 1];
      ExplainsEffect(rs[..|rs| - 1], was, now, base, r.at - base);
      YieldsMore(Effect(rs[..|rs| - 1]), r, was, now, base, r.at - base, r.at - base + |r.data|, upto);
    }
  }

  /** One more record, after a stretch that did not change. */
  lemma ExplainsMore<T>(rs: seq<Record<T>>, r: Record<T>, was: seq<T>, now: seq<T>, base: nat, lo: nat, hi: nat,
                        upto: nat)
    requires lo < hi <= upto <= |was| == |now|
    requires Explains(rs, was, now, base, lo)
    requires r == Record(base + lo, now[lo..hi])
    requires was[hi..upto] == now[hi..upto]
    ensures Explains(rs + [r], was, now, base, upto)
  {
    assert (rs + [r])[..|rs|] == rs;
  }

  /** An unchanged stretch needs no record. */
  lemma ExplainsUnchanged<T>(rs: seq<Record<T>>, was: seq<T>, now: seq<T>, base: nat, mid: nat, upto: nat)
    requires mid <= upto <= |was| == |now|
    requires Explains(rs, was, now, base, mid)
    requires was[mid..upto] == now[mid..upto]
    ensures Explains(rs, was, now, base, upto)
  {
    if rs == [] {
      assert was[..upto] == was[..mid] + was[mid..upto];
      assert now[..upto] == now[..mid] + now[mid..upto];
    } else {
      var r := rs[|rs| - 1];
      var hi := r.at - base + |r.data|;
      assert was[hi..upto] == was[hi..mid] + was[mid..upto];
      assert now[hi..upto] == now[hi..mid] + now[mid..upto];
    }
  }

  lemma {:induction false} EffectHas<T>(rs: seq<Record<T>>, i: nat, x: nat)
    requires i < |rs| && rs[i].Covers(x)
    ensures x in Effect(rs)
    decreases |rs|
  {
    if i < |rs| - 1 { EffectHas(rs[..|rs| - 1], i, x); } else { assert x in Writes(rs[i]); }
  }

  lemma EffectMore<T>(done: seq<Record<T>>, r: Record<T>)
    ensures Effect(done + [r]) == Effect(done) + Writes(r)
  {
    assert (done + [r])[..|done|] == done;
  }

  lemma Associate<T>(a: seq<T>, b: seq<T>, c: seq<T>)
    ensures a + (b + c) == a + b + c
  {
  }

  lemma Layered<T>(a: map<nat, T>, b: map<nat, T>, c: map<nat, T>)
    ensures a + b + c == a + (b + c)
  {
  }

  lemma {:induction false} EffectConcat<T>(a: seq<Record<T>>, b: seq<Record<T>>)
    ensures Effect(a + b) == Effect(a) + Effect(b)
    decreases |b|
  {
    if b == [] {
      assert a + b == a;
    } else {
      var r, init := b[|b| - 1], b[..|b| - 1];
      hide Effect, Writes;
      assert b == init + [r];
      Associate(a, init, [r]);
      EffectConcat(a, init);
      EffectMore(init, r);
      EffectMore(a + init, r);
      Layered(Effect(a), Effect(init), Writes(r));
    }
  }

  lemma OverrideTwice<T>(mem: seq<T>, base: nat, a: map<nat, T>, b: map<nat, T>)
    ensures Override(Override(mem, base, a), base, b) == Override(mem, base, a + b)
  {
  }

  /** Working on a slice of a buffer is working on the buffer. */
  lemma OverrideSlice<T>(mem: seq<T>, base: nat, m: map<nat, T>, lo: nat, hi: nat)
    requires lo <= hi <= |mem|
    requires Within(m, base + lo, base + hi)
    ensures Override(mem, base, m) == mem[..lo] + Override(mem[lo..hi], base + lo, m) + mem[hi..]
  {
    var whole, part := Override(mem, base, m), Override(mem[lo..hi], base + lo, m);
    var glued := mem[..lo] + part + mem[hi..];
    forall i | 0 <= i < |mem| ensures whole[i] == glued[i] {
      if lo <= i < hi { assert glued[i] == part[i - lo]; }
    }
  }
}

/** Worker tasks that diff a shared-memory buffer against its mirror. */
module DiffTask {
  import opened Bytes
  import opened Replay
  import opened DiffFormat
  import opened DiffKernel
  import opened Intervals
  import opened Sharding

  // ---- Diffing several intervals ----

  /** `l` lists nonempty chunk-aligned intervals inside `lo..hi`. */
  predicate Diffable(l: seq<Interval>, lo: nat, hi: nat) {
    OnChunks(l) && forall i :: 0 <= i < |l| ==> lo <= l[i].lo < l[i].hi <= hi
  }

  /** The most a diff of these intervals can take: one header for each and every byte. */
  function Space(l: seq<Interval>): int {
    TotalLen(l) + 8 * |l|
  }

  lemma SpaceMore(l: seq<Interval>, k: nat)
    requires k < |l|
    ensures Space(l[..k + 1]) == Space(l[..k]) + 8 + (l[k].hi - l[k].lo)
  {
    assert l[..k + 1][..k] == l[..k];
  }

  lemma {:induction false} SpacePrefix(l: seq<Interval>, k: nat)
    requires k <= |l| && forall i :: 0 <= i < |l| ==> l[i].lo <= l[i].hi
    ensures Space(l[..k]) <= Space(l)
    decreases |l| - k
  {
    if k < |l| {
      SpaceMore(l, k);
      SpacePrefix(l, k + 1);
    } else {
      assert l[..k] == l;
    }
  }

  /** The records bring `was` to `now`, which has the new contents on the intervals and nothing else new. */
  ghost predicate Diffed(rs: seq<ByteRecord>, was: seq<Byte>, now: seq<Byte>, target: seq<Byte>, l: seq<Interval>) {
    && now == Override(was, 0, Effect(rs))
    && (forall x :: 0 <= x < |now| && x < |target| && Covers(l, x) ==> now[x] == target[x])
    && (forall x :: x in Effect(rs) ==> Covers(l, x) && x < |target| && Effect(rs)[x] == target[x])
    && (Same(was, target, l) ==> rs == [])
  }

  /** Nothing changed on the intervals. */
  ghost predicate Same(was: seq<Byte>, target: seq<Byte>, l: seq<Interval>) {
    forall x :: 0 <= x < |was| && x < |target| && Covers(l, x) ==> was[x] == target[x]
  }

  lemma DiffedNothing(was: seq<Byte>, target: seq<Byte>)
    ensures Diffed([], was, was, target, [])
  {
    assert Override(was, 0, map[]) == was;
  }

  /** One interval's worth of records overrides exactly that interval. */
  lemma SegmentOverrides(rs: seq<ByteRecord>, m: seq<Byte>, target: seq<Byte>, lo: nat, hi: nat)
    requires lo <= hi <= |m| && hi <= |target|
    requires Explains(rs, m[lo..hi], target[lo..hi], lo, hi - lo)
    ensures Patched(m, lo, target[lo..hi]) == Override(m, 0, Effect(rs))
    ensures forall x :: x in Effect(rs) ==> lo <= x < hi && Effect(rs)[x] == target[x]
  {
    ExplainsEffect(rs, m[lo..hi], target[lo..hi], lo, hi - lo);
    var now, over := Patched(m, lo, target[lo..hi]), Override(m, 0, Effect(rs));
    hide Explains, Effect, Patched, Yields;
    forall x | x in Effect(rs) ensures lo <= x < hi && Effect(rs)[x] == target[x] {
      YieldsAt(Effect(rs), m, target, lo, hi, x);
    }
    forall i | 0 <= i < |m| ensures i < |now| == |m| && now[i] == over[i] {
      PatchedAt(m, target, lo, hi, i);
      YieldsAt(Effect(rs), m, target, lo, hi, i);
      assert 0 + i == i;
    }
    PatchedLength(m, target, lo, hi);
  }

  /** What reading through `e` gives, position by position. */
  lemma YieldsAt(e: map<nat, Byte>, m: seq<Byte>, target: seq<Byte>, lo: nat, hi: nat, x: nat)
    requires lo <= hi <= |m| && hi <= |target| && Yields(e, m[lo..hi], target[lo..hi], lo, hi - lo)
    ensures x in e ==> lo <= x < hi && e[x] == target[x]
    ensures lo <= x < hi && x !in e ==> target[x] == m[x]
  {
    if lo <= x < hi {
      assert target[lo..hi][x - lo] == target[x] && m[lo..hi][x - lo] == m[x] && lo + (x - lo) == x;
    }
  }

  lemma PatchedLength(m: seq<Byte>, target: seq<Byte>, lo: nat, hi: nat)
    requires lo <= hi <= |m| && hi <= |target|
    ensures |Patched(m, lo, target[lo..hi])| == |m|
  {
  }

  lemma PatchedAt(m: seq<Byte>, target: seq<Byte>, lo: nat, hi: nat, x: nat)
    requires lo <= hi <= |m| && hi <= |target| && x < |m|
    ensures var now := Patched(m, lo, target[lo..hi]);
      |now| == |m| && now[x] == if lo <= x < hi then target[x] else m[x]
  {
  }

  lemma StillNothing(rs: seq<ByteRecord>, more: seq<ByteRecord>, was: seq<Byte>, m: seq<Byte>, target: seq<Byte>,
                     l: seq<Interval>, n: Interval)
    requires Diffed(rs, was, m, target, l) && Same(was, target, l + [n]) && n.lo <= n.hi <= |m| && n.hi <= |target|
    requires Explains(more, m[n.lo..n.hi], target[n.lo..n.hi], n.lo, n.hi - n.lo) && Needed(more, m[n.lo..n.hi], n.lo)
    ensures rs + more == []
  {
    hide Explains, Needed;
    SameParts(was, target, l, n);
    DiffedNothing(was, target);
    assert m == was;
    assert m[n.lo..n.hi] == target[n.lo..n.hi];
    NoneIfUnchanged(more, m[n.lo..n.hi], target[n.lo..n.hi], n.lo);
  }

  lemma SameParts(was: seq<Byte>, target: seq<Byte>, l: seq<Interval>, n: Interval)
    requires Same(was, target, l + [n])
    ensures Same(was, target, l) && forall x :: 0 <= x < |was| && x < |target| && n.Has(x) ==> was[x] == target[x]
  {
    forall x ensures Covers(l + [n], x) <==> Covers(l, x) || n.Has(x) { CoversAppend(l, n, x); }
  }

  lemma DiffedMore(rs: seq<ByteRecord>, more: seq<ByteRecord>, was: seq<Byte>, m: seq<Byte>, target: seq<Byte>,
                   l: seq<Interval>, n: Interval)
    requires Diffed(rs, was, m, target, l) && n.lo <= n.hi <= |m| && n.hi <= |target|
    requires Explains(more, m[n.lo..n.hi], target[n.lo..n.hi], n.lo, n.hi - n.lo) && Needed(more, m[n.lo..n.hi], n.lo)
    ensures Diffed(rs + more, was, Patched(m, n.lo, target[n.lo..n.hi]), target, l + [n])
  {
    hide Explains, Effect, Override, Covers, Patched, Needed, Same;
    SegmentOverrides(more, m, target, n.lo, n.hi);
    EffectConcat(rs, more);
    OverrideTwice(was, 0, Effect(rs), Effect(more));
    if Same(was, target, l + [n]) { StillNothing(rs, more, was, m, target, l, n); }
    forall x ensures Covers(l + [n], x) <==> Covers(l, x) || n.Has(x) { CoversAppend(l, n, x); }
    forall x | 0 <= x < |m| ensures x < |Patched(m, n.lo, target[n.lo..n.hi])| == |m|
      && Patched(m, n.lo, target[n.lo..n.hi])[x] == if n.Has(x) then target[x] else m[x]
    {
      PatchedAt(m, target, n.lo, n.hi, x);
    }
  }

  /** The record is one that the kernel makes for the interval, with a gap of one line. */
  ghost predicate MadeFor(r: ByteRecord, k: LineRule, was: seq<Byte>, target: seq<Byte>, n: Interval) {
    && n.lo <= n.hi <= |was| && n.hi <= |target|
    && Tight(r, k, was[n.lo..n.hi], target[n.lo..n.hi], n.lo, 16)
  }

  /** Every record is one that the kernel makes for one of the intervals. */
  ghost predicate AllMade(rs: seq<ByteRecord>, k: LineRule, was: seq<Byte>, target: seq<Byte>, l: seq<Interval>) {
    forall r :: r in rs ==> exists n :: n in l && MadeFor(r, k, was, target, n)
  }

  lemma MadeMore(rs: seq<ByteRecord>, more: seq<ByteRecord>, k: LineRule, was: seq<Byte>, target: seq<Byte>,
                 l: seq<Interval>, n: Interval)
    requires AllMade(rs, k, was, target, l) && n.lo <= n.hi <= |was| && n.hi <= |target|
    requires AllTight(more, k, was[n.lo..n.hi], target[n.lo..n.hi], n.lo, 16)
    ensures AllMade(rs + more, k, was, target, l + [n])
  {
    hide Tight;
    forall r | r in rs + more ensures exists n' :: n' in l + [n] && MadeFor(r, k, was, target, n') {
      if r in rs {
        var n' :| n' in l && MadeFor(r, k, was, target, n');
        assert n' in l + [n];
      } else {
        var i :| 0 <= i < |more| && more[i] == r;
        assert MadeFor(r, k, was, target, n);
        assert n in l + [n];
      }
    }
  }

  predicate Ascending(l: seq<Interval>) {
    forall i, j :: 0 <= i < j < |l| ==> l[i].hi <= l[j].lo
  }

  /** An interval that comes after all those diffed still has its old contents. */
  lemma NotYetDiffed(rs: seq<ByteRecord>, was: seq<Byte>, now: seq<Byte>, target: seq<Byte>, l: seq<Interval>, i: nat)
    requires i < |l| && Diffed(rs, was, now, target, l[..i]) && Ascending(l) && l[i].lo <= l[i].hi <= |was|
    ensures |now| == |was| && now[l[i].lo..l[i].hi] == was[l[i].lo..l[i].hi]
  {
    hide Effect;
    forall x | l[i].lo <= x < l[i].hi ensures !Covers(l[..i], x) && x !in Effect(rs) {
      assert forall j :: 0 <= j < i ==> l[..i][j] == l[j] && l[j].hi <= l[i].lo;
    }
    assert |now| == |was|;
    forall x | l[i].lo <= x < l[i].hi ensures now[x] == was[x] {
      assert 0 + x == x;
    }
  }

  /** Diff a list of intervals; the diffs of all of them are written one after the other. */
  method ConstructDiff(diff: array<Byte>, target: seq<Byte>, intervals: seq<Interval>, mirror: array<Byte>, base: nat,
                       k: LineRule)
    returns (len: nat, ghost rs: seq<ByteRecord>)
    requires Sound(k) && diff != mirror
    requires Diffable(intervals, base, |target|) && |target| <= mirror.Length && |target| < U32_LIMIT
    requires Space(intervals) <= diff.Length
    modifies diff, mirror
    ensures len <= Space(intervals)
    ensures AllEncodable(rs) && len <= diff.Length && diff[..][..len] == Encode(rs)
    ensures Diffed(rs, old(mirror[..]), mirror[..], target, intervals)
    ensures Ascending(intervals) ==> AllMade(rs, k, old(mirror[..]), target, intervals)
  {
    hide Sound, Diffed, Encode, AllEncodable, Space, Explains, Patched, Diffable, TotalLen, AllMade, AllTight,
      AllCompact, Ascending;
    ghost var was := mirror[..];
    len, rs := 0, [];
    DiffedNothing(was, target);
    DecodeNothing();
    assert intervals[..0] == [];
    SpaceNothing();
    DiffableAll(intervals, base, |target|);
    SpacePrefix(intervals, 0);
    NothingMade(k, was, target);
    for i := 0 to |intervals|
      invariant len <= Space(intervals[..i]) <= Space(intervals)
      invariant AllEncodable(rs) && len <= diff.Length && diff[..][..len] == Encode(rs)
      invariant Diffed(rs, was, mirror[..], target, intervals[..i])
      invariant Ascending(intervals) ==> AllMade(rs, k, was, target, intervals[..i])
    {
      var n := intervals[i];
      DiffableAt(intervals, base, |target|, i);
      SpaceMore(intervals, i);
      SpacePrefix(intervals, i + 1);
      ghost var m := mirror[..];
      ghost var diff0 := diff[..];
      var more, rs' := ConstructSegment(diff, len, target[n.lo..n.hi], mirror, n.lo, n.lo, 16, k);
      DiffedMore(rs, rs', was, m, target, intervals[..i], n);
      if Ascending(intervals) {
        NotYetDiffed(rs, was, m, target, intervals, i);
        MadeMore(rs, rs', k, was, target, intervals[..i], n);
      }
      assert intervals[..i] + [n] == intervals[..i + 1];
      EncodeConcat(rs, rs');
      PrefixSplit(diff[..], len, more);
      rs := rs + rs';
      len := len + more;
    }
    assert intervals[..|intervals|] == intervals;
  }

  lemma NothingMade(k: LineRule, was: seq<Byte>, target: seq<Byte>)
    ensures AllMade([], k, was, target, [])
  {
  }

  lemma DiffableAt(l: seq<Interval>, lo: nat, hi: nat, i: nat)
    requires Diffable(l, lo, hi) && i < |l|
    ensures lo <= l[i].lo < l[i].hi <= hi && l[i].lo % 4 == 0 && (l[i].hi - l[i].lo) % 64 == 0
  {
    var n := l[i];
    assert n.lo % 64 == 0 && n.hi % 64 == 0;
    hide Diffable, OnChunks;
    ChunkWords(n.lo);
    Multiples(0, n.hi, n.lo);
  }

  lemma ChunkWords(x: nat)
    requires x % 64 == 0
    ensures x % 4 == 0
  {
    Words(16 * (x / 64));
    assert x == 4 * (16 * (x / 64));
  }

  lemma PrefixSplit(s: seq<Byte>, a: nat, b: nat)
    requires a + b <= |s|
    ensures s[..a + b] == s[..a] + s[a..a + b]
  {
  }

  lemma DiffableAll(l: seq<Interval>, lo: nat, hi: nat)
    requires Diffable(l, lo, hi)
    ensures forall i :: 0 <= i < |l| ==> l[i].lo < l[i].hi
  {
  }

  lemma SpaceNothing()
    ensures Space([]) == 0
  {
  }

  // ---- One task ----

  /** Diff `intervals`, which lie in `region`, and `trailing` bytes at the end of the buffer. */
  datatype DiffTask = DiffTask(region: Option<Interval>, intervals: seq<Interval>, trailing: nat)

  /** How tasks are made: chunk-aligned intervals in order, their span as region, the incomplete last chunk as tail. */
  predicate WellFormed(t: DiffTask, bufLen: nat) {
    && Separated(t.intervals, 0) && Diffable(t.intervals, 0, bufLen)
    && t.region == (if t.intervals == [] then None
                    else Some(Interval(t.intervals[0].lo, t.intervals[|t.intervals| - 1].hi)))
    && (t.trailing == 0 || t.trailing == bufLen % 64)
  }

  function Tail(target: seq<Byte>, n: nat): (t: seq<Byte>)
    requires n <= |target|
    ensures |t| == n
  {
    target[|target| - n..]
  }

  /** The bytes a task looks at. */
  predicate Examines(t: DiffTask, bufLen: nat, x: int) {
    Covers(t.intervals, x) || bufLen - t.trailing <= x < bufLen
  }

  /** What running a task on a snapshot of the buffer does to the mirror, and what it reports. */
  ghost predicate TaskDone(t: DiffTask, target: seq<Byte>, was: seq<Byte>, now: seq<Byte>, rs: seq<ByteRecord>,
                           ntrailing: nat) {
    && ntrailing <= |target| == |was| == |now|
    && now == Override(was, 0, FullEffect(rs, Tail(target, ntrailing), |target|))
    && (forall x :: 0 <= x < |now| && Examines(t, |target|, x) ==> now[x] == target[x])
    && (forall x :: x in FullEffect(rs, Tail(target, ntrailing), |target|) ==> x < |target| && Examines(t, |target|, x))
    && (forall x :: 0 <= x < |now| ==> now[x] == was[x] || now[x] == target[x])
    && (forall x :: x in Effect(rs) ==> Covers(t.intervals, x))
    && (Unchanged(t, target, was) ==> rs == [] && ntrailing == 0)
  }

  /** Nothing that the task examines changed. */
  ghost predicate Unchanged(t: DiffTask, target: seq<Byte>, was: seq<Byte>) {
    forall x :: 0 <= x < |was| && x < |target| && Examines(t, |target|, x) ==> was[x] == target[x]
  }

  /** A task reports nothing exactly when nothing it examines changed. */
  lemma NullIffUnchanged(t: DiffTask, target: seq<Byte>, was: seq<Byte>, now: seq<Byte>, rs: seq<ByteRecord>,
                         ntrailing: nat)
    requires TaskDone(t, target, was, now, rs, ntrailing)
    ensures rs == [] && ntrailing == 0 <==> Unchanged(t, target, was)
  {
    if rs == [] && ntrailing == 0 {
      NoTailOverrides(was, target);
      assert FullEffect(rs, Tail(target, 0), |target|) == Writes(Record(|target|, Tail(target, 0)));
      assert now == was;
    }
  }

  /** Copy the end of the buffer out and onto the mirror, noting whether it changed. */
  method CopyTailIfDiff(dst: array<Byte>, at: nat, target: seq<Byte>, n: nat, mirror: array<Byte>)
    returns (changed: bool)
    requires n <= |target| == mirror.Length && at + n <= dst.Length && dst != mirror
    modifies dst, mirror
    ensures dst[..] == Patched(old(dst[..]), at, Tail(target, n))
    ensures mirror[..] == Patched(old(mirror[..]), |target| - n, Tail(target, n))
    ensures changed <==> Tail(old(mirror[..]), n) != Tail(target, n)
  {
    ghost var dst0, m0 := dst[..], mirror[..];
    var start := |target| - n;
    changed := false;
    for i := 0 to n
      invariant forall j :: 0 <= j < dst.Length ==>
        dst[j] == if at <= j < at + i then target[start + j - at] else dst0[j]
      invariant forall j :: 0 <= j < mirror.Length ==> mirror[j] == if start <= j < start + i then target[j] else m0[j]
      invariant changed <==> exists j :: start <= j < start + i && m0[j] != target[j]
    {
      dst[at + i] := target[start + i];
      if dst[at + i] != mirror[start + i] {
        changed := true;
      }
      mirror[start + i] := dst[at + i];
    }
    TailDiffers(m0, target, n);
  }

  lemma TailDiffers(a: seq<Byte>, b: seq<Byte>, n: nat)
    requires n <= |a| == |b|
    ensures Tail(a, n) != Tail(b, n) <==> exists j :: |a| - n <= j < |a| && a[j] != b[j]
  {
    if j :| |a| - n <= j < |a| && a[j] != b[j] {
      assert Tail(a, n)[j - (|a| - n)] == a[j] && Tail(b, n)[j - (|a| - n)] == b[j];
    }
    if Tail(a, n) != Tail(b, n) {
      var i :| 0 <= i < n && Tail(a, n)[i] != Tail(b, n)[i];
      assert a[|a| - n + i] != b[|a| - n + i];
    }
  }

  lemma TailOverrides(m: seq<Byte>, target: seq<Byte>, n: nat)
    requires n <= |target| == |m|
    ensures Patched(m, |target| - n, Tail(target, n)) == Override(m, 0, Writes(Record(|target| - n, Tail(target, n))))
    ensures Tail(m, n) == Tail(target, n) ==> Patched(m, |target| - n, Tail(target, n)) == m
  {
  }

  lemma NoTailOverrides(m: seq<Byte>, target: seq<Byte>)
    ensures Override(m, 0, Writes(Record(|target|, Tail(target, 0)))) == m
  {
    assert Writes(Record(|target|, Tail(target, 0))) == map[];
  }

  lemma TaskEffect(t: DiffTask, target: seq<Byte>, was: seq<Byte>, mid: seq<Byte>, now: seq<Byte>,
                   rs: seq<ByteRecord>, ntrailing: nat)
    requires |was| == |mid| == |target| && t.trailing <= |target|
    requires Diffed(rs, was, mid, target, t.intervals)
    requires now == Patched(mid, |target| - t.trailing, Tail(target, t.trailing))
    requires ntrailing == if Tail(mid, t.trailing) != Tail(target, t.trailing) then t.trailing else 0
    ensures now == Override(was, 0, FullEffect(rs, Tail(target, ntrailing), |target|))
  {
    hide Effect, Override, Patched, Writes, Covers;
    var w := Writes(Record(|target| - ntrailing, Tail(target, ntrailing)));
    TailOverrides(mid, target, t.trailing);
    NoTailOverrides(mid, target);
    assert now == Override(mid, 0, w);
    OverrideTwice(was, 0, Effect(rs), w);
  }

  lemma TaskTouches(t: DiffTask, target: seq<Byte>, was: seq<Byte>, mid: seq<Byte>, rs: seq<ByteRecord>,
                    ntrailing: nat, x: nat)
    requires |was| == |mid| == |target| && t.trailing <= |target| && ntrailing <= t.trailing
    requires Diffed(rs, was, mid, target, t.intervals)
    requires x in FullEffect(rs, Tail(target, ntrailing), |target|)
    ensures x < |target| && Examines(t, |target|, x) &&
      FullEffect(rs, Tail(target, ntrailing), |target|)[x] == target[x]
  {
    TailWrites(target, ntrailing);
    if x in Effect(rs) { DiffedAt(rs, was, mid, target, t.intervals, x); }
    hide Effect, Writes, Diffed, Covers, Override;
  }

  lemma DiffedAt(rs: seq<ByteRecord>, was: seq<Byte>, now: seq<Byte>, target: seq<Byte>, l: seq<Interval>, x: nat)
    requires Diffed(rs, was, now, target, l) && x in Effect(rs)
    ensures Covers(l, x) && x < |target| && Effect(rs)[x] == target[x]
  {
    hide Effect, Covers, Override;
  }

  lemma TaskAgrees(t: DiffTask, target: seq<Byte>, was: seq<Byte>, mid: seq<Byte>, now: seq<Byte>,
                   rs: seq<ByteRecord>, x: nat)
    requires |was| == |mid| == |target| && t.trailing <= |target|
    requires Diffed(rs, was, mid, target, t.intervals)
    requires now == Patched(mid, |target| - t.trailing, Tail(target, t.trailing))
    requires x < |now| && Examines(t, |target|, x)
    ensures now[x] == target[x]
  {
    hide Effect, Override;
    if |target| - t.trailing <= x {
      assert now[x] == Tail(target, t.trailing)[x - (|target| - t.trailing)];
    } else {
      assert now[x] == mid[x];
    }
  }

  lemma RecordsExamined(t: DiffTask, target: seq<Byte>, was: seq<Byte>, mid: seq<Byte>, rs: seq<ByteRecord>)
    requires Diffed(rs, was, mid, target, t.intervals)
    ensures forall x :: x in Effect(rs) ==> Covers(t.intervals, x)
  {
    hide Effect, Covers;
  }

  lemma TaskUnchanged(t: DiffTask, target: seq<Byte>, was: seq<Byte>, mid: seq<Byte>, rs: seq<ByteRecord>,
                      ntrailing: nat)
    requires |was| == |mid| == |target| && t.trailing <= |target| && Unchanged(t, target, was)
    requires Diffed(rs, was, mid, target, t.intervals)
    requires ntrailing == if Tail(mid, t.trailing) != Tail(target, t.trailing) then t.trailing else 0
    ensures rs == [] && ntrailing == 0
  {
    hide Covers;
    assert Same(was, target, t.intervals);
    DiffedNothing(was, target);
    assert mid == was;
    assert forall x :: |target| - t.trailing <= x < |target| ==> was[x] == target[x];
    assert Tail(mid, t.trailing) == Tail(target, t.trailing);
  }

  /** From the diff of the intervals and the copy of the tail to the whole task. */
  lemma TaskAssembles(t: DiffTask, target: seq<Byte>, was: seq<Byte>, mid: seq<Byte>, now: seq<Byte>,
                      rs: seq<ByteRecord>, ntrailing: nat)
    requires |was| == |mid| == |target| && t.trailing <= |target|
    requires Diffed(rs, was, mid, target, t.intervals)
    requires now == Patched(mid, |target| - t.trailing, Tail(target, t.trailing))
    requires ntrailing == if Tail(mid, t.trailing) != Tail(target, t.trailing) then t.trailing else 0
    ensures TaskDone(t, target, was, now, rs, ntrailing)
  {
    hide Diffed, FullEffect, Patched, Tail, Examines, Effect, Covers, Override;
    RecordsExamined(t, target, was, mid, rs);
    if Unchanged(t, target, was) { TaskUnchanged(t, target, was, mid, rs, ntrailing); }
    hide Unchanged;
    TaskEffect(t, target, was, mid, now, rs, ntrailing);
    var e := FullEffect(rs, Tail(target, ntrailing), |target|);
    forall x | x in e ensures x < |target| && Examines(t, |target|, x) && e[x] == target[x] {
      TaskTouches(t, target, was, mid, rs, ntrailing, x);
    }
    forall x | 0 <= x < |now| && Examines(t, |target|, x) ensures now[x] == target[x] {
      TaskAgrees(t, target, was, mid, now, rs, x);
    }
    forall x | 0 <= x < |now| ensures now[x] == was[x] || now[x] == target[x] {
      assert now[x] == if 0 + x in e then e[0 + x] else was[x];
    }
  }

  lemma TailWrites(target: seq<Byte>, n: nat)
    requires n <= |target|
    ensures var w := Writes(Record(|target| - n, Tail(target, n)));
      forall x :: x in w ==> |target| - n <= x < |target| && w[x] == target[x]
  {
  }
}

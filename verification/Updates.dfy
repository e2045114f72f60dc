/** Turning damage into tasks, and what a whole round of updates achieves. */
module Updates {
  import opened Bytes
  import opened DiffKernel
  import opened Intervals
  import opened UnionDamage
  import opened DamageRows
  import opened Damage
  import opened DamageSegments
  import opened Sharding
  import opened DiffTask
  import opened DiffRound
  import M = Mirror

  lemma {:induction false} FlatCovers(parts: seq<seq<Interval>>, x: int)
    ensures Covers(Flat(parts), x) <==> exists i :: 0 <= i < |parts| && Covers(parts[i], x)
    decreases |parts|
  {
    if parts != [] {
      var init, last := parts[..|parts| - 1], parts[|parts| - 1];
      FlatCovers(init, x);
      ConcatCovers(Flat(init), last, x);
      if i :| 0 <= i < |init| && Covers(init[i], x) { assert Covers(parts[i], x); }
      if i :| 0 <= i < |parts| && Covers(parts[i], x) { assert i < |init| ==> Covers(init[i], x); }
      if Covers(last, x) { assert Covers(parts[|parts| - 1], x); }
    }
  }

  /** A part inherits order and alignment from the whole list. */
  lemma {:induction false} PartShape(parts: seq<seq<Interval>>, i: nat)
    requires i < |parts| && Separated(Flat(parts), 0) && OnChunks(Flat(parts))
    ensures Separated(parts[i], 0) && OnChunks(parts[i])
    decreases |parts|
  {
    var init, last := parts[..|parts| - 1], parts[|parts| - 1];
    var f, g := Flat(parts), Flat(init);
    assert f == g + last;
    assert forall j :: 0 <= j < |g| ==> f[j] == g[j];
    assert forall j :: 0 <= j < |last| ==> f[|g| + j] == last[j];
    if i < |init| {
      PartShape(init, i);
    }
  }

  lemma PartInside(parts: seq<seq<Interval>>, i: nat, limit: nat)
    requires i < |parts| && Separated(parts[i], 0)
    requires forall x :: Covers(Flat(parts), x) ==> x < limit
    ensures forall j :: 0 <= j < |parts[i]| ==> parts[i][j].lo < parts[i][j].hi <= limit
  {
    forall j | 0 <= j < |parts[i]| ensures parts[i][j].hi <= limit {
      var x := parts[i][j].hi - 1;
      assert parts[i][j].Has(x) && Covers(parts[i], x);
      FlatCovers(parts, x);
    }
  }

  function MakeTask(part: seq<Interval>, trailing: nat): DiffTask {
    DiffTask(if part == [] then None else Some(Interval(part[0].lo, part[|part| - 1].hi)), part, trailing)
  }

  /** Task `i` of a sharded round; the last one also takes the incomplete chunk. */
  function TaskOf(parts: seq<seq<Interval>>, trail: nat, i: nat): DiffTask
    requires i < |parts|
  {
    MakeTask(parts[i], if i == |parts| - 1 then trail else 0)
  }

  lemma ShardedFacts(l: seq<Interval>, bufSize: nat, trail: nat, parts: seq<seq<Interval>>)
    requires Separated(l, 0) && OnChunks(l) && Sharded(l, bufSize, trail, parts)
    ensures Separated(Flat(parts), 0) && OnChunks(Flat(parts))
    ensures forall x :: Covers(Flat(parts), x) <==> x < RoundDown(bufSize, 64) && Covers(l, x)
    ensures forall i :: 0 <= i < |parts| ==> TotalLen(parts[i]) <= 262144
    ensures trail == (if bufSize % 64 > 0 && TailDamaged(l, bufSize) then bufSize % 64 else 0)
    ensures trail > 0 ==> parts != []
    ensures forall i :: 0 <= i < |parts| ==> parts[i] != [] || (i == |parts| - 1 && trail > 0)
  {
    ClipMeaning(l, RoundDown(bufSize, 64));
  }

  lemma TaskShape(l: seq<Interval>, bufSize: nat, trail: nat, parts: seq<seq<Interval>>, i: nat)
    requires Separated(l, 0) && OnChunks(l) && Sharded(l, bufSize, trail, parts) && i < |parts|
    ensures var t := TaskOf(parts, trail, i);
      && WellFormed(t, bufSize) && 0 <= Space(t.intervals) <= 0x24_0000 && t.trailing <= Min(bufSize, 63)
      && (t.intervals != [] || t.trailing > 0)
  {
    hide Sharded, TailDamaged, Flat, TotalLen, Covers;
    ShardedFacts(l, bufSize, trail, parts);
    PartShape(parts, i);
    PartInside(parts, i, RoundDown(bufSize, 64));
    TotalLenPositive(parts[i]);
  }

  /** The incomplete chunk is damaged entirely or not at all. */
  lemma TailAllOrNothing(l: seq<Interval>, bufSize: nat, x: nat)
    requires Separated(l, 0) && OnChunks(l) && RoundDown(bufSize, 64) <= x < bufSize
    ensures bufSize % 64 > 0 && (Covers(l, x) <==> TailDamaged(l, bufSize))
  {
    assert bufSize % 64 > 0;
    TailReached(l, bufSize);
    if i :| 0 <= i < |l| && ReachesTail(l[i], bufSize) {
      ReachedTail(l[i], bufSize, x);
      assert Covers(l, x);
    }
  }

  lemma ReachedTail(i: Interval, bufSize: nat, x: nat)
    requires ReachesTail(i, bufSize) && i.lo % 64 == 0 && i.hi % 64 == 0 && RoundDown(bufSize, 64) <= x < bufSize
    ensures i.Has(x)
  {
  }

  /** A byte of the buffer is examined by some task exactly when it is damaged. */
  lemma ExaminedIffDamaged(l: seq<Interval>, bufSize: nat, trail: nat, parts: seq<seq<Interval>>, x: nat)
    requires Separated(l, 0) && OnChunks(l) && Sharded(l, bufSize, trail, parts) && x < bufSize
    ensures Covers(l, x) <==> exists i :: 0 <= i < |parts| && Examines(TaskOf(parts, trail, i), bufSize, x)
  {
    hide Sharded, TailDamaged, Flat, TotalLen, Covers;
    ShardedFacts(l, bufSize, trail, parts);
    FlatCovers(parts, x);
    if x < RoundDown(bufSize, 64) {
      assert forall i :: 0 <= i < |parts| ==> (Examines(TaskOf(parts, trail, i), bufSize, x) <==> Covers(parts[i], x));
    } else {
      TailAllOrNothing(l, bufSize, x);
      assert forall i :: 0 <= i < |parts| ==>
        (Examines(TaskOf(parts, trail, i), bufSize, x) <==> i == |parts| - 1 && trail > 0);
      if trail > 0 { assert Examines(TaskOf(parts, trail, |parts| - 1), bufSize, x); }
    }
  }

  /** No two tasks of a round need a common part of the mirror. */
  ghost predicate Independent(tasks: seq<DiffTask>, bufSize: nat)
    requires AllWellFormed(tasks, bufSize)
  {
    forall i, j :: 0 <= i < |tasks| && 0 <= j < |tasks| && i != j ==> Apart(tasks[i], tasks[j], bufSize)
  }

  ghost predicate Apart(s: DiffTask, t: DiffTask, bufSize: nat)
    requires s.trailing <= bufSize && t.trailing <= bufSize
  {
    && (s.region.Some? && t.region.Some? ==> !M.Overlap(s.region.value, t.region.value))
    && (s.trailing > 0 && t.region.Some? ==> !M.Overlap(TailSpan(s, bufSize), t.region.value))
    && (t.trailing > 0 && s.region.Some? ==> !M.Overlap(TailSpan(t, bufSize), s.region.value))
    && (s.trailing == 0 || t.trailing == 0)
  }

  lemma TasksApart(l: seq<Interval>, bufSize: nat, trail: nat, parts: seq<seq<Interval>>, i: nat, j: nat)
    requires Separated(l, 0) && OnChunks(l) && Sharded(l, bufSize, trail, parts) && i < j < |parts|
    ensures TaskOf(parts, trail, i).trailing <= bufSize && TaskOf(parts, trail, j).trailing <= bufSize
    ensures Apart(TaskOf(parts, trail, i), TaskOf(parts, trail, j), bufSize)
    ensures Apart(TaskOf(parts, trail, j), TaskOf(parts, trail, i), bufSize)
  {
    hide Sharded, TailDamaged, Flat, TotalLen, Covers;
    ShardedFacts(l, bufSize, trail, parts);
    PartShape(parts, i);
    PartInside(parts, i, RoundDown(bufSize, 64));
    var p, q := parts[i], parts[j];
    if p != [] && q != [] {
      PartsAscend(parts, i, j, p[|p| - 1], q[0]);
    }
    assert p != [] ==> p[|p| - 1].hi <= RoundDown(bufSize, 64);
  }

  /** What is known to be damaged. */
  datatype BufferDamage = Everything | Listed(intervals: seq<Interval>)

  /** The intervals that stand for the damage; the whole buffer is rounded up to whole chunks. */
  function DamageList(damage: BufferDamage, bufSize: nat): seq<Interval> {
    match damage
    case Everything => [Interval(0, Align(bufSize, 64))]
    case Listed(l) => l
  }

  predicate Damaged(damage: BufferDamage, x: nat) {
    damage.Everything? || Covers(damage.intervals, x)
  }

  lemma EverythingListed(bufSize: nat)
    requires bufSize > 0
    ensures var l := DamageList(Everything, bufSize);
      Separated(l, 0) && OnChunks(l) && forall x :: 0 <= x < bufSize ==> Covers(l, x)
  {
    var l := DamageList(Everything, bufSize);
    assert forall x :: 0 <= x < bufSize ==> l[0].Has(x);
  }

  /**
   * Make the diff tasks for the damage. There is no result when an empty buffer is
   * damaged as a whole: its interval is empty, which an assertion rules out.
   */
  method CollectUpdates(damage: BufferDamage, bufSize: nat) returns (r: Option<seq<DiffTask>>)
    requires damage.Listed? ==> Separated(damage.intervals, 0) && OnChunks(damage.intervals)
    requires bufSize < U32_LIMIT
    ensures r.None? <==> damage.Everything? && bufSize == 0
    ensures r.Some? ==> AllWellFormed(r.value, bufSize) && Independent(r.value, bufSize)
    ensures r.Some? ==> forall x :: 0 <= x < bufSize ==>
      (Damaged(damage, x) <==> exists i :: 0 <= i < |r.value| && Examines(r.value[i], bufSize, x))
  {
    hide Separated, OnChunks, Covers, AllWellFormed, Independent, Examines;
    if damage.Everything? {
      if bufSize == 0 {
        return None;
      }
      EverythingListed(bufSize);
    }
    var tasks := CollectListed(DamageList(damage, bufSize), bufSize);
    forall x: nat | x < bufSize
      ensures Damaged(damage, x) <==> exists i :: 0 <= i < |tasks| && Examines(tasks[i], bufSize, x)
    {
      assert Covers(DamageList(damage, bufSize), x) <==> Damaged(damage, x);
    }
    return Some(tasks);
  }

  method CollectListed(damage: seq<Interval>, bufSize: nat) returns (tasks: seq<DiffTask>)
    requires Separated(damage, 0) && OnChunks(damage) && bufSize < U32_LIMIT
    ensures AllWellFormed(tasks, bufSize) && Independent(tasks, bufSize)
    ensures forall x :: 0 <= x < bufSize ==>
      (Covers(damage, x) <==> exists i :: 0 <= i < |tasks| && Examines(tasks[i], bufSize, x))
  {
    hide Sharded, Covers, WellFormed, Apart, Examines, Space;
    var trail, parts := SplitDamage(damage, bufSize);
    tasks := [];
    for i := 0 to |parts|
      invariant |tasks| == i && forall j :: 0 <= j < i ==> tasks[j] == TaskOf(parts, trail, j)
    {
      TaskShape(damage, bufSize, trail, parts, i);
      assert if i == |parts| - 1 then |parts[i]| + trail > 0 else parts[i] != [];
      tasks := tasks + [MakeTask(parts[i], if i == |parts| - 1 && trail > 0 then trail else 0)];
    }
    forall i | 0 <= i < |tasks|
      ensures WellFormed(tasks[i], bufSize) && 0 <= Space(tasks[i].intervals) <= 0x24_0000 &&
        tasks[i].trailing <= Min(bufSize, 63)
    {
      TaskShape(damage, bufSize, trail, parts, i);
    }
    forall i, j | 0 <= i < |tasks| && 0 <= j < |tasks| && i != j ensures Apart(tasks[i], tasks[j], bufSize) {
      TasksApart(damage, bufSize, trail, parts, Min(i, j), Max(i, j));
    }
    forall x | 0 <= x < bufSize
      ensures Covers(damage, x) <==> exists i :: 0 <= i < |tasks| && Examines(tasks[i], bufSize, x)
    {
      ExaminedIffDamaged(damage, bufSize, trail, parts, x);
      assert forall i :: 0 <= i < |tasks| ==> tasks[i] == TaskOf(parts, trail, i);
    }
  }

  lemma SegmentsOnChunks(l: seq<Interval>, lay: Layout)
    requires lay.alignBits == 6 && Separated(l, Max(lay.minGap, 1)) && AllAligned(l, lay.alignBits)
    ensures Separated(l, 0) && OnChunks(l)
  {
    assert Pow2(6) == 2 * Pow2(5) == 4 * Pow2(4) == 8 * Pow2(3) == 16 * Pow2(2) == 32 * Pow2(1) == 64;
    forall i | 0 <= i < |l| ensures l[i].lo % 64 == 0 && l[i].hi % 64 == 0 { assert Aligned(l[i], 6); }
  }

  /**
   * A whole round: rectangles to intervals, intervals to tasks, tasks run on one
   * snapshot of the buffer. Afterwards the mirror agrees with the buffer on every
   * byte of every damaged rectangle, including the incomplete last chunk.
   */
  method DamageRound(rects: seq<Rect>, lay: Layout, rid: nat, target: seq<Byte>, mirror: M.Mirror, k: LineRule)
    returns (msgs: seq<seq<Byte>>)
    requires AllValid(rects) && (rects != [] ==> lay.bpp > 0) && lay.alignBits == 6
    requires Sound(k) && |target| < U32_LIMIT && rid < U32_LIMIT
    requires mirror.Valid() && mirror.ranges == {} && mirror.data.Length == |target|
    modifies mirror`ranges, mirror.data
    ensures mirror.Valid() && mirror.ranges == {} && mirror.data == old(mirror.data)
    ensures AllCarry(msgs, rid, |target|) && ReplayedAll(old(mirror.data[..]), msgs, rid) == mirror.data[..]
    ensures forall i, x :: 0 <= i < |rects| && 0 <= x < |target| && InRect(rects[i], lay, x) ==>
      mirror.data[x] == target[x]
    ensures forall x :: 0 <= x < |target| ==> mirror.data[x] == old(mirror.data[x]) || mirror.data[x] == target[x]
  {
    hide Sound, AllWellFormed, Examines, Covers, Separated, OnChunks, AllAligned, CoversAll, InRect, GroupsOk,
      AllAffordable, GroupsDone, Grouping, SortedByStart, AllRows, Independent, AllCarry, ReplayedAll;
    var segs, _, _, _, _ := ComputeDamagedSegments(rects, lay);
    SegmentsOnChunks(segs, lay);
    var tasks := CollectUpdates(Listed(segs), |target|);
    msgs := RunTasks(tasks.value, rid, target, mirror, k);
    forall i, x | 0 <= i < |rects| && 0 <= x < |target| && InRect(rects[i], lay, x)
      ensures mirror.data[x] == target[x] {
      assert Covers(segs, x);
      assert Damaged(Listed(segs), x);
      var j :| 0 <= j < |tasks.value| && Examines(tasks.value[j], |target|, x);
    }
  }
}

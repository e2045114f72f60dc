/** The shared task set in use: each call the main thread or a worker makes is one step of the scheduler. */
module Workers {
  import opened Bytes
  import opened DiffFormat
  import opened DiffKernel
  import opened DiffTask
  import opened DiffRound
  import opened TaskQueue
  import opened Replica
  import DM = DiffMessage
  import M = Mirror
  import S = Scheduler

  /** Update `t` was completed when nothing of it was left to store: all its bytes are in place. */
  lemma AppliedBytes(w: S.World, t: nat, a: Addr)
    requires S.Inv(w) && t in w.applying && (forall b :: (t, b) !in w.todo) && a in w.applying[t].writes
    ensures a in w.mem && w.mem[a] == w.applying[t].writes[a]
  {
    hide S.Queued, S.Tracked, S.Counted, S.Fold, Update.Valid;
    S.ApplyValid(w);
    forall s | s in w.applying && s != t ensures a !in w.applying[s].writes {
      S.DisjointWrites(w.applying[t], w.applying[s], a);
    }
    assert !S.Unwritten(w.todo, a);
    assert S.SameAt(w.mem, S.Fold(w.base, w.log[..w.started]), a);
  }

  class Receiver {
    const tasks: TaskSet
    ghost var world: S.World

    ghost predicate Valid()
      reads this, tasks
    {
      S.Inv(world) && world.tasks == tasks.View()
    }

    constructor (ghost base: Memory)
      ensures Valid() && world == S.Initial(base) && fresh(tasks)
    {
      tasks := new TaskSet();
      world := S.Initial(base);
      new;
      S.InvInitial(base);
    }

    /** The main thread hands in a message. */
    method Arrive(u: Update)
      requires Valid() && u.Valid()
      modifies `world, tasks
      ensures Valid() && S.Step(old(world), S.Arrive(u), world)
    {
      hide S.Inv;
      ghost var w := world;
      tasks.Enqueue(u);
      world := w.(tasks := tasks.View(), log := w.log + [u],
                  pending := w.pending[u.rid := S.Count(w.pending, u.rid) + 1]);
      S.StepKeeps(w, S.Arrive(u), world);
    }

    /**
     * A worker asks for something to do. An update it is told to apply is the next
     * in order of arrival, and all earlier updates of overlapping regions are in place.
     */
    method Take() returns (r: Option<WorkTask>)
      requires Valid()
      modifies `world, tasks
      ensures Valid() && S.TakeStep(old(world), world, r)
      ensures r.Some? && r.value.ApplyTask? ==>
        var t := r.value.seqno;
        && t == old(world.started) < |world.log| && r.value.update == world.log[t]
        && forall i :: 0 <= i < t && M.Overlap(world.log[i].region, world.log[t].region) ==> i in world.finished
    {
      hide S.Inv, M.Overlap;
      ghost var w := world;
      S.ChoiceSafe(w);
      r := tasks.PopTask();
      world := S.Taken(w, tasks.View(), r);
      assert S.TakeStep(w, world, r);
      S.StepKeeps(w, S.Take, world);
      if r.Some? && r.value.ApplyTask? {
        TakenInOrder(w, world, r);
      }
    }

    /** A worker reports that it has decompressed update `s`. */
    method FinishDecomp(s: nat, u: Update)
      requires Valid() && s in world.decomping && world.decomping[s] == u
      modifies `world, tasks
      ensures Valid() && S.Step(old(world), S.FinishDecomp(s), world)
    {
      hide S.Inv;
      ghost var w := world;
      tasks.FinishDecomp(s, u);
      world := w.(tasks := tasks.View(), decomping := w.decomping - {s});
      S.StepKeeps(w, S.FinishDecomp(s), world);
    }

    /** A worker reports that it has applied update `t`: its bytes are in place and its region is free. */
    method FinishApply(t: nat, u: Update)
      requires Valid() && t in world.applying && world.applying[t] == u && forall a :: (t, a) !in world.todo
      modifies `world, tasks
      ensures Valid() && S.Step(old(world), S.FinishApply(t), world)
      ensures forall a :: a in u.writes ==> a in world.mem && world.mem[a] == u.writes[a]
    {
      hide S.Inv;
      ghost var w := world;
      forall a | a in u.writes ensures a in w.mem && w.mem[a] == u.writes[a] { AppliedBytes(w, t, a); }
      tasks.FinishApply(t, u);
      world := w.(tasks := tasks.View(), applying := w.applying - {t}, finished := w.finished + {t},
                  outbox := w.outbox + [u.rid]);
      S.StepKeeps(w, S.FinishApply(t), world);
    }
  }

  lemma TakenInOrder(w: S.World, w': S.World, r: Option<WorkTask>)
    requires S.Inv(w) && S.TakeStep(w, w', r) && S.Inv(w') && r.Some? && r.value.ApplyTask?
    ensures var t := r.value.seqno;
      && t == w.started < |w'.log| && r.value.update == w'.log[t]
      && forall i :: 0 <= i < t && M.Overlap(w'.log[i].region, w'.log[t].region) ==> i in w'.finished
  {
    hide S.Inv, MayApply, M.Overlap;
    var t := r.value.seqno;
    S.NextToApply(w, t);
    forall i | 0 <= i < t && M.Overlap(w'.log[i].region, w'.log[t].region) ensures i in w'.finished {
      S.OverlapNow(w', i, t);
    }
  }

  // ---- The sending side ----

  /**
   * A worker runs a diff task, with any sound kernel, while nobody holds the ranges
   * it needs: this is a step of the whole system, and the bytes it returns are the
   * message of that step.
   */
  method RunDiff(ghost f: File, ghost total: map<nat, Byte>, i: nat, t: DiffTask, rid: nat, target: seq<Byte>,
                 mirror: M.Mirror, k: LineRule)
    returns (r: TaskResult, ghost d: Diff)
    requires FileOk(f, rid, |target|, total) && i in f.running && i < |f.round| && t == f.round[i]
    requires Sound(k) && |target| < U32_LIMIT && rid < U32_LIMIT
    requires mirror.Valid() && mirror.data[..] == f.mirror && mirror.data.Length == |target|
    requires t.trailing <= |target| && Available(mirror.ranges, t, |target|)
    modifies mirror`ranges, mirror.data
    ensures mirror.Valid() && mirror.data == old(mirror.data) && mirror.ranges == old(mirror.ranges)
    ensures r.Msg? && RunStep(f, rid, |target|, i, target, d, mirror.data[..])
    ensures DiffOk(d, rid, |target|) && r.bytes == if IsNull(d) then [] else MessageOf(d, rid, |target|)
  {
    hide Sound, FileOk, WellFormed, Space, TaskDone, Encode, AllEncodable, DM.Sendable, DM.Build, Carries, Replayed,
      Unchanged, DiffOk;
    FileParts(f, rid, |target|, total);
    TaskFacts(f, rid, |target|, i);
    ghost var rs, n;
    r, rs, n := RunDiffTask(t, rid, target, mirror, k);
    d := Diff(rs, Tail(target, n));
    RunTaskDiff(t, rid, target, d, f.mirror, mirror.data[..]);
    EmptyBytes(rid, rs, target, n);
  }
}

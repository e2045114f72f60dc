/** Workers taking, decompressing and applying updates: every interleaving of their steps. */
module Scheduler {
  import opened Bytes
  import opened Intervals
  import opened TaskQueue
  import M = Mirror

  /**
   * The receiving side. `log` lists the updates in order of arrival, so that
   * update `i` gets sequence number `i`; `started` counts applies begun and
   * `finished` holds those completed. `todo` pairs an apply in progress with the
   * bytes it has still to store. `outbox` carries the object ids that workers
   * reported as done, `pending` the main thread's counter per object.
   */
  datatype World = World(
    tasks: Tasks,
    decomping: map<nat, Update>,
    applying: map<nat, Update>,
    todo: set<(nat, Addr)>,
    mem: Memory,
    outbox: seq<nat>,
    pending: map<nat, int>,
    base: Memory,
    log: seq<Update>,
    started: nat,
    finished: set<nat>)

  function Initial(base: Memory): World {
    World(Tasks(0, [], {}, map[], {}, []), map[], map[], {}, base, [], map[], base, [], 0, {})
  }

  function Count(pending: map<nat, int>, r: nat): int {
    if r in pending then pending[r] else 0
  }

  /** One atomic step: an arrival, a worker's access to the `TaskSet` or to memory, a report received. */
  datatype Event =
    | Arrive(update: Update)
    | Take
    | FinishDecomp(seqno: nat)
    | Write(seqno: nat, addr: Addr)
    | FinishApply(seqno: nat)
    | Report

  function AllOf(t: nat, u: Update): set<(nat, Addr)> {
    set a | a in u.writes :: (t, a)
  }

  function Taken(w: World, tasks: Tasks, r: Option<WorkTask>): World {
    match r
    case None => w.(tasks := tasks)
    case Some(ConstructTask(_)) => w.(tasks := tasks)
    case Some(DecompTask(s, u)) => w.(tasks := tasks, decomping := w.decomping[s := u])
    case Some(ApplyTask(t, u)) =>
      w.(tasks := tasks, applying := w.applying[t := u], todo := w.todo + AllOf(t, u), started := w.started + 1)
  }

  ghost predicate TakeStep(w: World, w': World, r: Option<WorkTask>) {
    Popped(w.tasks, w'.tasks, r) && w' == Taken(w, w'.tasks, r)
  }

  ghost predicate Step(w: World, ev: Event, w': World) {
    match ev
    case Arrive(u) =>
      u.Valid() && w' == w.(tasks := Enqueued(w.tasks, u), log := w.log + [u],
                            pending := w.pending[u.rid := Count(w.pending, u.rid) + 1])
    case Take => exists r :: TakeStep(w, w', r)
    case FinishDecomp(s) =>
      s in w.decomping &&
      w' == w.(tasks := Decompressed(w.tasks, s, w.decomping[s]), decomping := w.decomping - {s})
    case Write(t, a) =>
      t in w.applying && (t, a) in w.todo && a in w.applying[t].writes &&
      w' == w.(mem := w.mem[a := w.applying[t].writes[a]], todo := w.todo - {(t, a)})
    case FinishApply(t) =>
      t in w.applying && (forall a :: (t, a) !in w.todo) &&
      w' == w.(tasks := Released(w.tasks, t, w.applying[t]), applying := w.applying - {t},
               finished := w.finished + {t}, outbox := w.outbox + [w.applying[t].rid])
    case Report =>
      w.outbox != [] &&
      w' == w.(outbox := w.outbox[1..], pending := w.pending[w.outbox[0] := Count(w.pending, w.outbox[0]) - 1])
  }

  /** The updates applied one after the other. */
  function Fold(base: Memory, us: seq<Update>): Memory {
    if us == [] then base else Fold(base, us[..|us| - 1]) + us[|us| - 1].writes
  }

  // ---- What every step keeps ----

  /** Sequence numbers are handed out in order of arrival, and applies have started in that order. */
  ghost predicate Queued(lastSeqno: nat, decompress: seq<Update>, apply: map<nat, Update>,
                         decomping: map<nat, Update>, log: seq<Update>, started: nat) {
    && started <= lastSeqno <= |log|
    && decompress == log[lastSeqno..]
    && (forall s :: s in decomping ==> started <= s < lastSeqno && decomping[s] == log[s] && s !in apply)
    && (forall s :: s in apply ==> started <= s < lastSeqno && apply[s] == log[s])
    && (forall s :: started <= s < lastSeqno ==> s in decomping || s in apply)
  }

  /** What was started is being applied or finished. */
  ghost predicate Begun(applying: map<nat, Update>, log: seq<Update>, started: nat, finished: set<nat>) {
    && started <= |log|
    && (forall i :: 0 <= i < |log| ==> log[i].Valid())
    && (forall t :: t in applying ==> t < started && applying[t] == log[t] && t !in finished)
    && (forall t :: t in finished ==> t < started)
    && (forall t :: 0 <= t < started ==> t in applying || t in finished)
  }

  /** The `TaskSet` knows what the workers are doing. */
  ghost predicate Tracked(inProgressDecomp: set<nat>, decomping: map<nat, Update>,
                          inProgressApply: set<(nat, Interval)>, applying: map<nat, Update>) {
    && inProgressDecomp == decomping.Keys
    && (forall t :: t in applying ==> (t, applying[t].region) in inProgressApply)
    && (forall e :: e in inProgressApply ==> e.0 in applying && e.1 == applying[e.0].region)
  }

  /** No two regions being written overlap. */
  ghost predicate Exclusive(applying: map<nat, Update>) {
    forall s, t :: s in applying && t in applying && s != t ==> !M.Overlap(applying[s].region, applying[t].region)
  }

  /** Some apply in progress has still to store this byte. */
  ghost predicate Unwritten(todo: set<(nat, Addr)>, a: Addr) {
    exists t :: (t, a) in todo
  }

  ghost predicate SameAt(m: Memory, n: Memory, a: Addr) {
    (a in m <==> a in n) && (a in m && a in n ==> m[a] == n[a])
  }

  /** Every apply in progress is the latest writer of its bytes. */
  ghost predicate Latest(applying: map<nat, Update>, f: Memory) {
    forall t, a :: t in applying && a in applying[t].writes ==> a in f && f[a] == applying[t].writes[a]
  }

  /** Where nothing is left to store, memory is what the started updates make it. */
  ghost predicate Faithful(applying: map<nat, Update>, todo: set<(nat, Addr)>, mem: Memory, f: Memory) {
    && (forall e :: e in todo ==> e.0 in applying && e.1 in applying[e.0].writes)
    && (forall a :: !Unwritten(todo, a) ==> SameAt(mem, f, a))
  }

  /** How many of the first `n` updates are for object `r` and not finished. */
  ghost function Outstanding(log: seq<Update>, finished: set<nat>, r: nat, n: nat): nat
    requires n <= |log|
  {
    if n == 0 then 0
    else Outstanding(log, finished, r, n - 1) + (if n - 1 !in finished && log[n - 1].rid == r then 1 else 0)
  }

  /** The counter of an object is the number of its updates not yet reported as applied. */
  ghost predicate Counted(pending: map<nat, int>, log: seq<Update>, finished: set<nat>, outbox: seq<nat>) {
    forall r :: Count(pending, r) == Outstanding(log, finished, r, |log|) + multiset(outbox)[r]
  }

  ghost predicate Inv(w: World) {
    && Queued(w.tasks.lastSeqno, w.tasks.decompress, w.tasks.apply, w.decomping, w.log, w.started)
    && Begun(w.applying, w.log, w.started, w.finished)
    && Tracked(w.tasks.inProgressDecomp, w.decomping, w.tasks.inProgressApply, w.applying)
    && Exclusive(w.applying)
    && Latest(w.applying, Fold(w.base, w.log[..w.started]))
    && Faithful(w.applying, w.todo, w.mem, Fold(w.base, w.log[..w.started]))
    && Counted(w.pending, w.log, w.finished, w.outbox)
  }

  lemma InvInitial(base: Memory)
    ensures Inv(Initial(base))
  {
    var w := Initial(base);
    assert w.log[..0] == [];
  }

  lemma {:induction false} OutstandingFrame(log: seq<Update>, u: Update, finished: set<nat>, r: nat, n: nat)
    requires n <= |log|
    ensures Outstanding(log + [u], finished, r, n) == Outstanding(log, finished, r, n)
  {
    if n > 0 { OutstandingFrame(log, u, finished, r, n - 1); }
  }

  /** Finishing update `t` takes its object out once. */
  lemma {:induction false} OutstandingFinish(log: seq<Update>, finished: set<nat>, t: nat, r: nat, n: nat)
    requires n <= |log| && t !in finished && t < |log|
    ensures Outstanding(log, finished, r, n) ==
      Outstanding(log, finished + {t}, r, n) + (if t < n && log[t].rid == r then 1 else 0)
  {
    if n > 0 { OutstandingFinish(log, finished, t, r, n - 1); }
  }

  lemma ArriveCounted(w: World, u: Update)
    requires Begun(w.applying, w.log, w.started, w.finished) && Counted(w.pending, w.log, w.finished, w.outbox)
    ensures Counted(w.pending[u.rid := Count(w.pending, u.rid) + 1], w.log + [u], w.finished, w.outbox)
  {
    assert |w.log| !in w.finished;
    hide Begun;
    var pending', log' := w.pending[u.rid := Count(w.pending, u.rid) + 1], w.log + [u];
    forall r ensures Count(pending', r) == Outstanding(log', w.finished, r, |log'|) + multiset(w.outbox)[r] {
      OutstandingFrame(w.log, u, w.finished, r, |w.log|);
    }
  }

  lemma ArriveQueued(w: World, u: Update)
    requires Queued(w.tasks.lastSeqno, w.tasks.decompress, w.tasks.apply, w.decomping, w.log, w.started)
    ensures Queued(w.tasks.lastSeqno, w.tasks.decompress + [u], w.tasks.apply, w.decomping, w.log + [u], w.started)
  {
  }

  lemma ArriveBegun(w: World, u: Update)
    requires Begun(w.applying, w.log, w.started, w.finished) && u.Valid()
    ensures Begun(w.applying, w.log + [u], w.started, w.finished)
    ensures w.started <= |w.log| && (w.log + [u])[..w.started] == w.log[..w.started]
  {
    hide Update.Valid;
  }

  lemma ArriveKeeps(w: World, u: Update, w': World)
    requires Inv(w) && Step(w, Arrive(u), w')
    ensures Inv(w')
  {
    hide Queued, Begun, Latest, Faithful, Exclusive, Tracked, Counted, Fold, Update.Valid, Count;
    ArriveCounted(w, u);
    ArriveQueued(w, u);
    ArriveBegun(w, u);
  }

  lemma FinishDecompKeeps(w: World, s: nat, w': World)
    requires Inv(w) && Step(w, FinishDecomp(s), w')
    ensures Inv(w')
  {
    hide Latest, Faithful, Exclusive, Begun, Counted, Fold;
  }

  lemma ReportKeeps(w: World, w': World)
    requires Inv(w) && Step(w, Report, w')
    ensures Inv(w')
    ensures Count(w.pending, w.outbox[0]) >= 1
  {
    hide Latest, Faithful, Exclusive, Begun, Tracked, Queued, Fold, Outstanding;
    assert w.outbox == [w.outbox[0]] + w.outbox[1..];
  }

  lemma UnwrittenLess(todo: set<(nat, Addr)>, t: nat, a: Addr, b: Addr)
    requires a != b
    ensures Unwritten(todo - {(t, a)}, b) <==> Unwritten(todo, b)
  {
    if s :| (s, b) in todo { assert (s, b) in todo - {(t, a)}; }
  }

  lemma UnwrittenMore(todo: set<(nat, Addr)>, t: nat, u: Update, a: Addr)
    ensures Unwritten(todo + AllOf(t, u), a) <==> Unwritten(todo, a) || a in u.writes
  {
    if s :| (s, a) in todo { assert (s, a) in todo + AllOf(t, u); }
    if a in u.writes { assert (t, a) in todo + AllOf(t, u); }
  }

  lemma WriteFaithful(applying: map<nat, Update>, todo: set<(nat, Addr)>, mem: Memory, f: Memory, t: nat, a: Addr)
    requires Faithful(applying, todo, mem, f) && Latest(applying, f) && t in applying && a in applying[t].writes &&
      (t, a) in todo
    ensures Faithful(applying, todo - {(t, a)}, mem[a := applying[t].writes[a]], f)
  {
    var todo', mem' := todo - {(t, a)}, mem[a := applying[t].writes[a]];
    forall b | !Unwritten(todo', b) ensures SameAt(mem', f, b) {
      if b != a { UnwrittenLess(todo, t, a, b); }
    }
  }

  lemma WriteKeeps(w: World, t: nat, a: Addr, w': World)
    requires Inv(w) && Step(w, Write(t, a), w')
    ensures Inv(w')
  {
    hide Queued, Latest, Faithful, Exclusive, Tracked, Counted, Fold;
    WriteFaithful(w.applying, w.todo, w.mem, Fold(w.base, w.log[..w.started]), t, a);
  }

  lemma FinishCounted(w: World, t: nat)
    requires Begun(w.applying, w.log, w.started, w.finished) && Counted(w.pending, w.log, w.finished, w.outbox) &&
      t in w.applying
    ensures Counted(w.pending, w.log, w.finished + {t}, w.outbox + [w.applying[t].rid])
  {
    assert t < |w.log| && t !in w.finished && w.applying[t] == w.log[t];
    hide Begun;
    var rid := w.log[t].rid;
    forall r ensures Count(w.pending, r) ==
      Outstanding(w.log, w.finished + {t}, r, |w.log|) + multiset(w.outbox + [rid])[r] {
      OutstandingFinish(w.log, w.finished, t, r, |w.log|);
    }
  }

  lemma FinishTracked(w: World, t: nat)
    requires Tracked(w.tasks.inProgressDecomp, w.decomping, w.tasks.inProgressApply, w.applying) && t in w.applying
    ensures Tracked(w.tasks.inProgressDecomp, w.decomping, w.tasks.inProgressApply - {(t, w.applying[t].region)},
                    w.applying - {t})
  {
  }

  lemma FinishBegun(w: World, t: nat)
    requires Begun(w.applying, w.log, w.started, w.finished) && t in w.applying
    ensures Begun(w.applying - {t}, w.log, w.started, w.finished + {t})
    ensures w.started <= |w.log|
  {
    hide Update.Valid;
  }

  lemma FinishFaithful(applying: map<nat, Update>, todo: set<(nat, Addr)>, mem: Memory, f: Memory, t: nat)
    requires Exclusive(applying) && Latest(applying, f) && Faithful(applying, todo, mem, f) &&
      forall a :: (t, a) !in todo
    ensures Exclusive(applying - {t}) && Latest(applying - {t}, f) && Faithful(applying - {t}, todo, mem, f)
  {
    forall e | e in todo ensures e.0 in applying - {t} {
      assert e == (e.0, e.1) && e.0 in applying;
    }
  }

  lemma FinishApplyKeeps(w: World, t: nat, w': World)
    requires Inv(w) && Step(w, FinishApply(t), w')
    ensures Inv(w')
  {
    hide Queued, Begun, Latest, Faithful, Exclusive, Tracked, Counted, Fold;
    FinishCounted(w, t);
    FinishTracked(w, t);
    FinishBegun(w, t);
    FinishFaithful(w.applying, w.todo, w.mem, Fold(w.base, w.log[..w.started]), t);
  }

  /** Taking an apply: it is the very next one in order of arrival. */
  lemma NextToApply(w: World, t: nat)
    requires Inv(w) && IsFirst(w.tasks, t) && MayApply(w.tasks, t)
    ensures t == w.started < |w.log| && w.tasks.apply[t] == w.log[t] && w.log[t].Valid()
  {
    hide Latest, Faithful, Exclusive, Counted, Fold, Update.Valid;
    assert w.started < t ==> w.started in w.decomping || w.started in w.tasks.apply;
  }

  lemma ApplyQueued(w: World, t: nat)
    requires Queued(w.tasks.lastSeqno, w.tasks.decompress, w.tasks.apply, w.decomping, w.log, w.started)
    requires t == w.started && t in w.tasks.apply
    ensures Queued(w.tasks.lastSeqno, w.tasks.decompress, w.tasks.apply - {t}, w.decomping, w.log, w.started + 1)
  {
  }

  lemma ApplyBegun(w: World, t: nat)
    requires Begun(w.applying, w.log, w.started, w.finished) && t == w.started < |w.log|
    ensures Begun(w.applying[t := w.log[t]], w.log, w.started + 1, w.finished)
    ensures t !in w.applying
  {
    hide Update.Valid;
  }

  lemma ApplyTracked(w: World, t: nat, u: Update)
    requires Tracked(w.tasks.inProgressDecomp, w.decomping, w.tasks.inProgressApply, w.applying) && t !in w.applying
    requires Exclusive(w.applying)
    requires forall e :: e in w.tasks.inProgressApply ==> !M.Overlap(e.1, u.region)
    ensures Tracked(w.tasks.inProgressDecomp, w.decomping, w.tasks.inProgressApply + {(t, u.region)},
                    w.applying[t := u])
    ensures Exclusive(w.applying[t := u])
    ensures forall s :: s in w.applying ==> !M.Overlap(w.applying[s].region, u.region)
  {
    forall s | s in w.applying ensures !M.Overlap(w.applying[s].region, u.region) {
      assert (s, w.applying[s].region) in w.tasks.inProgressApply;
    }
  }

  /** Updates to disjoint regions store different bytes. */
  lemma DisjointWrites(u: Update, v: Update, a: Addr)
    requires u.Valid() && v.Valid() && !M.Overlap(u.region, v.region) && a in u.writes
    ensures a !in v.writes
  {
  }

  lemma ApplyFaithful(applying: map<nat, Update>, todo: set<(nat, Addr)>, mem: Memory, f: Memory, t: nat, u: Update)
    requires Latest(applying, f) && Faithful(applying, todo, mem, f) && t !in applying && u.Valid()
    requires forall s :: s in applying ==> applying[s].Valid() && !M.Overlap(applying[s].region, u.region)
    ensures Latest(applying[t := u], f + u.writes)
    ensures Faithful(applying[t := u], todo + AllOf(t, u), mem, f + u.writes)
  {
    var f', applying', todo' := f + u.writes, applying[t := u], todo + AllOf(t, u);
    forall s, a | s in applying' && a in applying'[s].writes ensures a in f' && f'[a] == applying'[s].writes[a] {
      if s != t { DisjointWrites(applying[s], u, a); }
    }
    hide Update.Valid;
    forall a | !Unwritten(todo', a) ensures SameAt(mem, f', a) {
      UnwrittenMore(todo, t, u, a);
    }
  }

  lemma FoldMore(base: Memory, log: seq<Update>, n: nat)
    requires n < |log|
    ensures Fold(base, log[..n + 1]) == Fold(base, log[..n]) + log[n].writes
  {
    assert log[..n + 1][..n] == log[..n];
  }

  lemma TakeApplyKeeps(w: World, t: nat, w': World)
    requires Inv(w) && IsFirst(w.tasks, t) && MayApply(w.tasks, t)
    requires w'.tasks == w.tasks.(apply := w.tasks.apply - {t},
                                  inProgressApply := w.tasks.inProgressApply + {(t, w.tasks.apply[t].region)})
    requires w' == Taken(w, w'.tasks, Some(ApplyTask(t, w.tasks.apply[t])))
    ensures Inv(w')
  {
    NextToApply(w, t);
    var u := w.log[t];
    ApplyValid(w);
    hide Queued, Begun, Latest, Faithful, Exclusive, Tracked, Counted, Fold, Update.Valid, AllOf;
    ApplyQueued(w, t);
    ApplyBegun(w, t);
    ApplyTracked(w, t, u);
    ApplyFaithful(w.applying, w.todo, w.mem, Fold(w.base, w.log[..w.started]), t, u);
    FoldMore(w.base, w.log, t);
  }

  lemma ApplyValid(w: World)
    requires Inv(w)
    ensures forall s :: s in w.applying ==> w.applying[s].Valid()
  {
    hide Queued, Latest, Faithful, Exclusive, Tracked, Counted, Fold, Update.Valid;
  }

  lemma TakeDecompKeeps(w: World, w': World)
    requires Inv(w) && w.tasks.decompress != []
    requires var s := w.tasks.lastSeqno;
      && w'.tasks == w.tasks.(lastSeqno := s + 1, decompress := w.tasks.decompress[1..],
                              inProgressDecomp := w.tasks.inProgressDecomp + {s})
      && w' == Taken(w, w'.tasks, Some(DecompTask(s, w.tasks.decompress[0])))
    ensures Inv(w')
  {
    hide Latest, Faithful, Exclusive, Begun, Counted, Fold;
  }

  lemma TakeKeeps(w: World, w': World, r: Option<WorkTask>)
    requires Inv(w) && TakeStep(w, w', r)
    ensures Inv(w')
  {
    hide Inv, MayApply, Taken;
    if exists t :: IsFirst(w.tasks, t) && MayApply(w.tasks, t) {
      var t :| IsFirst(w.tasks, t) && t in w.tasks.apply && MayApply(w.tasks, t) &&
        r == Some(ApplyTask(t, w.tasks.apply[t]))
        && w'.tasks == w.tasks.(apply := w.tasks.apply - {t},
                                inProgressApply := w.tasks.inProgressApply + {(t, w.tasks.apply[t].region)});
      TakeApplyKeeps(w, t, w');
    } else if w.tasks.decompress != [] {
      TakeDecompKeeps(w, w');
    } else {
      TakeOtherKeeps(w, w', r);
    }
  }

  lemma TakeOtherKeeps(w: World, w': World, r: Option<WorkTask>)
    requires Inv(w) && (r.None? || r.value.ConstructTask?) && w' == Taken(w, w'.tasks, r)
    requires w'.tasks == w.tasks || w'.tasks == w.tasks.(construct := w'.tasks.construct)
    ensures Inv(w')
  {
    hide Queued, Begun, Latest, Faithful, Exclusive, Tracked, Counted, Fold;
  }

  /** Every step keeps the invariant. */
  lemma StepKeeps(w: World, ev: Event, w': World)
    requires Inv(w) && Step(w, ev, w')
    ensures Inv(w')
  {
    hide Inv;
    match ev {
      case Arrive(u) => ArriveKeeps(w, u, w');
      case Take =>
        var r :| TakeStep(w, w', r);
        TakeKeeps(w, w', r);
      case FinishDecomp(s) => FinishDecompKeeps(w, s, w');
      case Write(t, a) => WriteKeeps(w, t, a, w');
      case FinishApply(t) => FinishApplyKeeps(w, t, w');
      case Report => ReportKeeps(w, w');
    }
  }

  // ---- Runs ----

  ghost predicate IsRun(ws: seq<World>, evs: seq<Event>, base: Memory) {
    && |ws| == |evs| + 1 && ws[0] == Initial(base)
    && forall i :: 0 <= i < |evs| ==> Step(ws[i], evs[i], ws[i + 1])
  }

  /** The invariant holds at every point of every run. */
  lemma {:induction false} RunKeeps(ws: seq<World>, evs: seq<Event>, base: Memory, i: nat)
    requires IsRun(ws, evs, base) && i < |ws|
    ensures Inv(ws[i])
  {
    hide Inv, Step;
    if i == 0 {
      InvInitial(base);
    } else {
      RunKeeps(ws, evs, base, i - 1);
      StepKeeps(ws[i - 1], evs[i - 1], ws[i]);
    }
  }

  /** What `PopTask` requires for choosing a task, including the assertion it makes on the way. */
  lemma ChoiceSafe(w: World)
    requires Inv(w)
    ensures InOrder(w.tasks)
  {
    hide Latest, Faithful, Counted, Fold, Exclusive;
  }

  /** Only completing an apply makes it finished, and finished it stays. */
  lemma StepFinished(w: World, ev: Event, w': World, t: nat)
    requires Step(w, ev, w')
    ensures t in w.finished ==> t in w'.finished
    ensures t !in w.finished && t in w'.finished ==> t in w.applying && w'.log == w.log
  {
  }

  lemma {:induction false} FinishedStays(ws: seq<World>, evs: seq<Event>, base: Memory, t: nat, i: nat, j: nat)
    requires IsRun(ws, evs, base) && i <= j < |ws| && t in ws[i].finished
    ensures t in ws[j].finished
    decreases j - i
  {
    if i < j {
      hide Step;
      StepFinished(ws[i], evs[i], ws[i + 1], t);
      FinishedStays(ws, evs, base, t, i + 1, j);
    }
  }

  lemma OverlapNow(w: World, i: nat, j: nat)
    requires Inv(w) && i < j && j in w.applying && M.Overlap(w.log[i].region, w.log[j].region)
    ensures i in w.finished
  {
    hide Latest, Faithful, Counted, Fold, Queued, Tracked;
  }

  /** Of two overlapping updates the earlier one is completely applied before the later one starts. */
  lemma {:induction false} OverlapInOrder(ws: seq<World>, evs: seq<Event>, base: Memory, k: nat, i: nat, j: nat)
    requires IsRun(ws, evs, base) && k < |ws| && i < j < ws[k].started <= |ws[k].log|
    requires M.Overlap(ws[k].log[i].region, ws[k].log[j].region)
    ensures i in ws[k].finished
    decreases k
  {
    hide Inv, Step, M.Overlap;
    RunKeeps(ws, evs, base, k);
    if j in ws[k].applying {
      OverlapNow(ws[k], i, j);
    } else {
      WasFinished(ws[k], j);
      var w, w' := ws[k - 1], ws[k];
      RunKeeps(ws, evs, base, k - 1);
      assert Step(ws[k - 1], evs[k - 1], ws[k - 1 + 1]);
      StepFinished(w, evs[k - 1], w', j);
      if j in w.finished {
        EarlierLog(w, evs[k - 1], w', j);
        OverlapInOrder(ws, evs, base, k - 1, i, j);
        FinishedStays(ws, evs, base, i, k - 1, k);
      } else {
        StartedLog(w, j);
        OverlapNow(w, i, j);
        FinishedStays(ws, evs, base, i, k - 1, k);
      }
    }
  }

  lemma WasFinished(w: World, j: nat)
    requires Inv(w) && j < w.started && j !in w.applying
    ensures j in w.finished && w != Initial(w.base)
  {
    hide Latest, Faithful, Counted, Fold, Queued, Tracked;
  }

  lemma StartedLog(w: World, j: nat)
    requires Inv(w) && j in w.applying
    ensures j < w.started <= |w.log|
  {
    hide Latest, Faithful, Counted, Fold, Queued, Tracked;
  }

  lemma EarlierLog(w: World, ev: Event, w': World, j: nat)
    requires Inv(w) && Step(w, ev, w') && j in w.finished
    ensures j < w.started <= |w.log| && w.log <= w'.log
  {
    hide Latest, Faithful, Counted, Fold, Queued, Tracked;
  }

  /** Nothing queued, in progress or waiting. */
  predicate Drained(w: World) {
    w.tasks.decompress == [] && w.tasks.apply == map[] && w.decomping == map[] && w.applying == map[]
  }

  /** Once drained, memory is what applying the messages one after the other gives. */
  lemma DrainedIsSequential(w: World)
    requires Inv(w) && Drained(w)
    ensures w.mem == Fold(w.base, w.log)
  {
    hide Latest, Counted, Exclusive, Tracked, Fold;
    assert w.started < w.tasks.lastSeqno ==> w.started in w.decomping || w.started in w.tasks.apply;
    assert |w.log[w.tasks.lastSeqno..]| == 0;
    assert w.log[..w.started] == w.log;
    forall a ensures SameAt(w.mem, Fold(w.base, w.log), a) {
      assert !Unwritten(w.todo, a);
    }
    SameEverywhere(w.mem, Fold(w.base, w.log));
  }

  lemma SameEverywhere(m: Memory, n: Memory)
    requires forall a :: SameAt(m, n, a)
    ensures m == n
  {
    forall a ensures a in m <==> a in n { assert SameAt(m, n, a); }
    forall a | a in m && a in n ensures m[a] == n[a] { assert SameAt(m, n, a); }
  }

  /** The messages that arrived, in order. */
  function Arrivals(evs: seq<Event>): seq<Update> {
    if evs == [] then []
    else
      var e := evs[|evs| - 1];
      Arrivals(evs[..|evs| - 1]) + (if e.Arrive? then [e.update] else [])
  }

  lemma StepHistory(w: World, ev: Event, w': World)
    requires Step(w, ev, w')
    ensures w'.base == w.base && w'.log == w.log + (if ev.Arrive? then [ev.update] else [])
  {
    hide Popped, Count;
  }

  /** The log is what arrived, on top of the memory the run began with. */
  lemma {:induction false} RunHistory(ws: seq<World>, evs: seq<Event>, base: Memory, i: nat)
    requires IsRun(ws, evs, base) && i < |ws|
    ensures ws[i].base == base && ws[i].log == Arrivals(evs[..i])
  {
    hide Step;
    if i > 0 {
      RunHistory(ws, evs, base, i - 1);
      StepHistory(ws[i - 1], evs[i - 1], ws[i - 1 + 1]);
      assert evs[..i][..i - 1] == evs[..i - 1];
    }
  }

  /**
   * At every point of every run: the assertion in choosing an apply holds, no two
   * regions being written overlap, so that no lock on a mirror range is refused,
   * and once drained memory is what the messages that arrived give when applied one
   * after the other.
   */
  lemma RunSerialisable(ws: seq<World>, evs: seq<Event>, base: Memory, i: nat)
    requires IsRun(ws, evs, base) && i < |ws|
    ensures InOrder(ws[i].tasks)
    ensures forall s, t :: s in ws[i].applying && t in ws[i].applying && s != t ==>
      !M.Overlap(ws[i].applying[s].region, ws[i].applying[t].region)
    ensures Drained(ws[i]) ==> ws[i].mem == Fold(base, Arrivals(evs[..i]))
  {
    RunKeeps(ws, evs, base, i);
    RunHistory(ws, evs, base, i);
    ChoiceSafe(ws[i]);
    if Drained(ws[i]) { DrainedIsSequential(ws[i]); }
    hide Step, Queued, Begun, Tracked, Latest, Faithful, Counted, Fold, InOrder, Drained, Arrivals;
  }

  lemma {:induction false} NoneOutstanding(log: seq<Update>, finished: set<nat>, r: nat, n: nat, i: nat)
    requires i < n <= |log| && Outstanding(log, finished, r, n) == 0 && log[i].rid == r
    ensures i in finished
    decreases n
  {
    if i < n - 1 { NoneOutstanding(log, finished, r, n - 1, i); }
  }

  lemma {:induction false} FoldElsewhere(base: Memory, log: seq<Update>, m: nat, n: nat, a: Addr)
    requires m <= n <= |log| && forall i :: m <= i < n ==> a !in log[i].writes
    ensures SameAt(Fold(base, log[..m]), Fold(base, log[..n]), a)
    decreases n - m
  {
    if m < n {
      hide Fold;
      FoldMore(base, log, n - 1);
      FoldElsewhere(base, log, m, n - 1, a);
    }
  }

  /**
   * When the counter of an object is back to zero, every update to it that has
   * arrived is applied, and its bytes are those of the sequential result.
   */
  lemma CounterZero(w: World, r: nat)
    requires Inv(w) && Count(w.pending, r) == 0
    ensures forall i :: 0 <= i < |w.log| && w.log[i].rid == r ==> i in w.finished
    ensures forall a: Addr :: a.rid == r ==> SameAt(w.mem, Fold(w.base, w.log), a)
  {
    hide Latest, Exclusive, Tracked, Queued, Fold;
    forall i | 0 <= i < |w.log| && w.log[i].rid == r ensures i in w.finished {
      NoneOutstanding(w.log, w.finished, r, |w.log|, i);
    }
    hide Counted;
    forall a: Addr | a.rid == r ensures SameAt(w.mem, Fold(w.base, w.log), a) {
      CounterZeroAt(w, r, a);
    }
  }

  lemma CounterZeroAt(w: World, r: nat, a: Addr)
    requires Inv(w) && a.rid == r
    requires forall i :: 0 <= i < |w.log| && w.log[i].rid == r ==> i in w.finished
    ensures SameAt(w.mem, Fold(w.base, w.log), a)
  {
    hide Latest, Exclusive, Tracked, Queued, Fold, Counted;
    assert forall i :: w.started <= i < |w.log| ==> w.log[i].Valid() && w.log[i].rid != r;
    assert forall e :: e in w.todo ==> w.log[e.0].Valid() && w.log[e.0].rid != r;
    assert !Unwritten(w.todo, a);
    FoldElsewhere(w.base, w.log, w.started, |w.log|, a);
    assert w.log[..|w.log|] == w.log;
  }

  /** When no worker is busy there is always something to do, until everything is applied. */
  lemma NeverStuck(w: World)
    requires Inv(w) && w.decomping == map[] && w.applying == map[] && !Drained(w)
    ensures w.tasks.decompress != [] || exists t :: IsFirst(w.tasks, t) && MayApply(w.tasks, t)
  {
    hide Latest, Faithful, Counted, Fold, Exclusive;
    if w.tasks.decompress == [] {
      assert w.started < w.tasks.lastSeqno by {
        assert w.tasks.apply.Keys != {};
        var k :| k in w.tasks.apply;
      }
      assert w.started in w.tasks.apply;
      assert IsFirst(w.tasks, w.started) && MayApply(w.tasks, w.started);
    }
  }

  /** The updates among the first `n` that are not finished, in order. */
  ghost function Unfinished(log: seq<Update>, finished: set<nat>, n: nat): seq<Update>
    requires n <= |log|
  {
    if n == 0 then []
    else if n - 1 in finished then Unfinished(log, finished, n - 1)
    else Unfinished(log, finished, n - 1) + [log[n - 1]]
  }

  lemma FoldAppend(base: Memory, us: seq<Update>, u: Update)
    ensures Fold(base, us + [u]) == Fold(base, us) + u.writes
  {
    assert (us + [u])[..|us|] == us;
  }

  ghost predicate WrittenBefore(applying: map<nat, Update>, m: nat, a: Addr) {
    exists t :: t in applying && t < m && a in applying[t].writes
  }

  lemma WrittenNext(applying: map<nat, Update>, m: nat, a: Addr)
    ensures WrittenBefore(applying, m + 1, a) <==>
      WrittenBefore(applying, m, a) || (m in applying && a in applying[m].writes)
  {
    if s :| s in applying && s < m && a in applying[s].writes { assert s < m + 1; }
  }

  /** Repeating the applies in progress changes nothing but what they have still to store. */
  lemma {:induction false} RepeatBegun(applying: map<nat, Update>, log: seq<Update>, started: nat, finished: set<nat>,
                                       mem: Memory, f: Memory, m: nat, a: Addr)
    requires Begun(applying, log, started, finished) && Latest(applying, f) && m <= started
    ensures var r := Fold(mem, Unfinished(log, finished, m));
      if WrittenBefore(applying, m, a) then a in r && a in f && r[a] == f[a] else SameAt(r, mem, a)
    decreases m
  {
    hide Fold, Update.Valid, WrittenBefore;
    if m == 0 {
      FoldNothing(mem);
      assert !WrittenBefore(applying, 0, a) by { NoneBefore(applying, a); }
    } else {
      RepeatBegun(applying, log, started, finished, mem, f, m - 1, a);
      WrittenNext(applying, m - 1, a);
      if m - 1 !in finished {
        FoldAppend(mem, Unfinished(log, finished, m - 1), log[m - 1]);
      }
    }
  }

  lemma FoldNothing(mem: Memory)
    ensures Fold(mem, []) == mem
  {
  }

  lemma NoneBefore(applying: map<nat, Update>, a: Addr)
    ensures !WrittenBefore(applying, 0, a)
  {
  }

  lemma BegunSettles(w: World, a: Addr)
    requires Inv(w) && w.started <= |w.log|
    ensures SameAt(Fold(w.mem, Unfinished(w.log, w.finished, w.started)), Fold(w.base, w.log[..w.started]), a)
  {
    RepeatBegun(w.applying, w.log, w.started, w.finished, w.mem, Fold(w.base, w.log[..w.started]), w.started, a);
    hide Queued, Tracked, Counted, Exclusive, Fold, Update.Valid, Latest;
    if !WrittenBefore(w.applying, w.started, a) {
      assert !Unwritten(w.todo, a);
    }
  }

  /**
   * At every moment, applying the outstanding updates in order of arrival to the
   * memory as it is gives the sequential result of all messages that arrived.
   */
  lemma {:induction false} OutstandingCompletes(w: World, n: nat, a: Addr)
    requires Inv(w) && w.started <= n <= |w.log|
    ensures SameAt(Fold(w.mem, Unfinished(w.log, w.finished, n)), Fold(w.base, w.log[..n]), a)
    decreases n
  {
    hide Inv, Fold, SameAt;
    if n == w.started {
      BegunSettles(w, a);
    } else {
      OutstandingCompletes(w, n - 1, a);
      NotFinished(w, n - 1);
      FoldAppend(w.mem, Unfinished(w.log, w.finished, n - 1), w.log[n - 1]);
      FoldMore(w.base, w.log, n - 1);
      SameAtPlus(Fold(w.mem, Unfinished(w.log, w.finished, n - 1)), Fold(w.base, w.log[..n - 1]), w.log[n - 1].writes,
                 a);
    }
  }

  lemma NotFinished(w: World, i: nat)
    requires Inv(w) && w.started <= i
    ensures i !in w.finished
  {
    hide Queued, Tracked, Counted, Exclusive, Faithful, Latest, Fold;
  }

  lemma SameAtPlus(m: Memory, n: Memory, e: Memory, a: Addr)
    requires SameAt(m, n, a)
    ensures SameAt(m + e, n + e, a)
  {
  }
}

/** From every reachable state the system can come to rest: some continuation leaves nothing under way. */
module Progress {
  import opened Bytes
  import opened Replay
  import opened DiffFormat
  import opened DiffTask
  import opened DiffRound
  import opened Intervals
  import opened WireMsg
  import opened TaskQueue
  import opened Updates
  import opened Replica
  import DM = DiffMessage
  import S = Scheduler

  // ---- Paths ----

  ghost predicate IsPath(ss: seq<System>, evs: seq<Event>) {
    |ss| == |evs| + 1 && forall i :: 0 <= i < |evs| ==> Step(ss[i], evs[i], ss[i + 1])
  }

  ghost predicate PathBetween(ss: seq<System>, evs: seq<Event>, s: System, u: System) {
    IsPath(ss, evs) && ss[0] == s && ss[|evs|] == u
  }

  ghost predicate Reaches(s: System, u: System) {
    exists ss, evs :: PathBetween(ss, evs, s, u)
  }

  lemma ReachSelf(s: System)
    ensures Reaches(s, s)
  {
    assert PathBetween([s], [], s, s);
  }

  lemma ReachStep(s: System, ev: Event, t: System, u: System)
    requires Step(s, ev, t) && Reaches(t, u)
    ensures Reaches(s, u)
  {
    hide Step;
    var ss, evs :| PathBetween(ss, evs, t, u);
    var ss', evs' := [s] + ss, [ev] + evs;
    forall i | 0 <= i < |evs'| ensures Step(ss'[i], evs'[i], ss'[i + 1]) {
      if i > 0 { assert Step(ss[i - 1], evs[i - 1], ss[i]); }
    }
    assert PathBetween(ss', evs', s, u);
  }

  lemma ReachOn(s: System, t: System, u: System)
    requires Reaches(s, t) && Reaches(t, u)
    ensures Reaches(s, u)
  {
    hide Step;
    var ss, evs :| PathBetween(ss, evs, s, t);
    var ts, fvs :| PathBetween(ts, fvs, t, u);
    JoinPaths(ss, evs, ts, fvs);
    assert PathBetween(ss + ts[1..], evs + fvs, s, u);
  }

  lemma JoinPaths(ss: seq<System>, evs: seq<Event>, ts: seq<System>, fvs: seq<Event>)
    requires IsPath(ss, evs) && IsPath(ts, fvs) && ss[|evs|] == ts[0]
    ensures IsPath(ss + ts[1..], evs + fvs)
    ensures (ss + ts[1..])[0] == ss[0] && (ss + ts[1..])[|evs| + |fvs|] == ts[|fvs|]
  {
    hide Step;
    var us, gvs := ss + ts[1..], evs + fvs;
    forall i | 0 <= i < |gvs| ensures Step(us[i], gvs[i], us[i + 1]) {
      if i < |evs| {
        assert us[i] == ss[i] && us[i + 1] == ss[i + 1];
      } else {
        var j := i - |evs|;
        assert us[i] == ts[j] && us[i + 1] == ts[j + 1] && gvs[i] == fvs[j];
      }
    }
  }

  // ---- A task can always run ----

  predicate Inside(l: seq<Interval>, size: nat) {
    forall i :: 0 <= i < |l| ==> l[i].lo <= l[i].hi <= size
  }

  /** One record for each interval. */
  function Whole(target: seq<Byte>, l: seq<Interval>): seq<ByteRecord>
    requires Inside(l, |target|)
  {
    if l == [] then []
    else
      var n := l[|l| - 1];
      Whole(target, l[..|l| - 1]) + [Record(n.lo, target[n.lo..n.hi])]
  }

  lemma {:induction false} WholeEffect(target: seq<Byte>, l: seq<Interval>, x: nat)
    requires Inside(l, |target|)
    ensures x in Effect(Whole(target, l)) <==> Covers(l, x)
    ensures Covers(l, x) ==> x < |target| && Effect(Whole(target, l))[x] == target[x]
    decreases |l|
  {
    if l != [] {
      var init, n := l[..|l| - 1], l[|l| - 1];
      WholeEffect(target, init, x);
      assert l == init + [n];
      CoversAppend(init, n, x);
      EffectMore(Whole(target, init), Record(n.lo, target[n.lo..n.hi]));
      hide Effect, Covers, Whole;
      assert x in Writes(Record(n.lo, target[n.lo..n.hi])) <==> n.Has(x);
    }
  }

  lemma {:induction false} WholeEncodes(target: seq<Byte>, l: seq<Interval>)
    requires Diffable(l, 0, |target|) && |target| < U32_LIMIT && Inside(l, |target|)
    ensures AllEncodable(Whole(target, l)) && |Encode(Whole(target, l))| == Space(l)
    decreases |l|
  {
    if l == [] {
      DecodeNothing();
    } else {
      var init, n := l[..|l| - 1], l[|l| - 1];
      assert Diffable(init, 0, |target|) && Inside(init, |target|);
      DiffableAt(l, 0, |target|, |l| - 1);
      WholeEncodes(target, init);
      SpaceMore(l, |l| - 1);
      assert l[..|l|] == l;
      hide Space, Encode, AllEncodable, Diffable, EncodeOne;
      RecordEncodes(target, n);
      EncodeLast(Whole(target, init), Record(n.lo, target[n.lo..n.hi]));
    }
  }

  lemma RecordEncodes(target: seq<Byte>, n: Interval)
    requires n.lo < n.hi <= |target| < U32_LIMIT && n.lo % 4 == 0 && (n.hi - n.lo) % 64 == 0
    ensures Encodable(Record(n.lo, target[n.lo..n.hi]))
  {
    ChunkWords(n.hi - n.lo);
  }

  /** Records for a task: none if nothing changed, everything otherwise. */
  ghost function SomeRecords(was: seq<Byte>, target: seq<Byte>, l: seq<Interval>): seq<ByteRecord>
    requires Inside(l, |target|)
  {
    if Same(was, target, l) then [] else Whole(target, l)
  }

  lemma SomeDiffed(was: seq<Byte>, target: seq<Byte>, l: seq<Interval>)
    requires Inside(l, |target|) && |was| == |target|
    ensures var rs := SomeRecords(was, target, l); Diffed(rs, was, Override(was, 0, Effect(rs)), target, l)
  {
    hide Effect, Covers, Whole;
    var rs := SomeRecords(was, target, l);
    if Same(was, target, l) {
      NoneEffect(was);
    } else {
      var now := Override(was, 0, Effect(rs));
      forall x: nat ensures x in Effect(rs) <==> Covers(l, x) { WholeEffect(target, l, x); }
      forall x: nat | x in Effect(rs) ensures x < |target| && Effect(rs)[x] == target[x] { WholeEffect(target, l, x); }
      forall x | 0 <= x < |now| && x < |target| && Covers(l, x) ensures now[x] == target[x] { assert 0 + x == x; }
    }
  }

  lemma NoneEffect(was: seq<Byte>)
    ensures Effect<Byte>([]) == map[] && Override(was, 0, Effect([])) == was
  {
  }

  lemma TaskInside(t: DiffTask, size: nat)
    requires WellFormed(t, size)
    ensures Inside(t.intervals, size) && Diffable(t.intervals, 0, size)
  {
  }

  lemma SomeEncodes(was: seq<Byte>, target: seq<Byte>, l: seq<Interval>)
    requires Diffable(l, 0, |target|) && |target| < U32_LIMIT && Inside(l, |target|) && 0 <= Space(l)
    ensures var rs := SomeRecords(was, target, l); AllEncodable(rs) && |Encode(rs)| <= Space(l)
  {
    hide Space, Encode, Same, Diffable;
    DecodeNothing();
    if !Same(was, target, l) { WholeEncodes(target, l); }
  }

  /** Whatever the buffer holds, a task that is running can finish. */
  lemma TaskCanRun(f: File, rid: nat, size: nat, total: map<nat, Byte>, i: nat, target: seq<Byte>)
    returns (d: Diff, m: seq<Byte>)
    requires FileOk(f, rid, size, total) && i in f.running && |target| == size < U32_LIMIT && rid < U32_LIMIT
    ensures RunStep(f, rid, size, i, target, d, m)
  {
    hide *;
    FileParts(f, rid, size, total);
    TaskFacts(f, rid, size, i);
    var t, was := f.round[i], f.mirror;
    TaskInside(t, size);
    var rs := SomeRecords(was, target, t.intervals);
    SomeDiffed(was, target, t.intervals);
    SomeEncodes(was, target, t.intervals);
    var mid := Override(was, 0, Effect(rs));
    TrailFits(t.trailing, size);
    m := Patched(mid, size - t.trailing, Tail(target, t.trailing));
    var n := if Tail(mid, t.trailing) != Tail(target, t.trailing) then t.trailing else 0;
    d := Diff(rs, Tail(target, n));
    TaskAssembles(t, target, was, mid, m, rs, n);
    RunNow(f, rid, size, i, target, d, m);
  }

  lemma TrailFits(trailing: nat, size: nat)
    requires trailing <= Min(size, 63)
    ensures trailing <= size && trailing <= 63
  {
  }

  lemma RunNow(f: File, rid: nat, size: nat, i: nat, target: seq<Byte>, d: Diff, m: seq<Byte>)
    requires i in f.running && i < |f.round| && |target| == size && rid < U32_LIMIT
    requires |d.tail| <= f.round[i].trailing <= 63 && |d.tail| <= size && d.tail == Tail(target, |d.tail|)
    requires TaskDone(f.round[i], target, f.mirror, m, d.rs, |d.tail|)
    requires AllEncodable(d.rs) && |Encode(d.rs)| <= 0x24_0000
    ensures RunStep(f, rid, size, i, target, d, m)
  {
    hide TaskDone, AllEncodable, Encode;
  }

  // ---- The sending side ----

  /** Ids and sizes fit the fields that carry them, and there is a snapshot of every buffer. */
  predicate Snapshots(sizes: map<nat, nat>, contents: map<nat, seq<Byte>>) {
    forall r :: r in sizes ==> r < U32_LIMIT && sizes[r] < U32_LIMIT && r in contents && |contents[r]| == sizes[r]
  }

  ghost function Jobs(files: map<nat, File>): set<(nat, nat)> {
    set r, i | r in files && i in files[r].running :: (r, i)
  }

  ghost function Unsent(files: map<nat, File>): set<(nat, nat)> {
    set r, i | r in files && i in files[r].results :: (r, i)
  }

  lemma JobDone(files: map<nat, File>, r: nat, i: nat, f: File)
    requires r in files && i in files[r].running && f.running == files[r].running - {i}
    ensures Jobs(files[r := f]) == Jobs(files) - {(r, i)}
  {
  }

  lemma ResultSent(files: map<nat, File>, r: nat, i: nat, f: File)
    requires r in files && i in files[r].results && f.results == files[r].results - {i} && f.running == files[r].running
    ensures Unsent(files[r := f]) == Unsent(files) - {(r, i)} && Jobs(files[r := f]) == Jobs(files)
  {
  }

  lemma SmallerSet<T>(a: set<T>, x: T)
    requires x in a
    ensures |a - {x}| < |a|
  {
  }

  lemma RunOne(s: System, r: nat, i: nat, target: seq<Byte>) returns (ev: Event, t: System)
    requires Inv(s) && r in s.files && i in s.files[r].running
    requires r in s.sizes && r < U32_LIMIT && |target| == s.sizes[r] < U32_LIMIT
    ensures Step(s, ev, t) && Inv(t) && ev.RunTask?
    ensures t.sizes == s.sizes && Jobs(t.files) == Jobs(s.files) - {(r, i)}
  {
    hide *;
    InvParts(s);
    TheFile(s, r);
    var d, m := TaskCanRun(s.files[r], r, s.sizes[r], Total(s.sent, r, s.sizes[r]), i, target);
    ev := RunTask(r, i, target, d, m);
    t := s.(files := s.files[r := Ran(s.files[r], i, d, m)]);
    RunIsStep(s, r, i, target, d, m);
    StepKeeps(s, ev, t);
    RanRunning(s.files[r], i, d, m);
    JobDone(s.files, r, i, Ran(s.files[r], i, d, m));
  }

  lemma RunIsStep(s: System, r: nat, i: nat, target: seq<Byte>, d: Diff, m: seq<Byte>)
    requires r in s.files && r in s.sizes && RunStep(s.files[r], r, s.sizes[r], i, target, d, m)
    ensures Step(s, RunTask(r, i, target, d, m), s.(files := s.files[r := Ran(s.files[r], i, d, m)]))
  {
    hide RunStep, Ran;
  }

  lemma RanRunning(f: File, i: nat, d: Diff, m: seq<Byte>)
    ensures Ran(f, i, d, m).running == f.running - {i}
  {
  }

  lemma SnapshotOf(s: System, contents: map<nat, seq<Byte>>, r: nat)
    requires Inv(s) && Snapshots(s.sizes, contents) && r in s.files
    ensures r in s.sizes && r in contents && r < U32_LIMIT && |contents[r]| == s.sizes[r] < U32_LIMIT
  {
    hide Inv;
    InvParts(s);
    hide FileOk, StreamOk, LogOk, S.Inv;
  }

  lemma SomeJob(files: map<nat, File>, e: (nat, nat))
    requires e in Jobs(files)
    ensures e.0 in files && e.1 in files[e.0].running && e == (e.0, e.1)
  {
  }

  lemma SomeUnsent(files: map<nat, File>, e: (nat, nat))
    requires e in Unsent(files)
    ensures e.0 in files && e.1 in files[e.0].results && e == (e.0, e.1)
  {
  }

  /** All tasks that are running finish, each on the snapshot given for its buffer. */
  lemma {:induction false} RunAll(s: System, contents: map<nat, seq<Byte>>) returns (u: System)
    requires Inv(s) && Snapshots(s.sizes, contents)
    ensures Reaches(s, u) && Inv(u) && u.sizes == s.sizes && Jobs(u.files) == {}
    decreases |Jobs(s.files)|
  {
    hide *;
    if Jobs(s.files) == {} {
      u := s;
      ReachSelf(s);
    } else {
      var e :| e in Jobs(s.files);
      SomeJob(s.files, e);
      SnapshotOf(s, contents, e.0);
      var ev, t := RunOne(s, e.0, e.1, contents[e.0]);
      SmallerSet(Jobs(s.files), e);
      u := RunAll(t, contents);
      ReachStep(s, ev, t, u);
    }
  }

  lemma CollectOne(s: System, r: nat, i: nat) returns (t: System)
    requires Inv(s) && r in s.files && i in s.files[r].results
    ensures Step(s, Collect(r, i), t) && Inv(t) && t.sizes == s.sizes
    ensures Unsent(t.files) == Unsent(s.files) - {(r, i)} && Jobs(t.files) == Jobs(s.files)
  {
    hide *;
    InvParts(s);
    TheFile(s, r);
    ResultOk(s.files[r], r, s.sizes[r], Total(s.sent, r, s.sizes[r]), i);
    var d := s.files[r].results[i];
    t := if IsNull(d) then s.(files := s.files[r := Collected(s.files[r], i)])
         else s.(files := s.files[r := Collected(s.files[r], i)], sent := s.sent + [Patch(r, d)],
                 stream := s.stream + MessageOf(d, r, s.sizes[r]));
    CollectIsStep(s, r, i, t);
    StepKeeps(s, Collect(r, i), t);
    CollectedResults(s.files[r], i);
    ResultSent(s.files, r, i, Collected(s.files[r], i));
  }

  lemma ResultOk(f: File, rid: nat, size: nat, total: map<nat, Byte>, i: nat)
    requires FileOk(f, rid, size, total) && i in f.results
    ensures DiffOk(f.results[i], rid, size)
  {
    hide MirrorOk, AllWellFormed, Independent, DiffOk, KeepsTo;
  }

  lemma CollectIsStep(s: System, r: nat, i: nat, t: System)
    requires r in s.files && r in s.sizes && i in s.files[r].results && DiffOk(s.files[r].results[i], r, s.sizes[r])
    requires var d := s.files[r].results[i];
      t == if IsNull(d) then s.(files := s.files[r := Collected(s.files[r], i)])
           else s.(files := s.files[r := Collected(s.files[r], i)], sent := s.sent + [Patch(r, d)],
                   stream := s.stream + MessageOf(d, r, s.sizes[r]))
    ensures Step(s, Collect(r, i), t)
  {
    hide DiffOk, IsNull, Collected, MessageOf;
  }

  lemma CollectedResults(f: File, i: nat)
    ensures Collected(f, i).results == f.results - {i} && Collected(f, i).running == f.running
  {
  }

  /** All results are sent. */
  lemma {:induction false} CollectAll(s: System) returns (u: System)
    requires Inv(s) && Jobs(s.files) == {}
    ensures Reaches(s, u) && Inv(u) && u.sizes == s.sizes && FilesQuiet(u.files)
    decreases |Unsent(s.files)|
  {
    hide *;
    if Unsent(s.files) == {} {
      u := s;
      ReachSelf(s);
      NothingLeft(s.files);
    } else {
      var e :| e in Unsent(s.files);
      SomeUnsent(s.files, e);
      var t := CollectOne(s, e.0, e.1);
      SmallerSet(Unsent(s.files), e);
      u := CollectAll(t);
      ReachStep(s, Collect(e.0, e.1), t, u);
    }
  }

  lemma NothingLeft(files: map<nat, File>)
    requires Jobs(files) == {} && Unsent(files) == {}
    ensures FilesQuiet(files)
  {
    forall r | r in files ensures FileQuiet(files[r]) {
      assert forall i :: i in files[r].running ==> (r, i) in Jobs(files);
      assert forall i :: i in files[r].results ==> (r, i) in Unsent(files);
      assert files[r].running == {} && files[r].results.Keys == {};
    }
  }

  // ---- The stream ----

  /** The rest of the stream is read. */
  lemma ReadAll(s: System) returns (u: System)
    requires Inv(s)
    ensures Reaches(s, u) && Inv(u) && u.files == s.files && u.sizes == s.sizes && u.taken == |u.stream|
  {
    hide *;
    InvParts(s);
    TakenFits(s);
    u := s.(taken := |s.stream|);
    ReadIsStep(s, u);
    StepKeeps(s, Read(|s.stream| - s.taken), u);
    ReachSelf(u);
    ReachStep(s, Read(|s.stream| - s.taken), u, u);
  }

  lemma TakenFits(s: System)
    requires StreamOk(s.sent, s.stream, s.taken, s.sizes)
    ensures s.taken <= |s.stream|
  {
  }

  lemma ReadIsStep(s: System, u: System)
    requires s.taken <= |s.stream| && u == s.(taken := |s.stream|)
    ensures Step(s, Read(|s.stream| - s.taken), u)
  {
  }

  lemma HandleOne(s: System) returns (ev: Event, t: System)
    requires Inv(s) && Waiting(s)
    ensures Step(s, ev, t) && Inv(t) && (ev.Deliver? || ev.Pass?) && t.files == s.files && t.sizes == s.sizes
    ensures t.stream == s.stream && t.taken == s.taken && t.handled == s.handled + 1
  {
    hide *;
    WaitingFits(s);
    if HasDiffType(Delivered(s)[s.handled]) {
      var span, s' := DeliverEnabled(s);
      ev, t := Deliver(span), s';
      DeliverChanges(s, span, t);
    } else {
      ev, t := Pass, s.(handled := s.handled + 1);
      PassIsStep(s);
    }
    StepKeeps(s, ev, t);
  }

  lemma WaitingFits(s: System)
    requires Waiting(s)
    ensures s.taken <= |s.stream| && s.handled < |Delivered(s)|
  {
  }

  lemma DeliverChanges(s: System, span: Interval, t: System)
    requires Step(s, Deliver(span), t)
    ensures t.files == s.files && t.sizes == s.sizes && t.stream == s.stream && t.taken == s.taken &&
      t.handled == s.handled + 1
  {
    hide DeliverStep, Waiting, HasDiffType, Delivered;
  }

  lemma PassIsStep(s: System)
    requires Waiting(s) && !HasDiffType(Delivered(s)[s.handled])
    ensures Step(s, Pass, s.(handled := s.handled + 1))
  {
    hide HasDiffType, Delivered;
  }

  /** Every message is handled. */
  lemma {:induction false} HandleAll(s: System) returns (u: System)
    requires Inv(s) && s.taken == |s.stream|
    ensures Reaches(s, u) && Inv(u) && u.files == s.files && u.sizes == s.sizes
    ensures u.taken == |u.stream| && u.handled == |Frames(u.stream).msgs|
    decreases |Frames(s.stream).msgs| - s.handled
  {
    hide *;
    InvParts(s);
    HandledBound(s);
    if s.handled == |Frames(s.stream).msgs| {
      u := s;
      ReachSelf(s);
    } else {
      StillWaiting(s);
      var ev, t := HandleOne(s);
      u := HandleAll(t);
      ReachStep(s, ev, t, u);
    }
  }

  lemma HandledBound(s: System)
    requires StreamOk(s.sent, s.stream, s.taken, s.sizes) && LogOk(s.world.log, s.sent, s.handled, s.sizes) &&
      s.taken == |s.stream|
    ensures s.handled <= |Frames(s.stream).msgs|
  {
    hide StreamOk, Frames, UpdatesOf;
    AllHandled(s);
  }

  lemma StillWaiting(s: System)
    requires s.taken == |s.stream| && s.handled < |Frames(s.stream).msgs|
    ensures Waiting(s)
  {
    assert s.stream[..s.taken] == s.stream;
  }

  // ---- The workers ----

  /** How far the workers' updates have still to go. */
  function Load(w: S.World): nat {
    4 * |w.tasks.decompress| + 3 * |w.decomping| + 2 * |w.tasks.apply| + |w.applying|
  }

  ghost predicate Closer(w: S.World, w': S.World) {
    Load(w') < Load(w) || (Load(w') == Load(w) && |w'.todo| < |w.todo|)
  }

  lemma MapLess<V>(m: map<nat, V>, k: nat)
    requires k in m
    ensures |m - {k}| == |m| - 1
  {
    assert (m - {k}).Keys == m.Keys - {k};
  }

  lemma MapMore<V>(m: map<nat, V>, k: nat, v: V)
    requires k !in m
    ensures |m[k := v]| == |m| + 1
  {
  }

  lemma DecompCloser(w: S.World, s: nat) returns (w': S.World)
    requires S.Inv(w) && s in w.decomping
    ensures S.Step(w, S.FinishDecomp(s), w') && Closer(w, w')
  {
    hide S.Begun, S.Tracked, S.Latest, S.Faithful, S.Counted, S.Fold, S.Exclusive;
    w' := w.(tasks := Decompressed(w.tasks, s, w.decomping[s]), decomping := w.decomping - {s});
    MapLess(w.decomping, s);
    MapMore(w.tasks.apply, s, w.decomping[s]);
  }

  lemma WriteCloser(w: S.World, t: nat, a: Addr) returns (w': S.World)
    requires S.Inv(w) && t in w.applying && (t, a) in w.todo
    ensures S.Step(w, S.Write(t, a), w') && Closer(w, w')
  {
    hide S.Begun, S.Tracked, S.Latest, S.Queued, S.Counted, S.Fold, S.Exclusive;
    assert (t, a).0 in w.applying && (t, a).1 in w.applying[(t, a).0].writes;
    w' := w.(mem := w.mem[a := w.applying[t].writes[a]], todo := w.todo - {(t, a)});
    SmallerSet(w.todo, (t, a));
  }

  lemma ApplyCloser(w: S.World, t: nat) returns (w': S.World)
    requires t in w.applying && forall a :: (t, a) !in w.todo
    ensures S.Step(w, S.FinishApply(t), w') && Closer(w, w')
  {
    w' := w.(tasks := Released(w.tasks, t, w.applying[t]), applying := w.applying - {t},
             finished := w.finished + {t}, outbox := w.outbox + [w.applying[t].rid]);
    MapLess(w.applying, t);
  }

  lemma TakeApplyCloser(w: S.World, t: nat) returns (w': S.World)
    requires S.Inv(w) && IsFirst(w.tasks, t) && MayApply(w.tasks, t)
    ensures S.Step(w, S.Take, w') && Closer(w, w')
  {
    hide S.Inv, MayApply;
    var u := w.tasks.apply[t];
    var tasks := w.tasks.(apply := w.tasks.apply - {t}, inProgressApply := w.tasks.inProgressApply + {(t, u.region)});
    w' := S.Taken(w, tasks, Some(ApplyTask(t, u)));
    NotApplying(w, t);
    assert S.TakeStep(w, w', Some(ApplyTask(t, u)));
    MapLess(w.tasks.apply, t);
    MapMore(w.applying, t, u);
  }

  lemma NotApplying(w: S.World, t: nat)
    requires S.Inv(w) && t in w.tasks.apply
    ensures t !in w.applying
  {
    hide S.Tracked, S.Latest, S.Faithful, S.Counted, S.Fold, S.Exclusive;
  }

  lemma TakeDecompCloser(w: S.World) returns (w': S.World)
    requires S.Inv(w) && w.tasks.decompress != [] && !exists t :: IsFirst(w.tasks, t) && MayApply(w.tasks, t)
    ensures S.Step(w, S.Take, w') && Closer(w, w')
  {
    hide S.Inv, MayApply;
    var s, u := w.tasks.lastSeqno, w.tasks.decompress[0];
    var tasks := w.tasks.(lastSeqno := s + 1, decompress := w.tasks.decompress[1..],
                          inProgressDecomp := w.tasks.inProgressDecomp + {s});
    w' := S.Taken(w, tasks, Some(DecompTask(s, u)));
    NotDecomping(w);
    assert S.TakeStep(w, w', Some(DecompTask(s, u)));
    MapMore(w.decomping, s, u);
  }

  lemma NotDecomping(w: S.World)
    requires S.Inv(w)
    ensures w.tasks.lastSeqno !in w.decomping
  {
    hide S.Tracked, S.Latest, S.Faithful, S.Counted, S.Fold, S.Exclusive, S.Begun;
  }

  /** Until everything is applied, some worker can take a step that brings the end closer. */
  lemma WorkCloser(w: S.World) returns (e: S.Event, w': S.World)
    requires S.Inv(w) && !S.Drained(w)
    ensures !e.Arrive? && S.Step(w, e, w') && Closer(w, w')
  {
    hide S.Inv, S.Step, Closer, MayApply;
    if s :| s in w.decomping {
      e := S.FinishDecomp(s);
      w' := DecompCloser(w, s);
    } else if t :| t in w.applying {
      if a :| (t, a) in w.todo {
        e := S.Write(t, a);
        w' := WriteCloser(w, t, a);
      } else {
        e := S.FinishApply(t);
        w' := ApplyCloser(w, t);
      }
    } else {
      assert w.decomping.Keys == {} && w.applying.Keys == {};
      S.NeverStuck(w);
      e := S.Take;
      if t :| IsFirst(w.tasks, t) && MayApply(w.tasks, t) {
        w' := TakeApplyCloser(w, t);
      } else {
        w' := TakeDecompCloser(w);
      }
    }
  }

  /** The workers finish everything they were given. */
  lemma {:induction false} DrainAll(s: System) returns (u: System)
    requires Inv(s)
    ensures Reaches(s, u) && Inv(u) && u == s.(world := u.world) && S.Drained(u.world)
    decreases Load(s.world), |s.world.todo|
  {
    hide *;
    if S.Drained(s.world) {
      u := s;
      ReachSelf(s);
    } else {
      InvParts(s);
      var e, w' := WorkCloser(s.world);
      CloserIs(s.world, w');
      var t := s.(world := w');
      WorkIsStep(s, e, w');
      StepKeeps(s, Work(e), t);
      u := DrainAll(t);
      ReachStep(s, Work(e), t, u);
    }
  }

  lemma CloserIs(w: S.World, w': S.World)
    requires Closer(w, w')
    ensures Load(w') < Load(w) || (Load(w') == Load(w) && |w'.todo| < |w.todo|)
  {
  }

  lemma WorkIsStep(s: System, e: S.Event, w': S.World)
    requires !e.Arrive? && S.Step(s.world, e, w')
    ensures Step(s, Work(e), s.(world := w'))
  {
    hide S.Step;
  }

  // ---- However the workers go on ----

  /** The bytes that updates not started yet have to store. */
  ghost function Later(log: seq<Update>, n: nat): nat
    decreases |log| - n
  {
    if n >= |log| then 0 else |log[n].writes| + Later(log, n + 1)
  }

  /** A bound on the steps the workers and their reports can still take. */
  ghost function Rank(w: S.World): nat {
    2 * Load(w) + |w.todo| + |w.outbox| + |w.tasks.construct| + Later(w.log, w.started)
  }

  lemma {:induction false} PairCount(t: nat, s: set<Addr>)
    ensures |set a | a in s :: (t, a)| <= |s|
  {
    var pairs := set a | a in s :: (t, a);
    if s != {} {
      var b :| b in s;
      PairCount(t, s - {b});
      assert pairs == (set a | a in s - {b} :: (t, a)) + {(t, b)};
    } else {
      assert pairs == {};
    }
  }

  lemma StoresCount(t: nat, u: Update)
    ensures |S.AllOf(t, u)| <= |u.writes|
  {
    PairCount(t, u.writes.Keys);
    assert S.AllOf(t, u) == set a | a in u.writes.Keys :: (t, a);
  }

  lemma UnionCount<T>(a: set<T>, b: set<T>)
    ensures |a + b| <= |a| + |b|
  {
    assert a + b == a + (b - a);
  }

  /** Taking an apply. */
  lemma TakeApplyRank(w: S.World, t: nat, w': S.World)
    requires S.Inv(w) && t in w.tasks.apply && IsFirst(w.tasks, t) && MayApply(w.tasks, t)
    requires w'.tasks == w.tasks.(apply := w.tasks.apply - {t},
                                  inProgressApply := w.tasks.inProgressApply + {(t, w.tasks.apply[t].region)})
    requires w' == S.Taken(w, w'.tasks, Some(ApplyTask(t, w.tasks.apply[t])))
    ensures Rank(w') < Rank(w)
  {
    hide S.Inv, MayApply, IsFirst, S.AllOf, Later;
    S.NextToApply(w, t);
    NotApplying(w, t);
    ApplyParts(w, t, w.tasks.apply[t]);
    LaterNext(w.log, t);
  }

  lemma ApplyParts(w: S.World, t: nat, u: Update)
    requires t in w.tasks.apply && t !in w.applying
    ensures |w.tasks.apply - {t}| == |w.tasks.apply| - 1 && |w.applying[t := u]| == |w.applying| + 1
    ensures |w.todo + S.AllOf(t, u)| <= |w.todo| + |u.writes|
  {
    hide S.AllOf;
    MapLess(w.tasks.apply, t);
    MapMore(w.applying, t, u);
    StoresCount(t, u);
    UnionCount(w.todo, S.AllOf(t, u));
  }

  lemma LaterNext(log: seq<Update>, n: nat)
    requires n < |log|
    ensures Later(log, n) == |log[n].writes| + Later(log, n + 1)
  {
  }

  lemma TakeDecompRank(w: S.World, w': S.World)
    requires S.Inv(w) && w.tasks.decompress != []
    requires w'.tasks == w.tasks.(lastSeqno := w.tasks.lastSeqno + 1, decompress := w.tasks.decompress[1..],
                                  inProgressDecomp := w.tasks.inProgressDecomp + {w.tasks.lastSeqno})
    requires w' == S.Taken(w, w'.tasks, Some(DecompTask(w.tasks.lastSeqno, w.tasks.decompress[0])))
    ensures Rank(w') < Rank(w)
  {
    hide S.Inv, Later;
    NotDecomping(w);
    MapMore(w.decomping, w.tasks.lastSeqno, w.tasks.decompress[0]);
  }

  lemma TakeConstructRank(w: S.World, w': S.World)
    requires w.tasks.construct != [] && w'.tasks == w.tasks.(construct := w.tasks.construct[1..])
    requires w' == S.Taken(w, w'.tasks, Some(ConstructTask(w.tasks.construct[0])))
    ensures Rank(w') < Rank(w)
  {
    hide Later;
  }

  lemma TakeRank(w: S.World, w': S.World, r: Option<WorkTask>)
    requires S.Inv(w) && S.TakeStep(w, w', r) && w' != w
    ensures Rank(w') < Rank(w)
  {
    hide S.Inv, MayApply, S.AllOf, Rank;
    if exists t :: IsFirst(w.tasks, t) && MayApply(w.tasks, t) {
      var t :| IsFirst(w.tasks, t) && t in w.tasks.apply && MayApply(w.tasks, t) &&
        r == Some(ApplyTask(t, w.tasks.apply[t])) &&
        w'.tasks == w.tasks.(apply := w.tasks.apply - {t},
                             inProgressApply := w.tasks.inProgressApply + {(t, w.tasks.apply[t].region)});
      TakeApplyRank(w, t, w');
    } else if w.tasks.decompress != [] {
      TakeDecompRank(w, w');
    } else if w.tasks.construct != [] {
      TakeConstructRank(w, w');
    }
  }

  lemma FinishRank(w: S.World, e: S.Event, w': S.World)
    requires S.Inv(w) && S.Step(w, e, w') && (e.FinishDecomp? || e.FinishApply?)
    ensures Rank(w') < Rank(w)
  {
    hide S.Begun, S.Tracked, S.Latest, S.Faithful, S.Counted, S.Fold, S.Exclusive, Later;
    if e.FinishDecomp? {
      MapLess(w.decomping, e.seqno);
      MapMore(w.tasks.apply, e.seqno, w.decomping[e.seqno]);
    } else {
      MapLess(w.applying, e.seqno);
    }
  }

  /** Whatever the workers do short of nothing, unless a message arrives, brings the end closer. */
  lemma EveryWorkStep(w: S.World, e: S.Event, w': S.World)
    requires S.Inv(w) && S.Step(w, e, w') && !e.Arrive? && w' != w
    ensures Rank(w') < Rank(w)
  {
    match e {
      case Take =>
        var r :| S.TakeStep(w, w', r);
        TakeRank(w, w', r);
      case FinishDecomp(s) => FinishRank(w, e, w');
      case FinishApply(s) => FinishRank(w, e, w');
      case Write(s, a) => SmallerSet(w.todo, (s, a));
      case Report =>
    }
  }

  /** Steps of the workers and the receipt of their reports, each of which changes something. */
  ghost predicate IsWork(ws: seq<S.World>, evs: seq<S.Event>) {
    |ws| == |evs| + 1 && forall i :: 0 <= i < |evs| ==> WorkStep(ws[i], evs[i], ws[i + 1])
  }

  ghost predicate WorkStep(w: S.World, e: S.Event, w': S.World) {
    S.Step(w, e, w') && !e.Arrive? && w' != w
  }

  /**
   * Without arrivals the workers stop after boundedly many steps, in whatever order
   * they take them; if they stop because no step is left, everything is applied.
   */
  lemma {:induction false} WorkIsBounded(ws: seq<S.World>, evs: seq<S.Event>)
    requires IsWork(ws, evs) && S.Inv(ws[0])
    ensures S.Inv(ws[|evs|]) && |evs| + Rank(ws[|evs|]) <= Rank(ws[0])
    ensures (forall e, w' :: !WorkStep(ws[|evs|], e, w')) ==> S.Drained(ws[|evs|])
    decreases |evs|
  {
    hide S.Inv, S.Step, Rank, S.Drained;
    if evs != [] {
      var n := |evs| - 1;
      assert WorkStep(ws[n], evs[n], ws[n + 1]);
      assert IsWork(ws[..|evs|], evs[..n]);
      WorkIsBounded(ws[..|evs|], evs[..n]);
      S.StepKeeps(ws[n], evs[n], ws[n + 1]);
      EveryWorkStep(ws[n], evs[n], ws[n + 1]);
    }
    var w := ws[|evs|];
    if !S.Drained(w) {
      var e, w' := WorkCloser(w);
      CloserDiffers(w, w');
      assert WorkStep(w, e, w');
    }
  }

  lemma CloserDiffers(w: S.World, w': S.World)
    requires Closer(w, w')
    ensures w != w'
  {
  }

  // ---- However the whole system goes on ----

  /** A step that changes something and brings in no new work. */
  ghost predicate Busy(s: System, ev: Event, s': System) {
    Step(s, ev, s') && s' != s && !ev.StartRound? && !ev.Send?
  }

  function Left(a: nat, b: nat): nat { if a > b then a - b else 0 }

  /** Tasks to run, then results to send, bytes to read, messages to handle, and work for the workers. */
  ghost predicate Nearer(s: System, s': System) {
    || |Jobs(s'.files)| < |Jobs(s.files)|
    || (&& |Jobs(s'.files)| == |Jobs(s.files)|
        && (|| |Unsent(s'.files)| < |Unsent(s.files)|
            || (&& |Unsent(s'.files)| == |Unsent(s.files)|
                && (|| Left(|s'.stream|, s'.taken) < Left(|s.stream|, s.taken)
                    || (&& Left(|s'.stream|, s'.taken) == Left(|s.stream|, s.taken)
                        && (|| Left(|s'.sent|, s'.handled) < Left(|s.sent|, s.handled)
                            || (&& Left(|s'.sent|, s'.handled) == Left(|s.sent|, s.handled)
                                && Rank(s'.world) < Rank(s.world))))))))
  }

  lemma RunNearer(s: System, ev: Event, s': System)
    requires Step(s, ev, s') && ev.RunTask?
    ensures Nearer(s, s')
  {
    hide TaskDone, AllEncodable, Encode, DM.Sendable, Rank, Unsent;
    JobDone(s.files, ev.rid, ev.index, s'.files[ev.rid]);
    SmallerSet(Jobs(s.files), (ev.rid, ev.index));
  }

  lemma CollectNearer(s: System, ev: Event, s': System)
    requires Step(s, ev, s') && ev.Collect?
    ensures Nearer(s, s')
  {
    hide DiffOk, Rank;
    ResultSent(s.files, ev.rid, ev.index, Collected(s.files[ev.rid], ev.index));
    SmallerSet(Unsent(s.files), (ev.rid, ev.index));
  }

  lemma HandleNearer(s: System, ev: Event, s': System)
    requires Inv(s) && Step(s, ev, s') && (ev.Deliver? || ev.Pass?)
    ensures Nearer(s, s')
  {
    hide Inv, DeliverStep, HasDiffType, Waiting, Rank, Jobs, Unsent;
    InvParts(s);
    NextMessage(s);
  }

  /** Every such step brings the whole system nearer to rest. */
  lemma EveryStepNearer(s: System, ev: Event, s': System)
    requires Inv(s) && Busy(s, ev, s')
    ensures Nearer(s, s')
  {
    hide Inv, Rank, Jobs, Unsent;
    match ev {
      case RunTask(r, i, target, d, m) => RunNearer(s, ev, s');
      case Collect(r, i) => CollectNearer(s, ev, s');
      case Read(k) =>
      case Deliver(span) => HandleNearer(s, ev, s');
      case Pass => HandleNearer(s, ev, s');
      case Work(e) =>
        InvParts(s);
        EveryWorkStep(s.world, e, s'.world);
    }
  }

  lemma SenderStep(s: System, contents: map<nat, seq<Byte>>) returns (ev: Event, s': System)
    requires Inv(s) && Snapshots(s.sizes, contents) && !FilesQuiet(s.files)
    ensures Busy(s, ev, s')
  {
    hide *;
    if e :| e in Jobs(s.files) {
      SomeJob(s.files, e);
      SnapshotOf(s, contents, e.0);
      ev, s' := RunOne(s, e.0, e.1, contents[e.0]);
      assert s'.files != s.files && ev.RunTask?;
    } else if e :| e in Unsent(s.files) {
      SomeUnsent(s.files, e);
      s' := CollectOne(s, e.0, e.1);
      ev := Collect(e.0, e.1);
      assert s'.files != s.files;
    } else {
      assert Jobs(s.files) == {} && Unsent(s.files) == {};
      NothingLeft(s.files);
    }
    BusyNow(s, ev, s');
  }

  lemma ReceiverStep(s: System) returns (ev: Event, s': System)
    requires Inv(s) && FilesQuiet(s.files) && !Quiet(s)
    ensures Busy(s, ev, s')
  {
    hide *;
    InvParts(s);
    TakenFits(s);
    if s.taken < |s.stream| {
      ev, s' := Read(|s.stream| - s.taken), s.(taken := |s.stream|);
      ReadIsStep(s, s');
    } else {
      HandledBound(s);
      if s.handled < |Frames(s.stream).msgs| {
        StillWaiting(s);
        ev, s' := HandleOne(s);
      } else {
        if S.Drained(s.world) { QuietNow(s); }
        var e, w' := WorkCloser(s.world);
        CloserDiffers(s.world, w');
        WorkIsStep(s, e, w');
        ev, s' := Work(e), s.(world := w');
      }
    }
    BusyNow(s, ev, s');
  }

  lemma BusyNow(s: System, ev: Event, s': System)
    requires Step(s, ev, s') && s' != s && !ev.StartRound? && !ev.Send?
    ensures Busy(s, ev, s')
  {
  }

  /** As long as the system is not at rest there is such a step. */
  lemma AlwaysAStep(s: System, contents: map<nat, seq<Byte>>) returns (ev: Event, s': System)
    requires Inv(s) && Snapshots(s.sizes, contents) && !Quiet(s)
    ensures Busy(s, ev, s')
  {
    hide *;
    if FilesQuiet(s.files) {
      ev, s' := ReceiverStep(s);
    } else {
      ev, s' := SenderStep(s, contents);
    }
  }

  /** The sequence of states goes on with such steps for as long as it is not at rest. */
  ghost predicate GoesOn(f: nat -> System, g: nat -> Event, n: nat) {
    Quiet(f(n)) || Busy(f(n), g(n), f(n + 1))
  }

  /** However the system goes on without new work, it comes to rest. */
  lemma {:induction false} ComesToRest(f: nat -> System, g: nat -> Event, n: nat) returns (m: nat)
    requires Inv(f(n)) && forall k: nat :: GoesOn(f, g, k)
    ensures m >= n && Inv(f(m)) && Quiet(f(m))
    decreases |Jobs(f(n).files)|, |Unsent(f(n).files)|, Left(|f(n).stream|, f(n).taken),
      Left(|f(n).sent|, f(n).handled), Rank(f(n).world)
  {
    hide Inv, Step, Quiet, Jobs, Unsent, Rank;
    if Quiet(f(n)) {
      m := n;
    } else {
      assert GoesOn(f, g, n);
      EveryStepNearer(f(n), g(n), f(n + 1));
      StepKeeps(f(n), g(n), f(n + 1));
      m := ComesToRest(f, g, n + 1);
    }
  }

  // ---- Coming to rest ----

  /** From every state that satisfies the invariant, whatever the buffers hold, the system can come to rest. */
  lemma QuietReachable(s: System, contents: map<nat, seq<Byte>>) returns (u: System)
    requires Inv(s) && Snapshots(s.sizes, contents)
    ensures Reaches(s, u) && Inv(u) && Quiet(u) && u.sizes == s.sizes
  {
    hide *;
    var a := RunAll(s, contents);
    var b := CollectAll(a);
    var c := ReadAll(b);
    var d := HandleAll(c);
    u := DrainAll(d);
    ReachOn(s, a, b);
    ReachOn(s, b, c);
    ReachOn(s, c, d);
    ReachOn(s, d, u);
    QuietNow(u);
  }

  lemma QuietNow(u: System)
    requires FilesQuiet(u.files) && u.taken == |u.stream| && u.handled == |Frames(u.stream).msgs| && S.Drained(u.world)
    ensures Quiet(u)
  {
  }

  /** Every copy at the receiver is the sender's mirror. */
  ghost predicate AllAgree(s: System) {
    forall st: Store, r, x: nat :: r in s.sizes && x < s.sizes[r] ==> Agrees(s, st, r, x)
  }

  predicate Agrees(s: System, st: Store, r: nat, x: nat) {
    Addr(st, r, x) in s.world.mem && MirrorHas(s, r, x, s.world.mem[Addr(st, r, x)])
  }

  lemma RestAgrees(s: System)
    requires Inv(s) && Quiet(s)
    ensures AllAgree(s)
  {
    hide Inv, Quiet;
    forall st: Store, r, x: nat | r in s.sizes && x < s.sizes[r] ensures Agrees(s, st, r, x) {
      QuietAgrees(s, st, r, x);
    }
  }

  /** However the system goes on without new work, it reaches a point where all copies of all files agree. */
  lemma AlwaysConverges(f: nat -> System, g: nat -> Event) returns (m: nat)
    requires Inv(f(0)) && forall k: nat :: GoesOn(f, g, k)
    ensures Quiet(f(m)) && AllAgree(f(m))
  {
    hide Inv, Quiet, AllAgree, GoesOn;
    m := ComesToRest(f, g, 0);
    RestAgrees(f(m));
  }

  /** Every run can be continued to a point where all copies of all files agree. */
  lemma RunCanConverge(ss: seq<System>, evs: seq<Event>, sizes: map<nat, nat>, contents: map<nat, seq<Byte>>)
    returns (ss': seq<System>, evs': seq<Event>)
    requires IsRun(ss, evs, sizes) && Snapshots(ss[|evs|].sizes, contents)
    ensures IsRun(ss', evs', sizes) && ss <= ss' && evs <= evs' && Quiet(ss'[|evs'|])
    ensures AllAgree(ss'[|evs'|])
  {
    hide Step, Inv, Quiet, Initial, AllAgree;
    RunKeeps(ss, evs, sizes, |evs|);
    var u := QuietReachable(ss[|evs|], contents);
    var ts, fvs :| PathBetween(ts, fvs, ss[|evs|], u);
    JoinPaths(ss, evs, ts, fvs);
    ss', evs' := ss + ts[1..], evs + fvs;
    assert ss'[|evs'|] == u;
    RestAgrees(u);
  }
}

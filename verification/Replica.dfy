/**
 * Shared-memory files kept in step: rounds of diff tasks on one side, a byte
 * stream in between, and the workers of the other side.
 */
module Replica {
  import opened Bytes
  import opened Replay
  import opened DiffFormat
  import opened DiffTask
  import opened DiffRound
  import opened Updates
  import opened Intervals
  import opened WireMsg
  import DM = DiffMessage
  import A = DiffApply
  import opened TaskQueue
  import S = Scheduler

  /** The outcome of a diff task: its records and the changed bytes at the end of the buffer. */
  datatype Diff = Diff(rs: seq<ByteRecord>, tail: seq<Byte>)

  /** What goes over the stream: a diff of file `rid`, or a message of another type. */
  datatype Sent = Patch(rid: nat, diff: Diff) | Other(bytes: seq<Byte>)

  /** The sending side of one file. */
  datatype File = File(mirror: seq<Byte>, round: seq<DiffTask>, running: set<nat>, results: map<nat, Diff>)

  /** The files and their sizes, both ends of the stream and everything in between. */
  datatype System = System(
    sizes: map<nat, nat>,
    files: map<nat, File>,
    sent: seq<Sent>,
    stream: seq<Byte>,
    taken: nat,
    handled: nat,
    world: S.World)

  ghost predicate DiffOk(d: Diff, rid: nat, size: nat) {
    && |d.tail| <= size && AllEncodable(d.rs) && A.RecordsWithin(d.rs, 0, size - |d.tail|)
    && DM.Sendable(DM.Body(rid, Encode(d.rs), d.tail))
  }

  predicate IsNull(d: Diff) { d.rs == [] && d.tail == [] }

  function EffectOf(d: Diff, size: nat): map<nat, Byte> {
    if |d.tail| <= size then FullEffect(d.rs, d.tail, size) else map[]
  }

  ghost function MessageOf(d: Diff, rid: nat, size: nat): seq<Byte>
    requires DiffOk(d, rid, size)
  {
    DM.Build(DM.Body(rid, Encode(d.rs), d.tail))
  }

  /** A complete message is a diff, going by the type in its header. */
  predicate HasDiffType(m: seq<Byte>): (diff: bool)
    ensures diff <==> |m| >= 4 && U32(m) % 32 == 6
  {
    |m| >= 4 && ParseHeader(U32(m)).Some? && ParseHeader(U32(m)).value.1 == BUFFER_DIFF
  }

  ghost predicate SentOk(x: Sent, sizes: map<nat, nat>) {
    match x
    case Patch(rid, d) => rid in sizes && DiffOk(d, rid, sizes[rid]) && !IsNull(d)
    case Other(b) => IsMessage(b) && !HasDiffType(b)
  }

  ghost function BytesOf(x: Sent, sizes: map<nat, nat>): seq<Byte>
    requires SentOk(x, sizes)
  {
    match x
    case Patch(rid, d) => MessageOf(d, rid, sizes[rid])
    case Other(b) => b
  }

  /** The bytes a diff stores at the receiver: in the mapping and in its mirror. */
  function WritesOf(e: map<nat, Byte>, rid: nat): Memory {
    (map k | k in e :: Addr(Mapping, rid, k) := e[k]) + (map k | k in e :: Addr(MirrorCopy, rid, k) := e[k])
  }

  lemma WritesAt(e: map<nat, Byte>, rid: nat, st: Store, r: nat, k: nat)
    ensures Addr(st, r, k) in WritesOf(e, rid) <==> r == rid && k in e
    ensures r == rid && k in e ==> WritesOf(e, rid)[Addr(st, r, k)] == e[k]
  {
  }

  /** New files are all zero on both sides. */
  function Blank(sizes: map<nat, nat>): Memory {
    (map r, k: nat | r in sizes && 0 <= k < sizes[r] :: Addr(Mapping, r, k) := 0) +
    (map r, k: nat | r in sizes && 0 <= k < sizes[r] :: Addr(MirrorCopy, r, k) := 0)
  }

  function Initial(sizes: map<nat, nat>): System {
    System(sizes, map r | r in sizes :: File(Zeros(sizes[r]), [], {}, map[]), [], [], 0, 0, S.Initial(Blank(sizes)))
  }

  /**
   * Steps of the whole system. A round of independent tasks on a file starts when
   * the previous one has been sent; each task diffs its own snapshot of the
   * buffer; results are sent in any order, mixed with messages of other types;
   * the receiver reads the stream in pieces of any size, hands complete diffs to
   * its workers, and the workers take steps.
   */
  datatype Event =
    | StartRound(rid: nat, tasks: seq<DiffTask>)
    | RunTask(rid: nat, index: nat, target: seq<Byte>, diff: Diff, mirror: seq<Byte>)
    | Collect(rid: nat, index: nat)
    | Send(bytes: seq<Byte>)
    | Read(count: nat)
    | Deliver(span: Interval)
    | Pass
    | Work(event: S.Event)

  function Delivered(s: System): seq<seq<Byte>>
    requires s.taken <= |s.stream|
  {
    Frames(s.stream[..s.taken]).msgs
  }

  /** There is a message that was read and not handled yet. */
  predicate Waiting(s: System) {
    s.taken <= |s.stream| && s.handled < |Delivered(s)|
  }

  ghost predicate DeliverStep(s: System, span: Interval, w': S.World)
    requires Waiting(s)
  {
    match DM.Parse(Delivered(s)[s.handled])
    case None => false
    case Some(b) =>
      match Decode(b.core)
      case None => false
      case Some(rs) =>
        && b.rid in s.sizes && |b.tail| <= s.sizes[b.rid] && A.IsSpan(span, rs, |b.tail|, s.sizes[b.rid])
        && S.Step(s.world, S.Arrive(Update(b.rid, span, WritesOf(FullEffect(rs, b.tail, s.sizes[b.rid]), b.rid))), w')
  }

  function Indices(n: nat): (s: set<nat>)
    ensures forall i :: i in s <==> 0 <= i < n
  {
    if n == 0 then {} else Indices(n - 1) + {n - 1}
  }

  function Started(f: File, tasks: seq<DiffTask>): File {
    f.(round := tasks, running := Indices(|tasks|))
  }

  ghost predicate StartStep(f: File, size: nat, tasks: seq<DiffTask>) {
    f.running == {} && f.results == map[] && AllWellFormed(tasks, size) && Independent(tasks, size)
  }

  ghost predicate RunStep(f: File, rid: nat, size: nat, i: nat, target: seq<Byte>, d: Diff, m: seq<Byte>) {
    && i in f.running && i < |f.round| && |target| == size && |d.tail| <= size && d.tail == Tail(target, |d.tail|)
    && TaskDone(f.round[i], target, f.mirror, m, d.rs, |d.tail|) && |d.tail| <= f.round[i].trailing
    && AllEncodable(d.rs) && DM.Sendable(DM.Body(rid, Encode(d.rs), d.tail))
  }

  function Ran(f: File, i: nat, d: Diff, m: seq<Byte>): File {
    f.(mirror := m, running := f.running - {i}, results := f.results[i := d])
  }

  function Collected(f: File, i: nat): File {
    f.(results := f.results - {i})
  }

  ghost predicate Step(s: System, ev: Event, s': System) {
    match ev
    case StartRound(r, tasks) =>
      && r in s.files && r in s.sizes && StartStep(s.files[r], s.sizes[r], tasks)
      && s' == s.(files := s.files[r := Started(s.files[r], tasks)])
    case RunTask(r, i, target, d, m) =>
      && r in s.files && r in s.sizes && RunStep(s.files[r], r, s.sizes[r], i, target, d, m)
      && s' == s.(files := s.files[r := Ran(s.files[r], i, d, m)])
    case Collect(r, i) =>
      && r in s.files && r in s.sizes && i in s.files[r].results
      && var d := s.files[r].results[i];
         && DiffOk(d, r, s.sizes[r])
         && s' == if IsNull(d) then s.(files := s.files[r := Collected(s.files[r], i)])
                  else s.(files := s.files[r := Collected(s.files[r], i)], sent := s.sent + [Patch(r, d)],
                          stream := s.stream + MessageOf(d, r, s.sizes[r]))
    case Send(b) =>
      SentOk(Other(b), s.sizes) && s' == s.(sent := s.sent + [Other(b)], stream := s.stream + b)
    case Read(k) => s.taken + k <= |s.stream| && s' == s.(taken := s.taken + k)
    case Deliver(span) =>
      && Waiting(s) && HasDiffType(Delivered(s)[s.handled])
      && DeliverStep(s, span, s'.world) && s' == s.(world := s'.world, handled := s.handled + 1)
    case Pass =>
      Waiting(s) && !HasDiffType(Delivered(s)[s.handled]) && s' == s.(handled := s.handled + 1)
    case Work(e) => !e.Arrive? && S.Step(s.world, e, s'.world) && s' == s.(world := s'.world)
  }

  /** What the diffs of file `rid` among those sent do together. */
  function Total(sent: seq<Sent>, rid: nat, size: nat): map<nat, Byte> {
    if sent == [] then map[]
    else
      var x := sent[|sent| - 1];
      Total(sent[..|sent| - 1], rid, size) + (if x.Patch? && x.rid == rid then EffectOf(x.diff, size) else map[])
  }

  ghost predicate AllSentOk(sent: seq<Sent>, sizes: map<nat, nat>) {
    forall i :: 0 <= i < |sent| ==> SentOk(sent[i], sizes)
  }

  ghost function Messages(sent: seq<Sent>, sizes: map<nat, nat>): seq<seq<Byte>>
    requires AllSentOk(sent, sizes)
  {
    seq(|sent|, i requires 0 <= i < |sent| => BytesOf(sent[i], sizes))
  }

  /** The updates that the diffs sent amount to at the receiver. */
  function UpdatesOf(sent: seq<Sent>, sizes: map<nat, nat>): seq<(nat, Memory)> {
    if sent == [] then []
    else
      var x, us := sent[|sent| - 1], UpdatesOf(sent[..|sent| - 1], sizes);
      if x.Patch? && x.rid in sizes then us + [(x.rid, WritesOf(EffectOf(x.diff, sizes[x.rid]), x.rid))] else us
  }

  // ---- What every step keeps ----

  ghost predicate InResults(results: map<nat, Diff>, size: nat, x: nat) {
    exists i :: i in results && x in EffectOf(results[i], size)
  }

  /** The mirror already has what the diff says. */
  ghost predicate Held(mirror: seq<Byte>, d: Diff, size: nat) {
    forall x :: x in EffectOf(d, size) ==> x < size && x < |mirror| && mirror[x] == EffectOf(d, size)[x]
  }

  /** The sender's mirror: what was sent, overridden by results not sent yet. */
  ghost predicate MirrorOk(mirror: seq<Byte>, results: map<nat, Diff>, total: map<nat, Byte>, size: nat) {
    && |mirror| == size
    && (forall i :: i in results ==> Held(mirror, results[i], size))
    && (forall x :: 0 <= x < size && !InResults(results, size, x) ==> mirror[x] == ValueAt(total, x))
  }

  /** A byte of a blank buffer after the writes of `total`. */
  function ValueAt(total: map<nat, Byte>, x: nat): Byte {
    if x in total then total[x] else 0
  }

  /** The diff changes only bytes that its task examines. */
  ghost predicate KeepsTo(d: Diff, t: DiffTask, size: nat) {
    forall x :: x in EffectOf(d, size) ==> Examines(t, size, x)
  }

  /** Tasks of a round and their results keep to their own bytes. */
  ghost predicate RoundOk(round: seq<DiffTask>, running: set<nat>, results: map<nat, Diff>, rid: nat, size: nat) {
    && AllWellFormed(round, size) && Independent(round, size)
    && (forall i :: i in running ==> i < |round| && i !in results)
    && (forall i :: i in results ==> i < |round| && DiffOk(results[i], rid, size))
    && (forall i :: i in results ==> KeepsTo(results[i], round[i], size))
  }

  /** One file at the sending side, given what was sent of it. */
  ghost predicate FileOk(f: File, rid: nat, size: nat, total: map<nat, Byte>) {
    MirrorOk(f.mirror, f.results, total, size) && RoundOk(f.round, f.running, f.results, rid, size)
  }

  ghost predicate FilesOk(files: map<nat, File>, sizes: map<nat, nat>, sent: seq<Sent>) {
    files.Keys == sizes.Keys && forall r :: r in files ==> FileOk(files[r], r, sizes[r], Total(sent, r, sizes[r]))
  }

  ghost predicate StreamOk(sent: seq<Sent>, stream: seq<Byte>, taken: nat, sizes: map<nat, nat>) {
    AllSentOk(sent, sizes) && stream == Flat(Messages(sent, sizes)) && taken <= |stream|
  }

  /** Every update at the receiver is one of the diffs sent, in the order sent. */
  ghost predicate LogOk(log: seq<Update>, sent: seq<Sent>, handled: nat, sizes: map<nat, nat>) {
    && handled <= |sent| && |log| == |UpdatesOf(sent[..handled], sizes)|
    && forall k :: 0 <= k < |log| ==> (log[k].rid, log[k].writes) == UpdatesOf(sent[..handled], sizes)[k]
  }

  ghost predicate Inv(s: System) {
    && FilesOk(s.files, s.sizes, s.sent)
    && StreamOk(s.sent, s.stream, s.taken, s.sizes)
    && LogOk(s.world.log, s.sent, s.handled, s.sizes)
    && S.Inv(s.world) && s.world.base == Blank(s.sizes)
  }

  lemma InvInitial(sizes: map<nat, nat>)
    ensures Inv(Initial(sizes))
  {
    S.InvInitial(Blank(sizes));
    hide S.Inv, Blank;
    forall r | r in sizes ensures FileOk(Initial(sizes).files[r], r, sizes[r], Total([], r, sizes[r])) {
      NewFile(r, sizes[r]);
    }
  }

  lemma NewFile(rid: nat, size: nat)
    ensures FileOk(File(Zeros(size), [], {}, map[]), rid, size, Total([], rid, size))
  {
  }

  /** Only one file changed, and it is still right. */
  lemma OneFile(files: map<nat, File>, sizes: map<nat, nat>, sent: seq<Sent>, r: nat, f: File)
    requires FilesOk(files, sizes, sent) && r in files && FileOk(f, r, sizes[r], Total(sent, r, sizes[r]))
    ensures FilesOk(files[r := f], sizes, sent)
  {
    hide FileOk, Total;
  }

  lemma TheFile(s: System, r: nat)
    requires FilesOk(s.files, s.sizes, s.sent)
    ensures r in s.files <==> r in s.sizes
    ensures r in s.files ==> FileOk(s.files[r], r, s.sizes[r], Total(s.sent, r, s.sizes[r]))
  {
  }

  lemma StartFile(f: File, rid: nat, size: nat, total: map<nat, Byte>, tasks: seq<DiffTask>)
    requires FileOk(f, rid, size, total) && StartStep(f, size, tasks)
    ensures FileOk(Started(f, tasks), rid, size, total)
  {
    hide MirrorOk, AllWellFormed, Independent, DiffOk, EffectOf, Examines;
  }

  lemma StartRoundKeeps(s: System, r: nat, tasks: seq<DiffTask>, s': System)
    requires Inv(s) && Step(s, StartRound(r, tasks), s')
    ensures Inv(s')
  {
    hide S.Inv, FileOk, StreamOk, LogOk, Total, Blank, StartStep, Started, FilesOk;
    TheFile(s, r);
    StartFile(s.files[r], r, s.sizes[r], Total(s.sent, r, s.sizes[r]), tasks);
    OneFile(s.files, s.sizes, s.sent, r, Started(s.files[r], tasks));
  }

  /** Independent tasks do not look at the same byte. */
  lemma ApartDisjoint(t: DiffTask, u: DiffTask, size: nat, x: nat)
    requires t.trailing <= size && u.trailing <= size && WellFormed(t, size) && WellFormed(u, size) && Apart(t, u, size)
    requires Examines(t, size, x)
    ensures !Examines(u, size, x)
  {
    InRegion(t, size, x);
    InRegion(u, size, x);
  }

  lemma InRegion(t: DiffTask, size: nat, x: nat)
    requires WellFormed(t, size)
    ensures Covers(t.intervals, x) ==> t.region.Some? && t.region.value.Has(x)
  {
    if Covers(t.intervals, x) {
      var l := t.intervals;
      var i :| 0 <= i < |l| && l[i].Has(x);
      assert i > 0 ==> l[0].hi <= l[i].lo;
      assert i < |l| - 1 ==> l[i].hi <= l[|l| - 1].lo;
    }
  }

  lemma RunTaskMirror(mirror: seq<Byte>, results: map<nat, Diff>, total: map<nat, Byte>, size: nat, i: nat, d: Diff,
                      m: seq<Byte>)
    requires MirrorOk(mirror, results, total, size) && i !in results
    requires m == Override(mirror, 0, EffectOf(d, size))
    requires forall x :: x in EffectOf(d, size) ==> x < size && !InResults(results, size, x)
    ensures MirrorOk(m, results[i := d], total, size)
  {
    hide EffectOf;
    var e, results' := EffectOf(d, size), results[i := d];
    forall j | j in results' ensures Held(m, results'[j], size) {
      if j == i { HeldNow(mirror, m, d, size); } else { HeldStill(mirror, m, results, j, d, size); }
    }
    hide Held, InResults;
    forall x | 0 <= x < size && !InResults(results', size, x) ensures m[x] == ValueAt(total, x) {
      ResultsMore(results, i, d, size, x);
      assert 0 + x !in e;
    }
  }

  lemma HeldNow(mirror: seq<Byte>, m: seq<Byte>, d: Diff, size: nat)
    requires |mirror| == size && m == Override(mirror, 0, EffectOf(d, size))
    requires forall x :: x in EffectOf(d, size) ==> x < size
    ensures Held(m, d, size)
  {
    hide EffectOf;
    forall x | x in EffectOf(d, size) ensures m[x] == EffectOf(d, size)[x] { assert 0 + x == x; }
  }

  lemma HeldStill(mirror: seq<Byte>, m: seq<Byte>, results: map<nat, Diff>, j: nat, d: Diff, size: nat)
    requires |mirror| == size && m == Override(mirror, 0, EffectOf(d, size)) && j in results &&
      Held(mirror, results[j], size)
    requires forall x :: x in EffectOf(d, size) ==> !InResults(results, size, x)
    ensures Held(m, results[j], size)
  {
    hide EffectOf;
    forall x | x in EffectOf(results[j], size) ensures x < size && m[x] == mirror[x] {
      assert InResults(results, size, x);
      assert 0 + x !in EffectOf(d, size);
    }
  }

  lemma ResultsMore(results: map<nat, Diff>, i: nat, d: Diff, size: nat, x: nat)
    requires i !in results
    ensures InResults(results[i := d], size, x) <==> InResults(results, size, x) || x in EffectOf(d, size)
  {
    hide EffectOf;
    var results' := results[i := d];
    if j :| j in results && x in EffectOf(results[j], size) { assert results'[j] == results[j]; }
    if x in EffectOf(d, size) { assert i in results' && results'[i] == d; }
  }

  lemma RunTaskDiff(t: DiffTask, rid: nat, target: seq<Byte>, d: Diff, was: seq<Byte>, m: seq<Byte>)
    requires WellFormed(t, |target|) && |d.tail| <= t.trailing <= |target| && d.tail == Tail(target, |d.tail|)
    requires TaskDone(t, target, was, m, d.rs, |d.tail|)
    requires AllEncodable(d.rs) && DM.Sendable(DM.Body(rid, Encode(d.rs), d.tail))
    ensures DiffOk(d, rid, |target|)
    ensures m == Override(was, 0, EffectOf(d, |target|))
    ensures forall x :: x in EffectOf(d, |target|) ==> x < |target| && Examines(t, |target|, x)
  {
    hide WellFormed, Covers, Effect, Override, Encode, AllEncodable, DM.Sendable, A.RecordsWithin, Examines;
    RecordsBeforeTail(t, |target|, d.rs, |d.tail|);
  }

  lemma ExaminedByOne(f: File, rid: nat, size: nat, i: nat, x: nat)
    requires RoundOk(f.round, f.running, f.results, rid, size)
    requires i in f.running && i < |f.round| && Examines(f.round[i], size, x)
    ensures !InResults(f.results, size, x)
  {
    hide WellFormed, Examines, EffectOf, DiffOk, Apart, Space;
    if InResults(f.results, size, x) {
      var j :| j in f.results && x in EffectOf(f.results[j], size);
      assert KeepsTo(f.results[j], f.round[j], size);
      ApartDisjoint(f.round[i], f.round[j], size, x);
    }
  }

  lemma RunTaskRound(f: File, rid: nat, size: nat, i: nat, d: Diff)
    requires RoundOk(f.round, f.running, f.results, rid, size) && i in f.running && i < |f.round|
    requires DiffOk(d, rid, size) && KeepsTo(d, f.round[i], size)
    ensures RoundOk(f.round, f.running - {i}, f.results[i := d], rid, size)
  {
    hide AllWellFormed, Independent, DiffOk, EffectOf, Examines;
  }

  lemma TaskFacts(f: File, rid: nat, size: nat, i: nat)
    requires RoundOk(f.round, f.running, f.results, rid, size) && i in f.running
    ensures i < |f.round| && i !in f.results && WellFormed(f.round[i], size) && f.round[i].trailing <= Min(size, 63)
    ensures 0 <= Space(f.round[i].intervals) <= 0x24_0000
  {
    hide WellFormed, Examines, EffectOf, DiffOk, Apart, Space;
  }

  lemma FileParts(f: File, rid: nat, size: nat, total: map<nat, Byte>)
    requires FileOk(f, rid, size, total)
    ensures RoundOk(f.round, f.running, f.results, rid, size) && |f.mirror| == size
  {
    hide RoundOk, InResults, Held;
  }

  lemma RunFile(f: File, rid: nat, size: nat, total: map<nat, Byte>, i: nat, target: seq<Byte>, d: Diff, m: seq<Byte>)
    requires FileOk(f, rid, size, total) && RunStep(f, rid, size, i, target, d, m)
    ensures FileOk(Ran(f, i, d, m), rid, size, total)
  {
    hide MirrorOk, RoundOk, TaskDone, AllEncodable, DM.Sendable, Encode, EffectOf, Override, WellFormed, Examines,
      DiffOk, InResults;
    TaskFacts(f, rid, size, i);
    RunTaskDiff(f.round[i], rid, target, d, f.mirror, m);
    forall x | x in EffectOf(d, size) ensures !InResults(f.results, size, x) { ExaminedByOne(f, rid, size, i, x); }
    RunTaskRound(f, rid, size, i, d);
    RunTaskMirror(f.mirror, f.results, total, size, i, d, m);
  }

  lemma RunTaskKeeps(s: System, r: nat, i: nat, target: seq<Byte>, d: Diff, m: seq<Byte>, s': System)
    requires Inv(s) && Step(s, RunTask(r, i, target, d, m), s')
    ensures Inv(s')
  {
    hide S.Inv, FileOk, StreamOk, LogOk, Total, Blank, RunStep, Ran, FilesOk;
    TheFile(s, r);
    RunFile(s.files[r], r, s.sizes[r], Total(s.sent, r, s.sizes[r]), i, target, d, m);
    OneFile(s.files, s.sizes, s.sent, r, Ran(s.files[r], i, d, m));
  }

  lemma NullEffect(d: Diff, size: nat)
    requires IsNull(d)
    ensures EffectOf(d, size) == map[]
  {
    assert Writes(Record(size - |d.tail|, d.tail)) == map[];
  }

  lemma ResultsLess(results: map<nat, Diff>, i: nat, size: nat, x: nat)
    requires i in results
    ensures InResults(results, size, x) <==> InResults(results - {i}, size, x) || x in EffectOf(results[i], size)
  {
    hide EffectOf;
    var results' := results - {i};
    if j :| j in results' && x in EffectOf(results'[j], size) { assert j in results && results[j] == results'[j]; }
    if j :| j in results && x in EffectOf(results[j], size) && j != i {
      assert j in results' && results'[j] == results[j];
    }
  }

  lemma CollectMirror(mirror: seq<Byte>, results: map<nat, Diff>, total: map<nat, Byte>, size: nat, i: nat)
    requires MirrorOk(mirror, results, total, size) && i in results
    ensures MirrorOk(mirror, results - {i}, total + EffectOf(results[i], size), size)
  {
    hide EffectOf, InResults;
    var e, results', total' := EffectOf(results[i], size), results - {i}, total + EffectOf(results[i], size);
    forall x | 0 <= x < size && !InResults(results', size, x) ensures mirror[x] == ValueAt(total', x) {
      ResultsLess(results, i, size, x);
      assert Held(mirror, results[i], size);
    }
  }

  lemma CollectRound(f: File, rid: nat, size: nat, i: nat)
    requires RoundOk(f.round, f.running, f.results, rid, size) && i in f.results
    ensures RoundOk(f.round, f.running, f.results - {i}, rid, size)
  {
    hide AllWellFormed, Independent, DiffOk, EffectOf, Examines;
  }

  lemma CollectFile(f: File, rid: nat, size: nat, total: map<nat, Byte>, i: nat)
    requires FileOk(f, rid, size, total) && i in f.results
    ensures FileOk(Collected(f, i), rid, size, total + EffectOf(f.results[i], size))
    ensures IsNull(f.results[i]) ==> FileOk(Collected(f, i), rid, size, total)
  {
    hide MirrorOk, RoundOk, EffectOf, IsNull;
    CollectRound(f, rid, size, i);
    CollectMirror(f.mirror, f.results, total, size, i);
    if IsNull(f.results[i]) {
      NullEffect(f.results[i], size);
      assert total + map[] == total;
    }
  }

  lemma TotalMore(sent: seq<Sent>, x: Sent, rid: nat, size: nat)
    ensures Total(sent + [x], rid, size) ==
      Total(sent, rid, size) + (if x.Patch? && x.rid == rid then EffectOf(x.diff, size) else map[])
    ensures !(x.Patch? && x.rid == rid) ==> Total(sent + [x], rid, size) == Total(sent, rid, size)
  {
    assert (sent + [x])[..|sent|] == sent;
    hide EffectOf, Total;
    assert Total(sent, rid, size) + map[] == Total(sent, rid, size);
  }

  /** One more diff was sent: only its own file is concerned. */
  lemma FilesSent(files: map<nat, File>, sizes: map<nat, nat>, sent: seq<Sent>, r: nat, f: File, d: Diff)
    requires FilesOk(files, sizes, sent) && r in files &&
      FileOk(f, r, sizes[r], Total(sent, r, sizes[r]) + EffectOf(d, sizes[r]))
    ensures FilesOk(files[r := f], sizes, sent + [Patch(r, d)])
  {
    hide FileOk, Total, EffectOf;
    forall q | q in files[r := f]
      ensures q in sizes && FileOk(files[r := f][q], q, sizes[q], Total(sent + [Patch(r, d)], q, sizes[q]))
    {
      TotalMore(sent, Patch(r, d), q, sizes[q]);
    }
  }

  lemma FilesOther(files: map<nat, File>, sizes: map<nat, nat>, sent: seq<Sent>, b: seq<Byte>)
    requires FilesOk(files, sizes, sent)
    ensures FilesOk(files, sizes, sent + [Other(b)])
  {
    hide FileOk, Total;
    forall q | q in files ensures q in sizes && FileOk(files[q], q, sizes[q], Total(sent + [Other(b)], q, sizes[q])) {
      TotalMore(sent, Other(b), q, sizes[q]);
    }
  }

  lemma StreamMore(sent: seq<Sent>, stream: seq<Byte>, taken: nat, sizes: map<nat, nat>, x: Sent)
    requires StreamOk(sent, stream, taken, sizes) && SentOk(x, sizes)
    ensures StreamOk(sent + [x], stream + BytesOf(x, sizes), taken, sizes)
  {
    hide SentOk, BytesOf;
    var ms, m := Messages(sent, sizes), BytesOf(x, sizes);
    assert AllSentOk(sent + [x], sizes);
    assert Messages(sent + [x], sizes) == ms + [m];
    assert (ms + [m])[..|ms|] == ms;
  }

  lemma LogSent(log: seq<Update>, sent: seq<Sent>, handled: nat, sizes: map<nat, nat>, x: Sent)
    requires LogOk(log, sent, handled, sizes)
    ensures LogOk(log, sent + [x], handled, sizes)
  {
    hide UpdatesOf;
    assert (sent + [x])[..handled] == sent[..handled];
  }

  lemma CollectKeeps(s: System, r: nat, i: nat, s': System)
    requires Inv(s) && Step(s, Collect(r, i), s')
    ensures Inv(s')
  {
    hide S.Inv, FileOk, StreamOk, LogOk, Total, Blank, DiffOk, EffectOf, IsNull, FilesOk, Collected;
    var f, size := s.files[r], s.sizes[r];
    var d := f.results[i];
    TheFile(s, r);
    CollectFile(f, r, size, Total(s.sent, r, size), i);
    if IsNull(d) {
      OneFile(s.files, s.sizes, s.sent, r, Collected(f, i));
    } else {
      FilesSent(s.files, s.sizes, s.sent, r, Collected(f, i), d);
      StreamMore(s.sent, s.stream, s.taken, s.sizes, Patch(r, d));
      LogSent(s.world.log, s.sent, s.handled, s.sizes, Patch(r, d));
    }
  }

  lemma SendKeeps(s: System, b: seq<Byte>, s': System)
    requires Inv(s) && Step(s, Send(b), s')
    ensures Inv(s')
  {
    hide S.Inv, FileOk, StreamOk, LogOk, Total, Blank, FilesOk, IsMessage, HasDiffType;
    FilesOther(s.files, s.sizes, s.sent, b);
    StreamMore(s.sent, s.stream, s.taken, s.sizes, Other(b));
    LogSent(s.world.log, s.sent, s.handled, s.sizes, Other(b));
  }

  lemma ReadKeeps(s: System, k: nat, s': System)
    requires Inv(s) && Step(s, Read(k), s')
    ensures Inv(s')
  {
    hide S.Inv, FilesOk, LogOk, Blank, AllSentOk, Messages;
  }

  /** What has been read so far frames into the first messages sent. */
  lemma ReadFrames(sent: seq<Sent>, stream: seq<Byte>, taken: nat, sizes: map<nat, nat>)
    requires StreamOk(sent, stream, taken, sizes)
    ensures Frames(stream[..taken]).msgs <= Messages(sent, sizes)
    ensures taken == |stream| ==> Frames(stream[..taken]).msgs == Messages(sent, sizes)
  {
    hide SentOk, Frames, BytesOf, IsMessage, Flat;
    var ms := Messages(sent, sizes);
    forall i | 0 <= i < |ms| ensures IsMessage(ms[i]) {
      SentIsMessage(sent[i], sizes);
    }
    FramesOfPrefix(ms, taken);
  }

  lemma BuiltType(b: DM.Body)
    requires DM.Sendable(b)
    ensures HasDiffType(DM.Build(b))
  {
    var rest := b.core + b.tail + Zeros(Align4(16 + |b.core| + |b.tail|) - (16 + |b.core| + |b.tail|));
    assert DM.Build(b) == DM.Head(b) + rest;
    DM.HeadWords(b, rest);
    HeaderRoundTrip(BUFFER_DIFF, 16 + |b.core| + |b.tail|);
  }

  lemma SentIsMessage(x: Sent, sizes: map<nat, nat>)
    requires SentOk(x, sizes)
    ensures IsMessage(BytesOf(x, sizes)) && (HasDiffType(BytesOf(x, sizes)) <==> x.Patch?)
  {
    hide HasDiffType, IsMessage, DM.Sendable, DM.Build, Encode, AllEncodable;
    if x.Patch? {
      DM.ParseBuild(DM.Body(x.rid, Encode(x.diff.rs), x.diff.tail));
      BuiltType(DM.Body(x.rid, Encode(x.diff.rs), x.diff.tail));
    }
  }

  /** The next message to be handled is the next one sent. */
  lemma NextMessage(s: System)
    requires StreamOk(s.sent, s.stream, s.taken, s.sizes) && Waiting(s)
    ensures s.handled < |s.sent| && SentOk(s.sent[s.handled], s.sizes)
    ensures Delivered(s)[s.handled] == BytesOf(s.sent[s.handled], s.sizes)
    ensures HasDiffType(Delivered(s)[s.handled]) <==> s.sent[s.handled].Patch?
  {
    hide Frames, HasDiffType, SentOk, BytesOf;
    ReadFrames(s.sent, s.stream, s.taken, s.sizes);
    var ms := Messages(s.sent, s.sizes);
    assert Delivered(s)[s.handled] == ms[s.handled];
    SentIsMessage(s.sent[s.handled], s.sizes);
  }

  /** A delivered diff message decodes into the diff that was sent. */
  lemma DeliveredDiff(s: System)
    requires StreamOk(s.sent, s.stream, s.taken, s.sizes) && Waiting(s) && HasDiffType(Delivered(s)[s.handled])
    ensures s.handled < |s.sent| && s.sent[s.handled].Patch?
    ensures var x := s.sent[s.handled];
      && x.rid in s.sizes && DiffOk(x.diff, x.rid, s.sizes[x.rid]) && !IsNull(x.diff)
      && DM.Parse(Delivered(s)[s.handled]) == Some(DM.Body(x.rid, Encode(x.diff.rs), x.diff.tail))
      && Decode(Encode(x.diff.rs)) == Some(x.diff.rs)
  {
    hide StreamOk, Waiting, HasDiffType, DM.Parse, DM.Build, Encode, Decode, AllEncodable;
    NextMessage(s);
    var x := s.sent[s.handled];
    DM.ParseBuild(DM.Body(x.rid, Encode(x.diff.rs), x.diff.tail));
    DecodeEncode(x.diff.rs);
  }

  lemma UpdatesMore(sent: seq<Sent>, n: nat, sizes: map<nat, nat>)
    requires n < |sent|
    ensures var x := sent[n];
      UpdatesOf(sent[..n + 1], sizes) == UpdatesOf(sent[..n], sizes) +
      if x.Patch? && x.rid in sizes then [(x.rid, WritesOf(EffectOf(x.diff, sizes[x.rid]), x.rid))] else []
  {
    assert sent[..n + 1][..n] == sent[..n] && sent[..n + 1][n] == sent[n];
  }

  lemma LogMore(log: seq<Update>, sent: seq<Sent>, handled: nat, sizes: map<nat, nat>, u: Update)
    requires LogOk(log, sent, handled, sizes) && handled < |sent| && sent[handled].Patch? && sent[handled].rid in sizes
    requires u.rid == sent[handled].rid && u.writes == WritesOf(EffectOf(sent[handled].diff, sizes[u.rid]), u.rid)
    ensures LogOk(log + [u], sent, handled + 1, sizes)
  {
    hide WritesOf, EffectOf, UpdatesOf;
    UpdatesMore(sent, handled, sizes);
  }

  lemma DeliverKeeps(s: System, span: Interval, s': System)
    requires Inv(s) && Step(s, Deliver(span), s')
    ensures Inv(s')
  {
    hide S.Inv, FilesOk, StreamOk, LogOk, Blank, S.Step, HasDiffType, Waiting, DM.Parse, Decode, Encode;
    DeliveredDiff(s);
    var x := s.sent[s.handled];
    var size := s.sizes[x.rid];
    var u := Update(x.rid, span, WritesOf(FullEffect(x.diff.rs, x.diff.tail, size), x.rid));
    assert S.Step(s.world, S.Arrive(u), s'.world);
    S.ArriveKeeps(s.world, u, s'.world);
    S.StepHistory(s.world, S.Arrive(u), s'.world);
    hide DiffOk, A.IsSpan;
    LogMore(s.world.log, s.sent, s.handled, s.sizes, u);
  }

  lemma PassKeeps(s: System, s': System)
    requires Inv(s) && Step(s, Pass, s')
    ensures Inv(s')
  {
    hide S.Inv, FilesOk, StreamOk, Blank, HasDiffType, Waiting, UpdatesOf;
    NextMessage(s);
    UpdatesMore(s.sent, s.handled, s.sizes);
    assert UpdatesOf(s.sent[..s.handled], s.sizes) + [] == UpdatesOf(s.sent[..s.handled], s.sizes);
  }

  lemma WorkKeeps(s: System, e: S.Event, s': System)
    requires Inv(s) && Step(s, Work(e), s')
    ensures Inv(s')
  {
    hide S.Inv, FilesOk, StreamOk, LogOk, Blank, S.Step;
    S.StepKeeps(s.world, e, s'.world);
    S.StepHistory(s.world, e, s'.world);
    assert s.world.log + [] == s.world.log;
  }

  /** Every step of the whole system keeps the invariant. */
  lemma StepKeeps(s: System, ev: Event, s': System)
    requires Inv(s) && Step(s, ev, s')
    ensures Inv(s')
  {
    hide Inv, Step;
    match ev {
      case StartRound(r, tasks) => StartRoundKeeps(s, r, tasks, s');
      case RunTask(r, i, target, d, m) => RunTaskKeeps(s, r, i, target, d, m, s');
      case Collect(r, i) => CollectKeeps(s, r, i, s');
      case Send(b) => SendKeeps(s, b, s');
      case Read(k) => ReadKeeps(s, k, s');
      case Deliver(span) => DeliverKeeps(s, span, s');
      case Pass => PassKeeps(s, s');
      case Work(e) => WorkKeeps(s, e, s');
    }
  }

  ghost predicate IsRun(ss: seq<System>, evs: seq<Event>, sizes: map<nat, nat>) {
    && |ss| == |evs| + 1 && ss[0] == Initial(sizes)
    && forall i :: 0 <= i < |evs| ==> Step(ss[i], evs[i], ss[i + 1])
  }

  lemma {:induction false} RunKeeps(ss: seq<System>, evs: seq<Event>, sizes: map<nat, nat>, i: nat)
    requires IsRun(ss, evs, sizes) && i < |ss|
    ensures Inv(ss[i])
  {
    hide Inv, Step;
    if i == 0 {
      InvInitial(sizes);
    } else {
      RunKeeps(ss, evs, sizes, i - 1);
      StepKeeps(ss[i - 1], evs[i - 1], ss[i]);
    }
  }

  // ---- Convergence ----

  /** Byte `x` of file `rid` once the diffs among the first `n` messages are applied to a blank file. */
  function AsOf(s: System, n: nat, rid: nat, x: nat): Byte
    requires n <= |s.sent| && rid in s.sizes
  {
    ValueAt(Total(s.sent[..n], rid, s.sizes[rid]), x)
  }

  lemma BlankAt(sizes: map<nat, nat>, st: Store, rid: nat, x: nat)
    requires rid in sizes && x < sizes[rid]
    ensures Addr(st, rid, x) in Blank(sizes) && Blank(sizes)[Addr(st, rid, x)] == 0
  {
  }

  lemma NothingSent(sizes: map<nat, nat>, rid: nat, size: nat)
    ensures S.Fold(Blank(sizes), []) == Blank(sizes) && Total([], rid, size) == map[] && UpdatesOf([], sizes) == []
  {
    hide Blank;
  }

  /** How many updates the first `n` messages are. */
  function UpdateCount(s: System, n: nat): nat
    requires n <= |s.sent|
  {
    |UpdatesOf(s.sent[..n], s.sizes)|
  }

  lemma {:induction false} UpdatesPrefix(sent: seq<Sent>, m: nat, n: nat, sizes: map<nat, nat>)
    requires m <= n <= |sent|
    ensures UpdatesOf(sent[..m], sizes) <= UpdatesOf(sent[..n], sizes)
    decreases n
  {
    hide UpdatesOf;
    if m < n {
      UpdatesPrefix(sent, m, n - 1, sizes);
      UpdatesMore(sent, n - 1, sizes);
    }
  }

  /** One more message: the sequential result moves on as the diffs sent do. */
  lemma FoldNext(s: System, n: nat, st: Store, rid: nat, x: nat)
    requires LogOk(s.world.log, s.sent, s.handled, s.sizes) && n < s.handled && rid in s.sizes && x < s.sizes[rid]
    requires UpdateCount(s, n) <= |s.world.log|
    requires var f, a := S.Fold(Blank(s.sizes), s.world.log[..UpdateCount(s, n)]), Addr(st, rid, x);
      a in f && f[a] == AsOf(s, n, rid, x)
    requires s.sent[n].Patch? ==> s.sent[n].rid in s.sizes
    ensures UpdateCount(s, n + 1) <= |s.world.log|
    ensures var f, a := S.Fold(Blank(s.sizes), s.world.log[..UpdateCount(s, n + 1)]), Addr(st, rid, x);
      a in f && f[a] == AsOf(s, n + 1, rid, x)
  {
    hide S.Fold, WritesOf, EffectOf, Blank, Total, UpdatesOf;
    var log, y, c := s.world.log, s.sent[n], UpdateCount(s, n);
    UpdatesMore(s.sent, n, s.sizes);
    UpdatesPrefix(s.sent, n + 1, s.handled, s.sizes);
    assert s.sent[..n + 1] == s.sent[..n] + [y];
    TotalMore(s.sent[..n], y, rid, s.sizes[rid]);
    if y.Patch? {
      assert (log[c].rid, log[c].writes) == UpdatesOf(s.sent[..n + 1], s.sizes)[c];
      S.FoldMore(Blank(s.sizes), log, c);
      WritesAt(EffectOf(y.diff, s.sizes[y.rid]), y.rid, st, rid, x);
    }
  }

  /** The sequential result of the updates received is what the diffs sent amount to. */
  lemma {:induction false} FoldIsSent(s: System, n: nat, st: Store, rid: nat, x: nat)
    requires LogOk(s.world.log, s.sent, s.handled, s.sizes) && AllSentOk(s.sent, s.sizes)
    requires n <= s.handled && rid in s.sizes && x < s.sizes[rid]
    ensures UpdateCount(s, n) <= |s.world.log|
    ensures var f, a := S.Fold(Blank(s.sizes), s.world.log[..UpdateCount(s, n)]), Addr(st, rid, x);
      a in f && f[a] == AsOf(s, n, rid, x)
    decreases n
  {
    hide S.Fold, Blank, Total, UpdatesOf, LogOk;
    if n == 0 {
      BlankAt(s.sizes, st, rid, x);
      assert s.world.log[..0] == [] && s.sent[..0] == [];
      NothingSent(s.sizes, rid, s.sizes[rid]);
      LogBound(s.world.log, s.sent, s.handled, s.sizes);
    } else {
      LogBound(s.world.log, s.sent, s.handled, s.sizes);
      FoldIsSent(s, n - 1, st, rid, x);
      assert SentOk(s.sent[n - 1], s.sizes);
      FoldNext(s, n - 1, st, rid, x);
    }
  }

  lemma LogBound(log: seq<Update>, sent: seq<Sent>, handled: nat, sizes: map<nat, nat>)
    requires LogOk(log, sent, handled, sizes)
    ensures handled <= |sent| && |log| == |UpdatesOf(sent[..handled], sizes)|
  {
  }

  /** The receiver's memory after its outstanding updates, in sequence order. */
  ghost function Completed(s: System): Memory {
    S.Fold(s.world.mem, S.Unfinished(s.world.log, s.world.finished, |s.world.log|))
  }

  /**
   * At every moment, for every file: completing the receiver's outstanding updates
   * turns its mapping and its mirror into what the diffs among the messages
   * handled amount to.
   */
  lemma AlwaysConverging(s: System, st: Store, rid: nat, x: nat)
    requires Inv(s) && rid in s.sizes && x < s.sizes[rid]
    ensures s.handled <= |s.sent|
    ensures Addr(st, rid, x) in Completed(s) && Completed(s)[Addr(st, rid, x)] == AsOf(s, s.handled, rid, x)
  {
    var w := s.world;
    StartedBound(w);
    hide S.Inv, FilesOk, Messages, Total, Blank, S.Fold, S.Unfinished, LogOk, UpdatesOf;
    S.OutstandingCompletes(w, |w.log|, Addr(st, rid, x));
    LogBound(w.log, s.sent, s.handled, s.sizes);
    assert w.log[..|w.log|] == w.log;
    FoldIsSent(s, s.handled, st, rid, x);
  }

  lemma StartedBound(w: S.World)
    requires S.Inv(w)
    ensures w.started <= |w.log|
  {
  }

  predicate FileQuiet(f: File) { f.running == {} && f.results == map[] }

  predicate FilesQuiet(files: map<nat, File>) {
    forall r :: r in files ==> FileQuiet(files[r])
  }

  /** Nothing is under way anywhere. */
  predicate Quiet(s: System) {
    && FilesQuiet(s.files) && s.taken == |s.stream|
    && s.handled == |Frames(s.stream).msgs| && S.Drained(s.world)
  }

  lemma MirrorIsTotal(f: File, rid: nat, size: nat, total: map<nat, Byte>, x: nat)
    requires FileOk(f, rid, size, total) && FileQuiet(f) && x < size
    ensures |f.mirror| == size && f.mirror[x] == ValueAt(total, x)
  {
    hide EffectOf, RoundOk;
    assert !InResults(f.results, size, x);
  }

  lemma AllHandled(s: System)
    requires StreamOk(s.sent, s.stream, s.taken, s.sizes) && s.taken == |s.stream|
    ensures |Frames(s.stream).msgs| == |s.sent|
  {
    hide Frames, Flat, BytesOf, SentOk;
    ReadFrames(s.sent, s.stream, s.taken, s.sizes);
    assert s.stream[..s.taken] == s.stream;
  }

  /**
   * Once everything is quiet, the receiver's mapping, the receiver's mirror and the sender's mirror
   * of every file agree.
   */
  lemma QuietConverged(s: System, st: Store, rid: nat, x: nat)
    requires Inv(s) && Quiet(s) && rid in s.sizes && x < s.sizes[rid]
    ensures rid in s.files && |s.files[rid].mirror| == s.sizes[rid]
    ensures Addr(st, rid, x) in s.world.mem && s.world.mem[Addr(st, rid, x)] == s.files[rid].mirror[x]
  {
    hide S.Inv, FileOk, Total, Blank, S.Fold, S.Drained, Frames, Messages, LogOk, UpdatesOf, FilesOk, FileQuiet;
    TheFile(s, rid);
    assert FileQuiet(s.files[rid]);
    MirrorIsTotal(s.files[rid], rid, s.sizes[rid], Total(s.sent, rid, s.sizes[rid]), x);
    AllHandled(s);
    S.DrainedIsSequential(s.world);
    LogBound(s.world.log, s.sent, s.handled, s.sizes);
    assert s.world.log[..|s.world.log|] == s.world.log && s.sent[..|s.sent|] == s.sent;
    FoldIsSent(s, s.handled, st, rid, x);
  }

  // ---- What was sent and what the mirror held ----

  /** Byte `x` of the sender's mirror of file `rid` is `b`. */
  predicate MirrorHas(s: System, rid: nat, x: nat, b: Byte) {
    rid in s.files && x < |s.files[rid].mirror| && s.files[rid].mirror[x] == b
  }

  /** No result that is still to be sent concerns byte `x`. */
  ghost predicate AllSent(s: System, rid: nat, x: nat) {
    rid in s.sizes && rid in s.files && !InResults(s.files[rid].results, s.sizes[rid], x)
  }

  /** Where nothing is left to be sent, the mirror holds what the diffs sent amount to. */
  lemma MirrorIsSent(s: System, rid: nat, x: nat)
    requires Inv(s) && AllSent(s, rid, x) && x < s.sizes[rid]
    ensures MirrorHas(s, rid, x, AsOf(s, |s.sent|, rid, x))
  {
    hide S.Inv, StreamOk, LogOk, Blank, Total, RoundOk, InResults, Held;
    TheFile(s, rid);
    assert s.sent[..|s.sent|] == s.sent;
  }

  /** Messages are only added, one at a time. */
  lemma StepGrows(s: System, ev: Event, s': System)
    requires Step(s, ev, s')
    ensures s.sent <= s'.sent && |s'.sent| <= |s.sent| + 1 && s'.sizes == s.sizes
  {
    hide StartStep, RunStep, DiffOk, DeliverStep, S.Step, Waiting, HasDiffType, Delivered, Started, Ran, Collected;
  }

  lemma {:induction false} RunGrows(ss: seq<System>, evs: seq<Event>, sizes: map<nat, nat>, j: nat, i: nat)
    requires IsRun(ss, evs, sizes) && j <= i < |ss|
    ensures ss[j].sent <= ss[i].sent && ss[i].sizes == sizes
    decreases i
  {
    hide Step;
    if i > 0 {
      StepGrows(ss[i - 1], evs[i - 1], ss[i - 1 + 1]);
      RunGrows(ss, evs, sizes, if j < i then j else i - 1, i - 1);
    }
  }

  /** There was a moment at which exactly the first `n` messages had been sent. */
  lemma {:induction false} MomentOf(ss: seq<System>, evs: seq<Event>, sizes: map<nat, nat>, i: nat, n: nat)
    returns (j: nat)
    requires IsRun(ss, evs, sizes) && i < |ss| && n <= |ss[i].sent|
    ensures j <= i && |ss[j].sent| == n
    decreases i
  {
    hide Step;
    if n == |ss[i].sent| {
      j := i;
    } else {
      assert i > 0;
      StepGrows(ss[i - 1], evs[i - 1], ss[i - 1 + 1]);
      j := MomentOf(ss, evs, sizes, i - 1, n);
    }
  }

  /** What the messages sent up to some moment amount to does not change afterwards. */
  lemma SentStays(ss: seq<System>, evs: seq<Event>, sizes: map<nat, nat>, j: nat, i: nat, rid: nat, x: nat)
    requires IsRun(ss, evs, sizes) && j <= i < |ss| && rid in sizes
    ensures ss[j].sizes == ss[i].sizes == sizes && |ss[j].sent| <= |ss[i].sent|
    ensures AsOf(ss[i], |ss[j].sent|, rid, x) == AsOf(ss[j], |ss[j].sent|, rid, x)
  {
    hide Step, Total;
    RunGrows(ss, evs, sizes, j, i);
    RunGrows(ss, evs, sizes, j, j);
    assert ss[i].sent[..|ss[j].sent|] == ss[j].sent[..|ss[j].sent|];
  }

  /** Sending a result makes the diffs sent amount to what the mirror holds there. */
  lemma SendingCatchesUp(s: System, ev: Event, s': System, rid: nat, x: nat)
    requires Inv(s) && Step(s, ev, s') && rid in s.sizes && x < s.sizes[rid]
    ensures s'.sizes == s.sizes
    ensures
      || AsOf(s', |s'.sent|, rid, x) == AsOf(s, |s.sent|, rid, x)
      || MirrorHas(s, rid, x, AsOf(s', |s'.sent|, rid, x))
  {
    hide *;
    StepGrows(s, ev, s');
    AsOfNow(s, rid, x);
    AsOfNow(s', rid, x);
    if |s'.sent| > |s.sent| {
      SentOne(s, ev, s');
      var y, size := s'.sent[|s.sent|], s.sizes[rid];
      TotalMore(s.sent, y, rid, size);
      if y.Patch? && y.rid == rid {
        ValueMore(Total(s.sent, rid, size), EffectOf(y.diff, size), x);
        if x in EffectOf(y.diff, size) { ResultHeld(s, rid, ev.index, x); }
      }
    } else {
      assert s'.sent == s.sent;
    }
  }

  lemma AsOfNow(s: System, rid: nat, x: nat)
    requires rid in s.sizes
    ensures AsOf(s, |s.sent|, rid, x) == ValueAt(Total(s.sent, rid, s.sizes[rid]), x)
  {
    assert s.sent[..|s.sent|] == s.sent;
  }

  lemma ValueMore(total: map<nat, Byte>, e: map<nat, Byte>, x: nat)
    ensures ValueAt(total + e, x) == if x in e then e[x] else ValueAt(total, x)
  {
  }

  lemma SentOne(s: System, ev: Event, s': System)
    requires Step(s, ev, s') && |s'.sent| > |s.sent|
    ensures |s'.sent| == |s.sent| + 1 && s'.sent == s.sent + [s'.sent[|s.sent|]]
    ensures s'.sent[|s.sent|].Patch? ==>
      ev.Collect? && ev.rid == s'.sent[|s.sent|].rid && ev.rid in s.files &&
      ev.index in s.files[ev.rid].results && s.files[ev.rid].results[ev.index] == s'.sent[|s.sent|].diff
  {
    hide StartStep, RunStep, DiffOk, DeliverStep, S.Step, Waiting, HasDiffType, Delivered, Started, Ran, Collected;
  }

  lemma ResultHeld(s: System, rid: nat, i: nat, x: nat)
    requires Inv(s) && rid in s.files && rid in s.sizes && i in s.files[rid].results
    requires x in EffectOf(s.files[rid].results[i], s.sizes[rid])
    ensures MirrorHas(s, rid, x, EffectOf(s.files[rid].results[i], s.sizes[rid])[x])
  {
    hide S.Inv, StreamOk, LogOk, Blank, Total, RoundOk, EffectOf, InResults;
    TheFile(s, rid);
    assert Held(s.files[rid].mirror, s.files[rid].results[i], s.sizes[rid]);
  }

  /** What the diffs sent amount to at a byte is something the mirror has held there. */
  lemma {:induction false} SentWasHeld(ss: seq<System>, evs: seq<Event>, sizes: map<nat, nat>, i: nat, rid: nat, x: nat)
    returns (j: nat)
    requires IsRun(ss, evs, sizes) && i < |ss| && rid in sizes && x < sizes[rid]
    ensures ss[i].sizes == sizes && j <= i && MirrorHas(ss[j], rid, x, AsOf(ss[i], |ss[i].sent|, rid, x))
    decreases i
  {
    hide Step, Inv, AsOf, MirrorHas;
    RunGrows(ss, evs, sizes, i, i);
    if i == 0 {
      j := 0;
      AtFirst(sizes, rid, x);
    } else {
      RunGrows(ss, evs, sizes, i - 1, i - 1);
      RunKeeps(ss, evs, sizes, i - 1);
      j := SentWasHeld(ss, evs, sizes, i - 1, rid, x);
      SendingCatchesUp(ss[i - 1], evs[i - 1], ss[i - 1 + 1], rid, x);
      if !MirrorHas(ss[j], rid, x, AsOf(ss[i], |ss[i].sent|, rid, x)) { j := i - 1; }
    }
  }

  lemma AtFirst(sizes: map<nat, nat>, rid: nat, x: nat)
    requires rid in sizes && x < sizes[rid]
    ensures var s := Initial(sizes); s.sizes == sizes && s.sent == [] && MirrorHas(s, rid, x, AsOf(s, 0, rid, x))
  {
    hide Blank;
  }

  /**
   * In every run, at every point, for every file: completing the receiver's
   * outstanding updates gives, for mapping and mirror alike, the sender's mirror at
   * any moment at which just the messages handled so far had been sent, except
   * where results were still to be sent; in any case each byte is one that the
   * sender's mirror held. Once all is quiet the copies agree as they are.
   */
  lemma RunConverges(ss: seq<System>, evs: seq<Event>, sizes: map<nat, nat>, i: nat, st: Store, rid: nat, x: nat)
    requires IsRun(ss, evs, sizes) && i < |ss| && rid in sizes && x < sizes[rid]
    ensures Addr(st, rid, x) in Completed(ss[i])
    ensures forall j :: 0 <= j <= i && |ss[j].sent| == ss[i].handled && AllSent(ss[j], rid, x) ==>
      MirrorHas(ss[j], rid, x, Completed(ss[i])[Addr(st, rid, x)])
    ensures exists j :: 0 <= j <= i && MirrorHas(ss[j], rid, x, Completed(ss[i])[Addr(st, rid, x)])
    ensures Quiet(ss[i]) ==>
      Addr(st, rid, x) in ss[i].world.mem && MirrorHas(ss[i], rid, x, ss[i].world.mem[Addr(st, rid, x)])
  {
    hide Inv, Step, Quiet, AsOf, Completed, AllSent, MirrorHas;
    var s, n := ss[i], ss[i].handled;
    RunKeeps(ss, evs, sizes, i);
    RunGrows(ss, evs, sizes, i, i);
    AlwaysConverging(s, st, rid, x);
    forall j | 0 <= j <= i && |ss[j].sent| == n && AllSent(ss[j], rid, x)
      ensures MirrorHas(ss[j], rid, x, AsOf(s, n, rid, x))
    {
      RunKeeps(ss, evs, sizes, j);
      SentStays(ss, evs, sizes, j, i, rid, x);
      MirrorIsSent(ss[j], rid, x);
    }
    var k := MomentOf(ss, evs, sizes, i, n);
    SentStays(ss, evs, sizes, k, i, rid, x);
    var j := SentWasHeld(ss, evs, sizes, k, rid, x);
    assert MirrorHas(ss[j], rid, x, Completed(s)[Addr(st, rid, x)]);
    if Quiet(s) { QuietAgrees(s, st, rid, x); }
  }

  lemma QuietAgrees(s: System, st: Store, rid: nat, x: nat)
    requires Inv(s) && Quiet(s) && rid in s.sizes && x < s.sizes[rid]
    ensures Addr(st, rid, x) in s.world.mem && MirrorHas(s, rid, x, s.world.mem[Addr(st, rid, x)])
  {
    hide Inv, Quiet;
    QuietConverged(s, st, rid, x);
  }

  /** A diff that was read completely can always be handed to the workers. */
  lemma DeliverEnabled(s: System) returns (span: Interval, s': System)
    requires Inv(s) && Waiting(s) && HasDiffType(Delivered(s)[s.handled])
    ensures Step(s, Deliver(span), s')
  {
    hide *;
    InvParts(s);
    DeliveredDiff(s);
    var x := s.sent[s.handled];
    span := DiffSpan(x.diff, x.rid, s.sizes[x.rid]);
    var u := Update(x.rid, span, WritesOf(FullEffect(x.diff.rs, x.diff.tail, s.sizes[x.rid]), x.rid));
    var w' := ArriveEnabled(s.world, u);
    s' := s.(world := w', handled := s.handled + 1);
    DeliverNow(s, span, x, w');
  }

  lemma InvParts(s: System)
    requires Inv(s)
    ensures FilesOk(s.files, s.sizes, s.sent) && StreamOk(s.sent, s.stream, s.taken, s.sizes)
    ensures LogOk(s.world.log, s.sent, s.handled, s.sizes) && S.Inv(s.world)
  {
    hide S.Inv, FilesOk, StreamOk, LogOk, Blank;
  }

  lemma DiffSpan(d: Diff, rid: nat, size: nat) returns (span: Interval)
    requires DiffOk(d, rid, size) && !IsNull(d)
    ensures |d.tail| <= size && AllEncodable(d.rs) && A.IsSpan(span, d.rs, |d.tail|, size)
    ensures Update(rid, span, WritesOf(FullEffect(d.rs, d.tail, size), rid)).Valid()
  {
    span := A.SpanExists(d.rs, |d.tail|, size);
    A.FootprintSound(span, d.rs, d.tail, Zeros(size));
    UpdateValid(rid, span, FullEffect(d.rs, d.tail, size));
  }

  lemma ArriveEnabled(w: S.World, u: Update) returns (w': S.World)
    requires u.Valid()
    ensures S.Step(w, S.Arrive(u), w')
  {
    w' := w.(tasks := Enqueued(w.tasks, u), log := w.log + [u],
             pending := w.pending[u.rid := S.Count(w.pending, u.rid) + 1]);
  }

  lemma DeliverNow(s: System, span: Interval, x: Sent, w': S.World)
    requires Waiting(s) && HasDiffType(Delivered(s)[s.handled]) && x.Patch? && x.rid in s.sizes
    requires |x.diff.tail| <= s.sizes[x.rid] && AllEncodable(x.diff.rs)
    requires DM.Parse(Delivered(s)[s.handled]) == Some(DM.Body(x.rid, Encode(x.diff.rs), x.diff.tail))
    requires Decode(Encode(x.diff.rs)) == Some(x.diff.rs)
    requires A.IsSpan(span, x.diff.rs, |x.diff.tail|, s.sizes[x.rid])
    requires var e := FullEffect(x.diff.rs, x.diff.tail, s.sizes[x.rid]);
      S.Step(s.world, S.Arrive(Update(x.rid, span, WritesOf(e, x.rid))), w')
    ensures Step(s, Deliver(span), s.(world := w', handled := s.handled + 1))
  {
    hide Delivered, A.IsSpan, DM.Parse, Decode, FullEffect, S.Step, WritesOf, Encode, HasDiffType, Waiting;
  }

  lemma UpdateValid(rid: nat, span: Interval, e: map<nat, Byte>)
    requires span.lo < span.hi && Within(e, span.lo, span.hi)
    ensures Update(rid, span, WritesOf(e, rid)).Valid()
  {
  }
}

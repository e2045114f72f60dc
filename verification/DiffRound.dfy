/** Running diff tasks, and a whole round of damage. */
module DiffRound {
  import opened Bytes
  import opened Replay
  import opened DiffFormat
  import opened DiffKernel
  import opened Intervals
  import opened DiffTask
  import A = DiffApply
  import DM = DiffMessage
  import M = Mirror
  import W = WireMsg

  /** The part of the mirror a task needs at its end. */
  function TailSpan(t: DiffTask, bufLen: nat): Interval
    requires t.trailing <= bufLen
  {
    Interval(bufLen - t.trailing, bufLen)
  }

  /** Nobody holds a range that a diff task needs. */
  ghost predicate Available(ranges: set<Interval>, t: DiffTask, bufLen: nat)
    requires t.trailing <= bufLen
  {
    && (t.region.Some? ==> forall a :: a in ranges ==> !M.Overlap(a, t.region.value))
    && (t.trailing > 0 ==> forall a :: a in ranges ==> !M.Overlap(a, TailSpan(t, bufLen)))
  }

  lemma RegionInside(t: DiffTask, bufLen: nat)
    requires WellFormed(t, bufLen) && t.region.Some?
    ensures t.region.value.lo < t.region.value.hi <= bufLen
    ensures Diffable(t.intervals, t.region.value.lo, bufLen)
  {
    var l := t.intervals;
    forall i | 0 <= i < |l| ensures l[0].lo <= l[i].lo < l[i].hi <= bufLen {
      if i > 0 { assert l[0].hi <= l[i].lo; }
    }
    if |l| > 1 { assert l[0].hi <= l[|l| - 1].lo; }
  }

  /** Diff the intervals and the tail of a diff task; `ok` is false when a range is taken. */
  method DiffInner(t: DiffTask, dst: array<Byte>, target: seq<Byte>, mirror: M.Mirror, k: LineRule)
    returns (ok: bool, diffLen: nat, ntrailing: nat, ghost rs: seq<ByteRecord>)
    requires Sound(k) && WellFormed(t, |target|) && t.trailing <= |target| < U32_LIMIT
    requires mirror.Valid() && mirror.data.Length == |target| && dst != mirror.data
    requires Space(t.intervals) + t.trailing <= dst.Length
    modifies dst, mirror`ranges, mirror.data
    ensures mirror.Valid() && mirror.data == old(mirror.data)
    ensures old(Available(mirror.ranges, t, |target|)) ==> ok
    ensures ok ==> mirror.ranges == old(mirror.ranges)
    ensures ok ==> TaskDone(t, target, old(mirror.data[..]), mirror.data[..], rs, ntrailing)
    ensures ok ==> AllEncodable(rs) && diffLen == |Encode(rs)| && ntrailing <= t.trailing
    ensures ok ==> diffLen <= Space(t.intervals)
    ensures ok ==> dst[..][..diffLen + ntrailing] == Encode(rs) + Tail(target, ntrailing)
  {
    hide Sound, Diffed, TaskDone, Encode, AllEncodable, Space, WellFormed, Patched, Diffable, Covers;
    ghost var was := mirror.data[..];
    diffLen, ntrailing, rs := 0, 0, [];
    ghost var ranges0 := mirror.ranges;
    NoRegion(t, target, was);
    if t.region.Some? {
      var span := t.region.value;
      RegionInside(t, |target|);
      var got := mirror.GetMutRange(span);
      if !got {
        return false, 0, 0, rs;
      }
      diffLen, rs := ConstructDiff(dst, target, t.intervals, mirror.data, span.lo, k);
      mirror.Release(span);
    }
    assert mirror.ranges == ranges0;
    ghost var mid := mirror.data[..];
    if t.trailing > 0 {
      var span := TailSpan(t, |target|);
      var got := mirror.GetMutRange(span);
      if !got {
        return false, 0, 0, rs;
      }
      ghost var dst0 := dst[..];
      var changed := CopyTailIfDiff(dst, diffLen, target, t.trailing, mirror.data);
      if changed {
        ntrailing := t.trailing;
      }
      TailWritten(dst0, diffLen, target, t.trailing, ntrailing);
      mirror.Release(span);
    } else {
      NoTail(mid, target, dst[..], diffLen);
    }
    TaskAssembles(t, target, was, mid, mirror.data[..], rs, ntrailing);
    ok := true;
  }

  lemma TailWritten(dst: seq<Byte>, at: nat, target: seq<Byte>, n: nat, ntrailing: nat)
    requires at + n <= |dst| && n <= |target| && (ntrailing == n || ntrailing == 0)
    ensures Patched(dst, at, Tail(target, n))[..at + ntrailing] == dst[..at] + Tail(target, ntrailing)
  {
  }

  lemma NoTail(mid: seq<Byte>, target: seq<Byte>, dst: seq<Byte>, at: nat)
    requires |mid| == |target| && at <= |dst|
    ensures Patched(mid, |target| - 0, Tail(target, 0)) == mid && Tail(mid, 0) == Tail(target, 0)
    ensures dst[..at] == dst[..at] + Tail(target, 0)
  {
  }

  lemma NoRegion(t: DiffTask, target: seq<Byte>, was: seq<Byte>)
    requires WellFormed(t, |target|)
    ensures t.region.None? ==> t.intervals == [] && Diffed([], was, was, target, t.intervals)
    ensures AllEncodable([]) && Encode([]) == []
    ensures Space([]) == 0
  {
    DiffedNothing(was, target);
  }

  /** What a worker reports for a diff task: a message, empty when nothing changed. */
  datatype TaskResult = Failed | Msg(bytes: seq<Byte>)

  function DiffBytes(rid: nat, core: seq<Byte>, tail: seq<Byte>): seq<Byte>
    requires DM.Sendable(DM.Body(rid, core, tail))
  {
    if core == [] && tail == [] then [] else DM.Build(DM.Body(rid, core, tail))
  }

  lemma EmptyBytes(rid: nat, rs: seq<ByteRecord>, target: seq<Byte>, n: nat)
    requires AllEncodable(rs) && n <= |target| && DM.Sendable(DM.Body(rid, Encode(rs), Tail(target, n)))
    ensures DiffBytes(rid, Encode(rs), Tail(target, n)) == [] <==> rs == [] && n == 0
  {
    if rs != [] { assert |Encode(rs)| >= |EncodeOne(rs[|rs| - 1])|; }
    assert |Tail(target, n)| == n;
  }

  // ---- What a message does to a copy of the buffer ----

  /** The message carries a diff of buffer `rid`, well formed and in range for `size` bytes. */
  ghost predicate Carries(msg: seq<Byte>, rid: nat, size: nat) {
    match DM.Parse(msg)
    case None => false
    case Some(b) =>
      && W.IsMessage(msg) && b.rid == rid && |b.core| % 4 == 0 && 0 < |b.core| + |b.tail|
      && |b.tail| <= size && A.Applicable(b.core, 0, size - |b.tail|)
  }

  /** A copy of the buffer after a message; nothing is sent for an empty one. */
  ghost function Replayed(mem: seq<Byte>, msg: seq<Byte>, rid: nat): (r: seq<Byte>)
    requires msg == [] || Carries(msg, rid, |mem|)
    ensures |r| == |mem|
  {
    if msg == [] then mem
    else
      var b := DM.Parse(msg).value;
      Override(mem, 0, FullEffect(Decode(b.core).value, b.tail, |mem|))
  }

  lemma ChunkBelow(hi: nat, size: nat)
    requires hi % 64 == 0 && hi <= size
    ensures hi <= size - size % 64
  {
  }

  lemma CoveredBeforeTail(t: DiffTask, size: nat, x: nat, ntrailing: nat)
    requires WellFormed(t, size) && ntrailing <= t.trailing <= size && Covers(t.intervals, x)
    ensures x < size - ntrailing
  {
    var j :| 0 <= j < |t.intervals| && t.intervals[j].Has(x);
    ChunkBelow(t.intervals[j].hi, size);
  }

  /** The records of a task lie before the bytes at the end of the buffer. */
  lemma RecordsBeforeTail(t: DiffTask, size: nat, rs: seq<ByteRecord>, ntrailing: nat)
    requires WellFormed(t, size) && AllEncodable(rs) && ntrailing <= t.trailing <= size
    requires forall x :: x in Effect(rs) ==> Covers(t.intervals, x)
    ensures A.RecordsWithin(rs, 0, size - ntrailing)
  {
    hide WellFormed, Covers, Effect;
    forall i | 0 <= i < |rs| ensures rs[i].at + |rs[i].data| <= size - ntrailing {
      var x := rs[i].at + |rs[i].data| - 1;
      assert Encodable(rs[i]);
      EffectHas(rs, i, x);
      CoveredBeforeTail(t, size, x, ntrailing);
    }
  }

  /** The message of a finished task has the effect that the task had on the mirror. */
  lemma MessageReplays(t: DiffTask, rid: nat, target: seq<Byte>, was: seq<Byte>, now: seq<Byte>, rs: seq<ByteRecord>,
                       n: nat)
    requires WellFormed(t, |target|) && n <= t.trailing <= |target| && AllEncodable(rs)
    requires TaskDone(t, target, was, now, rs, n) && DM.Sendable(DM.Body(rid, Encode(rs), Tail(target, n)))
    ensures var msg := DiffBytes(rid, Encode(rs), Tail(target, n));
      (msg == [] || Carries(msg, rid, |was|)) && Replayed(was, msg, rid) == now
  {
    hide Effect, Encode, AllEncodable, WellFormed, DM.Build, Covers, Examines, DM.Parse, Decode, W.IsMessage, Writes,
      A.RecordsWithin;
    EmptyBytes(rid, rs, target, n);
    if rs == [] && n == 0 {
      NoEffect(was, target);
    } else {
      RecordsBeforeTail(t, |target|, rs, n);
      DM.ParseBuild(DM.Body(rid, Encode(rs), Tail(target, n)));
      DecodeEncode(rs);
      EncodedWords(rs);
    }
  }

  lemma NoEffect(was: seq<Byte>, target: seq<Byte>)
    requires |was| == |target|
    ensures Override(was, 0, FullEffect([], Tail(target, 0), |target|)) == was
  {
    assert Writes(Record(|target|, Tail(target, 0))) == map[];
  }

  ghost predicate AllCarry(msgs: seq<seq<Byte>>, rid: nat, size: nat) {
    forall i :: 0 <= i < |msgs| ==> msgs[i] == [] || Carries(msgs[i], rid, size)
  }

  /** A copy of the buffer after several messages, in order. */
  ghost function ReplayedAll(mem: seq<Byte>, msgs: seq<seq<Byte>>, rid: nat): (r: seq<Byte>)
    requires AllCarry(msgs, rid, |mem|)
    ensures |r| == |mem|
  {
    if msgs == [] then mem
    else Replayed(ReplayedAll(mem, msgs[..|msgs| - 1], rid), msgs[|msgs| - 1], rid)
  }

  lemma ReplayedMore(mem: seq<Byte>, msgs: seq<seq<Byte>>, rid: nat, msg: seq<Byte>)
    requires AllCarry(msgs, rid, |mem|) && (msg == [] || Carries(msg, rid, |mem|))
    ensures AllCarry(msgs + [msg], rid, |mem|)
    ensures ReplayedAll(mem, msgs + [msg], rid) == Replayed(ReplayedAll(mem, msgs, rid), msg, rid)
  {
    assert (msgs + [msg])[..|msgs|] == msgs;
  }

  lemma ReplayedNothing(mem: seq<Byte>, rid: nat)
    ensures AllCarry([], rid, |mem|) && ReplayedAll(mem, [], rid) == mem && Replayed(mem, [], rid) == mem
  {
  }

  method RunDiffTask(t: DiffTask, rid: nat, target: seq<Byte>, mirror: M.Mirror, k: LineRule)
    returns (r: TaskResult, ghost rs: seq<ByteRecord>, ghost ntrailing: nat)
    requires Sound(k) && WellFormed(t, |target|) && t.trailing <= |target| < U32_LIMIT && rid < U32_LIMIT
    requires mirror.Valid() && mirror.data.Length == |target|
    requires 0 <= Space(t.intervals) && 16 + Space(t.intervals) + t.trailing < 0x800_0000
    modifies mirror`ranges, mirror.data
    ensures mirror.Valid() && mirror.data == old(mirror.data)
    ensures old(Available(mirror.ranges, t, |target|)) ==> r.Msg?
    ensures r.Msg? ==> mirror.ranges == old(mirror.ranges) && AllEncodable(rs) && ntrailing <= t.trailing
    ensures r.Msg? ==> TaskDone(t, target, old(mirror.data[..]), mirror.data[..], rs, ntrailing)
    ensures r.Msg? ==> DM.Sendable(DM.Body(rid, Encode(rs), Tail(target, ntrailing)))
    ensures r.Msg? ==> r.bytes == DiffBytes(rid, Encode(rs), Tail(target, ntrailing))
    ensures r.Msg? ==> (r.bytes == [] <==> Unchanged(t, target, old(mirror.data[..])))
    ensures r.Msg? ==> r.bytes == [] || Carries(r.bytes, rid, |target|)
    ensures r.Msg? ==> Replayed(old(mirror.data[..]), r.bytes, rid) == mirror.data[..]
  {
    var space := Space(t.intervals) + t.trailing;
    var buf := new Byte[space];
    hide Sound, TaskDone, Encode, AllEncodable, Space, WellFormed, DM.Build;
    var ok, diffLen, n;
    ok, diffLen, n, rs := DiffInner(t, buf, target, mirror, k);
    ntrailing := n;
    if !ok {
      return Failed, rs, n;
    }
    var core, tail := buf[..][..diffLen], buf[..][diffLen..diffLen + n];
    assert buf[..][..diffLen + n] == core + tail;
    assert core == Encode(rs) && tail == Tail(target, n) by {
      assert core == (core + tail)[..diffLen] && tail == (core + tail)[diffLen..];
      assert Encode(rs) == (Encode(rs) + Tail(target, n))[..diffLen] &&
        Tail(target, n) == (Encode(rs) + Tail(target, n))[diffLen..];
    }
    NullIffUnchanged(t, target, old(mirror.data[..]), mirror.data[..], rs, n);
    EmptyBytes(rid, rs, target, n);
    MessageReplays(t, rid, target, old(mirror.data[..]), mirror.data[..], rs, n);
    hide Unchanged, Carries, Replayed;
    if diffLen == 0 && n == 0 {
      r := Msg([]);
    } else {
      r := Msg(DM.Build(DM.Body(rid, core, tail)));
    }
  }

  // ---- A round of tasks ----

  ghost predicate AllWellFormed(tasks: seq<DiffTask>, bufLen: nat) {
    forall i :: 0 <= i < |tasks| ==>
      WellFormed(tasks[i], bufLen) && 0 <= Space(tasks[i].intervals) <= 0x24_0000 &&
        tasks[i].trailing <= Min(bufLen, 63)
  }

  /**
   * Run tasks one after the other, in the order given. Bytes that already agree
   * with the buffer keep agreeing, so every examined byte agrees in the end.
   */
  method RunTasks(tasks: seq<DiffTask>, rid: nat, target: seq<Byte>, mirror: M.Mirror, k: LineRule)
    returns (msgs: seq<seq<Byte>>)
    requires Sound(k) && AllWellFormed(tasks, |target|) && |target| < U32_LIMIT && rid < U32_LIMIT
    requires mirror.Valid() && mirror.ranges == {} && mirror.data.Length == |target|
    modifies mirror`ranges, mirror.data
    ensures mirror.Valid() && mirror.ranges == {} && mirror.data == old(mirror.data) && |msgs| == |tasks|
    ensures AllCarry(msgs, rid, |target|) && ReplayedAll(old(mirror.data[..]), msgs, rid) == mirror.data[..]
    ensures forall i, x :: 0 <= i < |tasks| && 0 <= x < |target| && Examines(tasks[i], |target|, x) ==>
      mirror.data[x] == target[x]
    ensures forall x :: 0 <= x < |target| ==> mirror.data[x] == old(mirror.data[x]) || mirror.data[x] == target[x]
  {
    hide Sound, WellFormed, Examines, Space, DiffBytes, FullEffect, Encode, Carries, Replayed;
    msgs := [];
    for n := 0 to |tasks|
      invariant mirror.Valid() && mirror.ranges == {} && mirror.data == old(mirror.data) && |msgs| == n
      invariant AllCarry(msgs, rid, |target|) && ReplayedAll(old(mirror.data[..]), msgs, rid) == mirror.data[..]
      invariant forall i, x :: 0 <= i < n && 0 <= x < |target| && Examines(tasks[i], |target|, x) ==>
        mirror.data[x] == target[x]
      invariant forall x :: 0 <= x < |target| ==> mirror.data[x] == old(mirror.data[x]) || mirror.data[x] == target[x]
    {
      ghost var was := mirror.data[..];
      var r, rs, ntrailing := RunDiffTask(tasks[n], rid, target, mirror, k);
      ghost var now := mirror.data[..];
      assert forall x :: 0 <= x < |target| ==> mirror.data[x] == now[x];
      ReplayedMore(old(mirror.data[..]), msgs, rid, r.bytes);
      msgs := msgs + [r.bytes];
    }
  }
}

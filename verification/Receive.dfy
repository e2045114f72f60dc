/** The receiving side of a shared-memory buffer: diff messages go onto the mapped file and its mirror. */
module Receive {
  import opened Bytes
  import opened Replay
  import opened DiffFormat
  import opened DiffKernel
  import opened Intervals
  import opened DamageRows
  import opened DiffApply
  import opened DiffRound
  import opened Updates
  import DM = DiffMessage
  import M = Mirror
  import RT = RoundTrip

  lemma Split(core: seq<Byte>, tail: seq<Byte>)
    requires |core| % 4 == 0
    ensures var diff := core + tail;
      Shaped(diff, |tail|) && Core(diff, |tail|) == core && TailOf(diff, |tail|) == tail
  {
    assert (core + tail)[..|core|] == core && (core + tail)[|core|..] == tail;
  }

  /** The span of a diff is a slice of the mirror onto which the replay is sure to succeed. */
  lemma SliceWorks(core: seq<Byte>, tail: seq<Byte>, span: Interval, mem: seq<Byte>)
    requires |tail| <= |mem| && Applicable(core, 0, |mem| - |tail|)
    requires IsSpan(span, Decode(core).value, |tail|, |mem|)
    ensures span.lo < span.hi <= |mem|
    ensures Applicable(core, span.lo, Limit(span.lo, span.hi - span.lo, |mem|))
    ensures TailFits(|tail|, span.lo, span.hi - span.lo, |mem|)
  {
    hide Decode, Override, FullEffect, Within, Applicable;
    WholeWords(core, 0, |mem| - |tail|, |mem|);
    FootprintSound(span, Decode(core).value, tail, mem);
    ApplicableWithin(core, span.lo, Limit(span.lo, span.hi - span.lo, |mem|));
  }

  /** Records that lie in a buffer lie in its whole words. */
  lemma WholeWords(core: seq<Byte>, lo: nat, hi: nat, size: nat)
    requires Applicable(core, lo, hi) && hi <= size
    ensures Decode(core).Some? && RecordsWithin(Decode(core).value, lo, RoundDown(size, 4))
  {
    var rs := Decode(core).value;
    EncodeDecode(core);
    hide Decode;
    forall i | 0 <= i < |rs| ensures rs[i].at + |rs[i].data| <= RoundDown(size, 4) {
      assert Encodable(rs[i]);
      WordEnd(rs[i], size);
    }
  }

  lemma ApplicableWithin(core: seq<Byte>, lo: nat, hi: nat)
    requires Decode(core).Some? && RecordsWithin(Decode(core).value, lo, hi)
    ensures Applicable(core, lo, hi)
  {
  }

  lemma WordEnd(r: ByteRecord, size: nat)
    requires Encodable(r) && r.at + |r.data| <= size
    ensures r.at + |r.data| <= RoundDown(size, 4)
  {
  }

  /** The diff, its span found, is ready to be replayed onto a buffer of `size` bytes. */
  ghost predicate Ready(core: seq<Byte>, tail: seq<Byte>, span: Interval, size: nat) {
    |tail| <= size && Applicable(core, 0, size - |tail|) && IsSpan(span, Decode(core).value, |tail|, size)
  }

  lemma ReadyFacts(core: seq<Byte>, tail: seq<Byte>, span: Interval, size: nat)
    requires Ready(core, tail, span, size)
    ensures |tail| <= size && Applicable(core, 0, size - |tail|) && Decode(core).Some?
    ensures IsSpan(span, Decode(core).value, |tail|, size)
  {
  }

  /** The diff decodes, and `now` is `was` with exactly its effect. */
  ghost predicate Applied(core: seq<Byte>, tail: seq<Byte>, was: seq<Byte>, now: seq<Byte>) {
    && Decode(core).Some? && |tail| <= |was|
    && now == Override(was, 0, FullEffect(Decode(core).value, tail, |was|))
  }

  /** Replaying onto a slice that the replay keeps to is replaying onto the whole. */
  lemma SliceSound(core: seq<Byte>, tail: seq<Byte>, span: Interval, mem: seq<Byte>)
    requires span.lo <= span.hi <= |mem| && |tail| <= |mem|
    requires Applicable(core, span.lo, Limit(span.lo, span.hi - span.lo, |mem|))
    requires TailFits(|tail|, span.lo, span.hi - span.lo, |mem|)
    ensures Decode(core).Some?
    ensures var e := FullEffect(Decode(core).value, tail, |mem|);
      Patched(mem, span.lo, Override(mem[span.lo..span.hi], span.lo, e)) == Override(mem, 0, e)
  {
    var rs := Decode(core).value;
    assert RecordsWithin(rs, span.lo, span.hi);
    hide Decode, Override, Effect;
    EffectWithin(rs, span.lo, span.hi);
    var w := Writes(Record(|mem| - |tail|, tail));
    assert Within(w, span.lo, span.hi);
    WithinBoth(Effect(rs), w, span.lo, span.hi);
    OverrideSlice(mem, 0, FullEffect(rs, tail, |mem|), span.lo, span.hi);
  }

  lemma AppliedBy(core: seq<Byte>, tail: seq<Byte>, was: seq<Byte>, now: seq<Byte>)
    requires Decode(core).Some? && |tail| <= |was|
    requires now == Override(was, 0, FullEffect(Decode(core).value, tail, |was|))
    ensures Applied(core, tail, was, now)
  {
  }

  /**
   * Lock the span of a diff in the mirror and replay the diff onto the file and the
   * locked slice. When this succeeds both have exactly the effect of the diff, and
   * it succeeds when the diff is ready and nobody holds the span.
   */
  method ApplyTask(core: seq<Byte>, tail: seq<Byte>, span: Interval, file: array<Byte>, mirror: M.Mirror)
    returns (r: Outcome)
    requires |core| % 4 == 0
    requires mirror.Valid() && mirror.data != file && mirror.data.Length == file.Length
    modifies file, mirror`ranges, mirror.data
    ensures mirror.Valid() && mirror.data == old(mirror.data)
    ensures Ready(core, tail, span, file.Length) && (forall a :: a in old(mirror.ranges) ==> !M.Overlap(a, span)) ==>
      r.Ok?
    ensures r.Ok? ==> mirror.ranges == old(mirror.ranges)
    ensures r.Ok? ==> Applied(core, tail, old(file[..]), file[..])
    ensures r.Ok? ==> Applied(core, tail, old(mirror.data[..]), mirror.data[..])
  {
    hide Decode, Override, FullEffect, Applicable, IsSpan, Limit, TailFits, Ready, Patched, Applied;
    ghost var good, f0, m0 := Ready(core, tail, span, file.Length), file[..], mirror.data[..];
    if good {
      ReadyFacts(core, tail, span, file.Length);
      SliceWorks(core, tail, span, m0);
    }
    Split(core, tail);
    var got := mirror.GetMutRange(span);
    if !got {
      return Err;
    }
    var slice := new Byte[span.hi - span.lo];
    ghost var blank := slice[..];
    CopyInto(slice, 0, mirror.data[span.lo..span.hi]);
    RT.WholePatch(blank, m0[span.lo..span.hi]);
    r := ApplyDiff(core + tail, |tail|, file, span.lo, slice);
    CopyInto(mirror.data, span.lo, slice[..]);
    if r.Ok? {
      SliceSound(core, tail, span, m0);
      AppliedBy(core, tail, f0, file[..]);
      AppliedBy(core, tail, m0, mirror.data[..]);
    }
    mirror.Release(span);
  }

  lemma CarriedDiff(msg: seq<Byte>, rid: nat, mem: seq<Byte>)
    requires Carries(msg, rid, |mem|)
    ensures DM.Parse(msg).Some?
    ensures var b := DM.Parse(msg).value;
      && |b.core| % 4 == 0 && |b.tail| <= |mem| && b.core + b.tail != []
      && Applicable(b.core, 0, |mem| - |b.tail|) && Decode(b.core).Some?
      && forall now :: Applied(b.core, b.tail, mem, now) ==> now == Replayed(mem, msg, rid)
  {
    hide Decode, FullEffect;
  }

  lemma SpanReady(core: seq<Byte>, tail: seq<Byte>, span: Interval, size: nat)
    requires |tail| <= size && Applicable(core, 0, size - |tail|) && IsSpan(span, Decode(core).value, |tail|, size)
    ensures Ready(core, tail, span, size)
  {
  }

  /** The message parses, and `now` is `was` with exactly the effect of its diff. */
  ghost predicate Took(msg: seq<Byte>, was: seq<Byte>, now: seq<Byte>) {
    match DM.Parse(msg)
    case None => false
    case Some(b) => Applied(b.core, b.tail, was, now)
  }

  /**
   * Take in one message: decode it, find the span of its diff, replay it. When this
   * succeeds file and mirror have exactly the effect of the diff that the message
   * holds, and it succeeds when the message carries a diff in range.
   */
  method ApplyMessage(msg: seq<Byte>, rid: nat, file: array<Byte>, mirror: M.Mirror) returns (r: Outcome)
    requires mirror.Valid() && mirror.ranges == {} && mirror.data != file && mirror.data.Length == file.Length
    modifies file, mirror`ranges, mirror.data
    ensures mirror.Valid() && mirror.data == old(mirror.data)
    ensures r.Ok? ==> mirror.ranges == {}
    ensures r.Ok? ==> Took(msg, old(file[..]), file[..]) && Took(msg, old(mirror.data[..]), mirror.data[..])
    ensures Carries(msg, rid, file.Length) ==>
      && r.Ok?
      && file[..] == Replayed(old(file[..]), msg, rid) && mirror.data[..] == Replayed(old(mirror.data[..]), msg, rid)
  {
    hide DM.Parse, Decode, Override, FullEffect, Applicable, IsSpan, Ready, Carries, Replayed, Applied;
    ghost var good := Carries(msg, rid, file.Length);
    if good {
      CarriedDiff(msg, rid, file[..]);
      CarriedDiff(msg, rid, mirror.data[..]);
    }
    match DM.Parse(msg) {
      case None =>
        return Err;
      case Some(b) =>
        if |b.core| % 4 != 0 {
          return Panic;
        }
        Split(b.core, b.tail);
        var found := ComputeDiffSpan(b.core + b.tail, |b.tail|, file.Length);
        match found {
          case SpanErr =>
            return Err;
          case SpanPanic =>
            return Panic;
          case Span(span) =>
            if good { SpanReady(b.core, b.tail, span, file.Length); }
            r := ApplyTask(b.core, b.tail, span, file, mirror);
        }
    }
  }

  /** Take in the messages of a round, in order. */
  method ApplyRound(msgs: seq<seq<Byte>>, rid: nat, file: array<Byte>, mirror: M.Mirror)
    requires mirror.Valid() && mirror.ranges == {} && mirror.data != file && mirror.data.Length == file.Length
    requires AllCarry(msgs, rid, file.Length)
    modifies file, mirror`ranges, mirror.data
    ensures mirror.Valid() && mirror.ranges == {} && mirror.data == old(mirror.data)
    ensures file[..] == ReplayedAll(old(file[..]), msgs, rid)
    ensures mirror.data[..] == ReplayedAll(old(mirror.data[..]), msgs, rid)
  {
    hide Carries, Replayed, AllCarry, ReplayedAll;
    ghost var f0, m0 := file[..], mirror.data[..];
    ReplayedNothing(f0, rid);
    ReplayedNothing(m0, rid);
    assert msgs[..0] == [];
    for i := 0 to |msgs|
      invariant mirror.Valid() && mirror.ranges == {} && mirror.data == old(mirror.data)
      invariant AllCarry(msgs[..i], rid, file.Length)
      invariant file[..] == ReplayedAll(f0, msgs[..i], rid) && mirror.data[..] == ReplayedAll(m0, msgs[..i], rid)
    {
      NextCarries(msgs, rid, file.Length, i);
      ReplayedMore(f0, msgs[..i], rid, msgs[i]);
      ReplayedMore(m0, msgs[..i], rid, msgs[i]);
      assert msgs[..i + 1] == msgs[..i] + [msgs[i]];
      ReplayedNothing(file[..], rid);
      ReplayedNothing(mirror.data[..], rid);
      if msgs[i] != [] {
        var r := ApplyMessage(msgs[i], rid, file, mirror);
      }
    }
    assert msgs[..|msgs|] == msgs;
  }

  lemma NextCarries(msgs: seq<seq<Byte>>, rid: nat, size: nat, i: nat)
    requires AllCarry(msgs, rid, size) && i < |msgs|
    ensures msgs[i] == [] || Carries(msgs[i], rid, size)
  {
  }

  /**
   * A round of updates end to end: rectangles are diffed on one side and the
   * messages applied on the other. Where both sides agreed before, file, mirror
   * and sender's mirror agree afterwards, and agree with the buffer on every
   * damaged byte.
   */
  method ReplicateRound(rects: seq<Rect>, lay: Layout, rid: nat, target: seq<Byte>, sender: M.Mirror, k: LineRule,
                        file: array<Byte>, mirror: M.Mirror)
    requires AllValid(rects) && (rects != [] ==> lay.bpp > 0) && lay.alignBits == 6
    requires Sound(k) && |target| < U32_LIMIT && rid < U32_LIMIT
    requires sender.Valid() && sender.ranges == {} && mirror.Valid() && mirror.ranges == {} && sender != mirror
    requires sender.data != file && mirror.data != file && sender.data != mirror.data
    requires |target| == file.Length && sender.data[..] == file[..] && mirror.data[..] == file[..]
    modifies file, sender`ranges, sender.data, mirror`ranges, mirror.data
    ensures sender.data == old(sender.data) && mirror.data == old(mirror.data)
    ensures file[..] == sender.data[..] && mirror.data[..] == sender.data[..]
    ensures forall i, x :: 0 <= i < |rects| && 0 <= x < |target| && InRect(rects[i], lay, x) ==> file[x] == target[x]
    ensures forall x :: 0 <= x < |target| ==> file[x] == old(file[x]) || file[x] == target[x]
  {
    hide AllValid, Sound, InRect, AllCarry, ReplayedAll;
    assert file.Length == |file[..]| == |sender.data[..]| == |mirror.data[..]|;
    var msgs := DamageRound(rects, lay, rid, target, sender, k);
    ApplyRound(msgs, rid, file, mirror);
    assert forall x :: 0 <= x < |target| ==> file[x] == file[..][x] && sender.data[x] == sender.data[..][x];
  }
}

/**
 * The buffer that reads the channel into large chunks and loans out each complete
 * message as a view of chunk memory, without copying it.
 */
module ReadBuffers {
  import opened Bytes
  import opened WireMsg

  const MAX_NORMAL_MSG_SIZE: nat := 0x4_0000

  /** A loaned range of a chunk. */
  datatype View = View(base: array<Byte>, off: nat, len: nat) {
    predicate Valid() { off + len <= base.Length }

    /** The bytes of the message, as its holder sees them. */
    function Contents(): seq<Byte>
      reads base
    {
      if Valid() then base[off..off + len] else []
    }

    ghost predicate Apart(v: View) { base != v.base || off + len <= v.off || v.off + v.len <= off }
  }

  /** What one `readv` call meets: bytes (none at the end of the stream), or one of its error returns. */
  datatype Input = Data(bytes: seq<Byte>) | Reset | Again | Broken

  datatype ReadResult = Ok(eof: bool) | Err

  /** What `readv` stores when there is room for `room` bytes. */
  function Received(input: Input, room: nat): (s: seq<Byte>)
    ensures |s| <= room
  {
    if input.Data? then input.bytes[..Min(|input.bytes|, room)] else []
  }

  predicate AtEnd(input: Input) { input.Reset? || input == Data([]) }

  /** What becomes of the chunk being filled: kept, replaced by one of `size` bytes, or completed before the next. */
  datatype Plan = Keep | Replace(size: nat) | Follow

  /**
   * The choice for a chunk of `cap` bytes in which `held` bytes are pending from
   * `from` on, of a message of `n` bytes if that is known.
   */
  function PlanFor(cap: int, from: int, held: int, n: int): Plan {
    if held < 4 then if cap <= from + 0x4_0000 then Replace(0x10_0000) else Keep
    else if cap < from + n then Replace(Max(2 * n, 0x10_0000))
    else if cap <= from + n + 0x4_0000 then Follow else Keep
  }

  /** Views that reading may not touch: below `from` in the chunk being filled, and none in a chunk held ready. */
  ghost predicate Placed(views: seq<View>, work: array<Byte>, from: nat, spare: array?<Byte>) {
    && (forall i :: 0 <= i < |views| ==>
         views[i].Valid() && (views[i].base == work ==> views[i].off + views[i].len <= from) && views[i].base != spare)
    && (forall i, j :: 0 <= i < j < |views| ==> views[i].Apart(views[j]))
  }

  /** Messages handed out so far and bytes still pending make up the framing of everything consumed. */
  ghost predicate Framed(consumed: seq<Byte>, told: seq<seq<Byte>>, pending: seq<Byte>) {
    && Frames(consumed).msgs == told + Frames(pending).msgs
    && Frames(consumed).rest == Frames(pending).rest
  }

  /**
   * Nothing complete is pending; a message being completed in the previous chunk has its length
   * known and fits there.
   */
  ghost predicate Settled(consumed: seq<Byte>, told: seq<seq<Byte>>, pending: seq<Byte>, room: Option<int>) {
    && Framed(consumed, told, pending) && FirstLen(pending).None?
    && (room.Some? ==> |pending| >= 4 && PaddedLen(pending).Some? && PaddedLen(pending).value <= room.value)
  }

  lemma FramedNow(consumed: seq<Byte>, told: seq<seq<Byte>>, pending: seq<Byte>)
    requires Framed(consumed, told, pending) && FirstLen(pending).None?
    ensures Frames(consumed) == Framing(told, pending)
  {
  }

  lemma FramedStart()
    ensures Framed([], [], []) && FirstLen([]).None?
  {
  }

  /** One more message leaves the pending bytes. */
  lemma FramedMessage(consumed: seq<Byte>, told: seq<seq<Byte>>, pending: seq<Byte>, n: nat)
    requires Framed(consumed, told, pending) && FirstLen(pending) == Some(n)
    ensures 4 <= n <= |pending| && n % 4 == 0 && Framed(consumed, told + [pending[..n]], pending[n..])
  {
    FirstLenPositive(pending);
    FramesStep(pending);
    hide *;
    assert told + ([pending[..n]] + Frames(pending[n..]).msgs) == told + [pending[..n]] + Frames(pending[n..]).msgs;
  }

  /** More bytes arrive. */
  lemma FramedMore(consumed: seq<Byte>, told: seq<seq<Byte>>, pending: seq<Byte>, more: seq<Byte>)
    requires Framed(consumed, told, pending) && FirstLen(pending).None?
    ensures Framed(consumed + more, told, pending + more)
  {
    FramedNow(consumed, told, pending);
    hide FirstLen, Frames;
    FramesMore(consumed, more);
  }

  /** The pending bytes are a whole message; the bytes after it are pending next. */
  lemma LastFramed(consumed: seq<Byte>, gone: seq<seq<Byte>>, queued: seq<seq<Byte>>, pending: seq<Byte>,
                   more: seq<Byte>)
    requires Framed(consumed, gone + queued, pending) && FirstLen(pending) == Some(|pending|)
    ensures Framed(consumed + more, gone + (queued + [pending]), more)
  {
    hide Framed, FirstLen;
    FramedMessage(consumed, gone + queued, pending, |pending|);
    FramedStart();
    assert pending[|pending|..] == [] && pending[..|pending|] == pending && [] + more == more;
    FramedMore(consumed, gone + queued + [pending], [], more);
    Extend(gone, queued, pending);
  }

  /** A message whose length is known becomes complete when that many bytes are there, not earlier. */
  lemma KnownLength(pending: seq<Byte>, more: seq<Byte>, n: nat)
    requires |pending| >= 4 && PaddedLen(pending) == Some(n)
    ensures PaddedLen(pending + more) == Some(n)
    ensures FirstLen(pending + more) == if n <= |pending + more| then Some(n) else None
  {
    assert (pending + more)[..4] == pending[..4];
    HeaderOnly(pending, pending + more);
    hide PaddedLen;
  }

  lemma LongerThan(pending: seq<Byte>, n: nat)
    requires |pending| >= 4 && PaddedLen(pending) == Some(n) && FirstLen(pending).None?
    ensures n > |pending|
  {
    hide PaddedLen;
  }

  lemma PaddedMultiple(s: seq<Byte>, n: nat)
    requires |s| >= 4 && PaddedLen(s) == Some(n)
    ensures n % 4 == 0
  {
  }

  lemma Rejoin(s: seq<Byte>, t: seq<Byte>, k: nat)
    requires k <= |t|
    ensures s + t[..k] + t[k..] == s + t
  {
  }

  /** Only the first four bytes matter for the length of a message. */
  lemma HeaderOnly(s: seq<Byte>, t: seq<Byte>)
    requires |s| >= 4 && |t| >= 4 && s[..4] == t[..4]
    ensures PaddedLen(s) == PaddedLen(t)
  {
    assert s[0] == s[..4][0] && s[1] == s[..4][1] && s[2] == s[..4][2] && s[3] == s[..4][3];
    assert t[0] == t[..4][0] && t[1] == t[..4][1] && t[2] == t[..4][2] && t[3] == t[..4][3];
  }

  lemma PlacedMore(views: seq<View>, work: array<Byte>, from: nat, n: nat, spare: array?<Byte>)
    requires Placed(views, work, from, spare) && from + n <= work.Length && work != spare
    ensures Placed(views + [View(work, from, n)], work, from + n, spare)
  {
  }

  lemma PlacedNext(views: seq<View>, work: array<Byte>, from: nat, spare: array<Byte>)
    requires Placed(views, work, from, spare)
    ensures Placed(views, spare, 0, null)
  {
  }

  ghost predicate Holds(views: seq<View>, msgs: seq<seq<Byte>>)
    reads set v | v in views :: v.base
  {
    |views| == |msgs| && forall i :: 0 <= i < |views| ==> views[i].Valid() && views[i].Contents() == msgs[i]
  }

  twostate predicate Untouched(views: seq<View>)
    reads set v | v in views :: v.base
  {
    forall v :: v in views ==> v.Contents() == old(v.Contents())
  }

  lemma HoldsMore(views: seq<View>, msgs: seq<seq<Byte>>, v: View)
    requires Holds(views, msgs) && v.Valid()
    ensures Holds(views + [v], msgs + [v.Contents()])
  {
  }

  lemma HoldsLengths(views: seq<View>, msgs: seq<seq<Byte>>)
    requires Holds(views, msgs)
    ensures |views| == |msgs|
  {
  }

  lemma HoldsRest(views: seq<View>, msgs: seq<seq<Byte>>)
    requires Holds(views, msgs) && views != []
    ensures Holds(views[1..], msgs[1..]) && views[0].Valid() && views[0].Contents() == msgs[0]
  {
    hide View.Contents;
  }

  lemma Shift<T>(a: seq<T>, b: seq<T>)
    requires b != []
    ensures a + [b[0]] + b[1..] == a + b
  {
  }

  lemma Extend<T>(a: seq<T>, b: seq<T>, x: T)
    ensures a + (b + [x]) == a + b + [x]
  {
  }

  lemma PlacedBelow(views: seq<View>, work: array<Byte>, from: nat, spare: array?<Byte>)
    requires Placed(views, work, from, spare)
    ensures forall v :: v in views ==> v.Valid() && v.base != spare && (v.base == work ==> v.off + v.len <= from)
  {
  }

  /** The padded length of the message that starts at `start` and of which the bytes up to `stop` are there. */
  function GetMessagePaddedLen(base: array<Byte>, start: nat, ghost stop: nat): (len: Option<nat>)
    requires start + 4 <= stop <= base.Length
    reads base
    ensures len == PaddedLen(base[start..stop])
  {
    assert base[start..start + 4][..4] == base[start..stop][..4];
    HeaderOnly(base[start..start + 4], base[start..stop]);
    PaddedLen(base[start..start + 4])
  }

  /** What `readv` stores into one of its buffers: `dst` already holds something from `from` on; views lie elsewhere. */
  method Deliver(dst: array<Byte>, ghost from: nat, at: nat, bytes: seq<Byte>, ghost views: seq<View>)
    requires from <= at && at + |bytes| <= dst.Length
    requires forall v :: v in views ==> v.Valid() && (v.base == dst ==> v.off + v.len <= at)
    modifies dst
    ensures dst[from..at + |bytes|] == old(dst[from..at]) + bytes
    ensures Untouched(views)
  {
    forall i | 0 <= i < |bytes| { dst[at + i] := bytes[i]; }
    assert dst[from..at] == old(dst[from..at]);
    assert forall i :: 0 <= i < at ==> dst[i] == old(dst[i]);
  }

  lemma PlacedApart(popped: seq<View>, queue: seq<View>, work: array<Byte>, from: nat, spare: array?<Byte>, k: nat)
    requires Placed(popped + queue, work, from, spare) && k < |popped|
    ensures popped[k].Valid() && (popped[k].base == work ==> popped[k].off + popped[k].len <= from)
    ensures forall u :: u in popped + queue && u != popped[k] ==> u.Valid() && u.Apart(popped[k])
    ensures forall u :: u in queue ==>
      u in popped + queue && u.Valid() && u.Apart(popped[k]) && (popped[k].len > 0 ==> u != popped[k])
  {
    var all := popped + queue;
    assert all[k] == popped[k];
    forall u | u in queue
      ensures u in all && u.Valid() && u.Apart(popped[k]) && (popped[k].len > 0 ==> u != popped[k]) {
      var j :| 0 <= j < |queue| && queue[j] == u;
      assert all[|popped| + j] == u;
    }
  }

  method Poke(v: View, i: nat, b: Byte, ghost views: seq<View>, ghost pending: View)
    requires v.Valid() && i < v.len && (forall u :: u in views && u != v ==> u.Valid() && u.Apart(v)) &&
      pending.Valid() && pending.Apart(v)
    modifies v.base
    ensures v.Contents() == old(v.Contents())[i := b] && pending.Contents() == old(pending.Contents())
    ensures forall u :: u in views && u != v ==> u.Contents() == old(u.Contents())
  {
    v.base[v.off + i] := b;
    assert forall k :: pending.off <= k < pending.off + pending.len ==> pending.base[k] == old(pending.base[k]);
    forall u | u in views && u != v ensures u.Contents() == old(u.Contents()) {
      assert forall k :: u.off <= k < u.off + u.len ==> u.base[k] == old(u.base[k]);
    }
  }

  class ReadBuffer {
    /** A chunk whose last message is still being read; the pending bytes are in it when there is one. */
    var previous: array?<Byte>
    var current: array<Byte>
    var lastMsgStart: nat
    var end: nat
    var msgQueue: seq<View>

    /** All bytes read so far. */
    ghost var consumed: seq<Byte>
    /** Views handed over, and what they held then; what the queued views hold. */
    ghost var popped: seq<View>
    ghost var gone: seq<seq<Byte>>
    ghost var queued: seq<seq<Byte>>

    /** All views ever issued, in order. */
    ghost function Issued(): seq<View>
      reads this
    {
      popped + msgQueue
    }

    /** The chunk with the pending bytes. */
    function Work(): array<Byte>
      reads this
    {
      if previous == null then current else previous
    }

    ghost predicate Sized()
      reads this
    {
      && previous != current
      && lastMsgStart <= end <= Work().Length && lastMsgStart % 4 == 0
      && current.Length % 4 == 0 && current.Length >= 4 * MAX_NORMAL_MSG_SIZE
    }

    ghost function Pending(): seq<Byte>
      reads this, Work()
    {
      if lastMsgStart <= end <= Work().Length then Work()[lastMsgStart..end] else []
    }

    /** Reading cannot touch a view. */
    ghost predicate Loans()
      reads this
    {
      Placed(Issued(), Work(), lastMsgStart, if previous == null then null else current) && |gone| == |popped|
    }

    ghost predicate Valid()
      reads this, current, Work(), set v | v in msgQueue :: v.base
    {
      && Sized() && Loans() && Holds(msgQueue, queued)
      && Settled(consumed, gone + queued, Pending(), if previous == null then None
                 else Some(previous.Length - lastMsgStart))
    }

    /**
     * In every valid state the views issued, in order, and the pending bytes are
     * what the simple parser makes of all bytes consumed; views never overlap.
     */
    lemma Refines()
      requires Valid()
      ensures |Frames(consumed).msgs| == |Issued()| && Frames(consumed).rest == Pending()
      ensures forall i :: 0 <= i < |msgQueue| ==> msgQueue[i].Contents() == Frames(consumed).msgs[|popped| + i]
      ensures Frames(consumed).msgs[..|popped|] == gone
      ensures forall i, j :: 0 <= i < j < |Issued()| ==> Issued()[i].Apart(Issued()[j])
    {
      hide Frames, FirstLen, PaddedLen;
      FramedNow(consumed, gone + queued, Pending());
    }

    /** No byte of a view issued earlier has changed, and no view was taken back. */
    twostate predicate LeavesLoans(views: seq<View>)
      reads this, set v | v in views :: v.base
    {
      popped == old(popped) && gone == old(gone) && old(msgQueue) <= msgQueue && Untouched(views)
    }

    constructor ()
      ensures Valid() && consumed == [] && Issued() == [] && fresh(current) && previous == null
      ensures current.Length == 0x10_0000
    {
      previous, current := null, new Byte[4 * MAX_NORMAL_MSG_SIZE];
      lastMsgStart, end, msgQueue := 0, 0, [];
      consumed, popped, gone, queued := [], [], [], [];
      new;
      FramedStart();
      assert Pending() == [];
    }

    /** Queue the message that has become complete. */
    method Issue(n: nat)
      requires Sized() && Loans() && Holds(msgQueue, queued) && previous == null
      requires Framed(consumed, gone + queued, Pending()) && FirstLen(Pending()) == Some(n)
      modifies `lastMsgStart, `msgQueue, `queued
      ensures Sized() && Loans() && Holds(msgQueue, queued) && Framed(consumed, gone + queued, Pending())
      ensures old(msgQueue) <= msgQueue && lastMsgStart == old(lastMsgStart) + n && n > 0
    {
      hide Framed, PaddedLen, Frames, FirstLen, Placed;
      ghost var pending := Pending();
      FramedMessage(consumed, gone + queued, pending, n);
      var v := View(current, lastMsgStart, n);
      assert v.Contents() == pending[..n];
      PlacedMore(Issued(), current, lastMsgStart, n, null);
      Extend(popped, msgQueue, v);
      Extend(gone, queued, pending[..n]);
      HoldsMore(msgQueue, queued, v);
      msgQueue, lastMsgStart := msgQueue + [v], lastMsgStart + n;
      queued := queued + [pending[..n]];
      assert Pending() == pending[n..];
    }

    /** Queue every complete message; `false` at a header that cannot be one. */
    method ExtractMessages() returns (ok: bool)
      requires Sized() && Loans() && Holds(msgQueue, queued) && previous == null &&
        Framed(consumed, gone + queued, Pending())
      modifies this
      ensures Valid() && LeavesLoans(old(Issued()))
      ensures unchanged(`previous, `current, `end, `consumed)
      ensures ok <==> !BadHeader(Pending())
    {
      hide Framed, PaddedLen, Frames, Placed;
      ok := true;
      while end - lastMsgStart >= 4
        invariant Sized() && Loans() && Holds(msgQueue, queued) && Framed(consumed, gone + queued, Pending())
        invariant unchanged(`previous, `current, `end, `consumed, `popped, `gone) && old(msgQueue) <= msgQueue
        decreases end - lastMsgStart
      {
        var len := GetMessagePaddedLen(current, lastMsgStart, end);
        match len {
          case None => return false;
          case Some(n) =>
            if end - lastMsgStart < n { return; }
            Issue(n);
        }
      }
    }

    /** Continue the pending message in a new chunk. */
    method MoveTailToNew(newSize: nat)
      requires Valid() && previous == null
      requires newSize % 4 == 0 && newSize >= 4 * MAX_NORMAL_MSG_SIZE && newSize >= end - lastMsgStart
      modifies `current, `lastMsgStart, `end
      ensures Valid() && LeavesLoans(old(Issued())) && fresh(current)
      ensures Pending() == old(Pending()) && lastMsgStart == 0 && end == old(end - lastMsgStart) &&
        current.Length == newSize
    {
      hide Framed, PaddedLen, Frames, FirstLen;
      ghost var pending := Pending();
      var nxt := new Byte[newSize];
      Deliver(nxt, 0, 0, current[lastMsgStart..end], []);
      current, end, lastMsgStart := nxt, end - lastMsgStart, 0;
      assert Pending() == pending;
    }

    /** Read once into the current chunk, leaving room at its end. */
    method Fill(input: Input) returns (r: ReadResult, taken: seq<Byte>)
      requires Valid() && previous == null && !BadHeader(Pending()) && end + MAX_NORMAL_MSG_SIZE < current.Length
      modifies this, current
      ensures Valid() && LeavesLoans(old(Issued())) && current == old(current) && previous == null
      ensures consumed == old(consumed) + taken
      ensures taken == if input.Broken? then [] else Received(input, current.Length - MAX_NORMAL_MSG_SIZE - old(end))
      ensures r == if input.Broken? || BadHeader(Pending()) then Err else Ok(AtEnd(input))
    {
      hide Framed, Frames, PaddedLen, FirstLen, Placed;
      if input.Broken? { return Err, []; }
      var got := Received(input, current.Length - MAX_NORMAL_MSG_SIZE - end);
      Append(got);
      taken := got;
      var ok := ExtractMessages();
      r := if ok then Ok(AtEnd(input)) else Err;
    }

    /** Store bytes behind the pending ones. */
    method Append(got: seq<Byte>)
      requires Valid() && end + |got| <= Work().Length
      modifies `end, `consumed, Work()
      ensures Sized() && Loans() && Holds(msgQueue, queued) && Framed(consumed, gone + queued, Pending())
      ensures Pending() == old(Pending()) + got && consumed == old(consumed) + got && end == old(end) + |got|
      ensures LeavesLoans(old(Issued()))
    {
      hide Framed, PaddedLen, Frames, FirstLen, Placed;
      ghost var pending := Pending();
      FramedMore(consumed, gone + queued, pending, got);
      PlacedBelow(Issued(), Work(), lastMsgStart, if previous == null then null else current);
      Deliver(Work(), lastMsgStart, end, got, Issued());
      assert forall i :: 0 <= i < |msgQueue| ==> msgQueue[i] in Issued();
      end, consumed := end + |got|, consumed + got;
      assert Pending() == pending + got;
    }

    /** Queue the completed last message of the previous chunk and go on in the current one. */
    method FinishPrevious(n: nat, more: seq<Byte>)
      requires Sized() && Loans() && Holds(msgQueue, queued) && previous != null && |more| <= current.Length
      requires Framed(consumed, gone + queued, Pending()) && FirstLen(Pending()) == Some(n) && n == |Pending()|
      modifies `previous, `lastMsgStart, `end, `msgQueue, `queued, `consumed, current
      ensures Sized() && Loans() && Holds(msgQueue, queued) && previous == null &&
        Framed(consumed, gone + queued, Pending())
      ensures LeavesLoans(old(Issued())) && consumed == old(consumed) + more
    {
      hide Framed, PaddedLen, Frames, FirstLen, Placed;
      ghost var pending, v := Pending(), View(previous, lastMsgStart, n);
      assert v.Contents() == pending;
      LastFramed(consumed, gone, queued, pending, more);
      PlacedMore(Issued(), previous, lastMsgStart, n, current);
      PlacedNext(Issued() + [v], previous, lastMsgStart + n, current);
      Extend(popped, msgQueue, v);
      HoldsMore(msgQueue, queued, v);
      PlacedBelow(Issued() + [v], previous, lastMsgStart + n, current);
      assert forall i :: 0 <= i < |msgQueue + [v]| ==> (msgQueue + [v])[i] in Issued() + [v];
      Deliver(current, 0, 0, more, Issued() + [v]);
      msgQueue, previous, lastMsgStart, end := msgQueue + [View(previous, lastMsgStart, n)], null, 0, |more|;
      queued, consumed := queued + [pending], consumed + more;
      assert Pending() == more;
    }

    /** All of the last message of the previous chunk has been received, and perhaps more. */
    method Complete(n: nat, first: nat, got: seq<Byte>) returns (ok: bool)
      requires Valid() && previous != null && PaddedLen(Pending()) == Some(n) && first == lastMsgStart + n - end
      requires first <= |got| <= first + current.Length
      modifies this, current, Work()
      ensures Valid() && LeavesLoans(old(Issued())) && current == old(current) && previous == null
      ensures consumed == old(consumed) + got
      ensures ok <==> !BadHeader(Pending())
    {
      ghost var pending, before := Pending(), consumed;
      hide Framed, PaddedLen, Frames, FirstLen, Placed, BadHeader;
      KnownLength(pending, got[..first], n);
      Append(got[..first]);
      FinishPrevious(n, got[first..]);
      Rejoin(before, got, first);
      ok := ExtractMessages();
    }

    /** Read the rest of the last message of the previous chunk, and more into the current one. */
    method ReadWithPrevious(input: Input) returns (r: ReadResult, taken: seq<Byte>, ghost room: nat)
      requires Valid() && previous != null
      modifies this, current, Work()
      ensures Valid() && LeavesLoans(old(Issued())) && current == old(current) &&
        (previous == null || previous == old(previous))
      ensures consumed == old(consumed) + taken
      ensures room > 0 && taken == if input.Broken? then [] else Received(input, room)
      ensures r == if input.Broken? || BadHeader(Pending()) then Err else Ok(AtEnd(input))
    {
      hide Framed, PaddedLen, Frames, FirstLen, Placed, Received;
      ghost var pending := Pending();
      var len := GetMessagePaddedLen(previous, lastMsgStart, end);
      var msgEnd := lastMsgStart + len.value;
      LongerThan(pending, len.value);
      var first := msgEnd - end;
      room := first + (current.Length - MAX_NORMAL_MSG_SIZE);
      if input.Broken? { return Err, [], room; }
      var got := Received(input, first + (current.Length - MAX_NORMAL_MSG_SIZE));
      taken := got;
      if |got| < first {
        KnownLength(pending, got, len.value);
        Append(got);
        return Ok(AtEnd(input)), got, room;
      }
      var ok := Complete(len.value, first, got);
      r := if ok then Ok(AtEnd(input)) else Err;
    }

    /** The pending message will fill its chunk: complete it there, and go on in a new one. */
    method StartChunk(ghost n: nat)
      requires Valid() && previous == null && end - lastMsgStart >= 4 && PaddedLen(Pending()) == Some(n) &&
        lastMsgStart + n <= current.Length
      modifies `current, `previous
      ensures Valid() && LeavesLoans(old(Issued())) && previous == old(current) && fresh(current)
      ensures Pending() == old(Pending()) && current.Length == 0x10_0000
    {
      hide Framed, PaddedLen, Frames, FirstLen;
      var nxt := new Byte[4 * MAX_NORMAL_MSG_SIZE];
      previous, current := current, nxt;
    }

    /** Make room for at least one byte in the current chunk, unless that is a matter of the previous one. */
    method MakeRoom() returns (ok: bool)
      requires Valid() && previous == null
      modifies `current, `previous, `lastMsgStart, `end
      ensures Valid() && LeavesLoans(old(Issued())) && Pending() == old(Pending())
      ensures (current == old(current) && previous == null) ||
        (fresh(current) && (previous == null || previous == old(current)))
      ensures ok <==> !BadHeader(Pending())
      ensures ok ==>
        var held := old(end - lastMsgStart);
        match PlanFor(old(current.Length), old(lastMsgStart), held, if held < 4 then 0 else PaddedLen(Pending()).value)
        case Keep => current == old(current) && previous == null && unchanged(`lastMsgStart, `end)
        case Replace(size) => fresh(current) && previous == null && current.Length == size && lastMsgStart == 0
        case Follow =>
          fresh(current) && previous == old(current) && current.Length == 0x10_0000 && unchanged(`lastMsgStart, `end)
      ensures ok && previous == null ==> end + MAX_NORMAL_MSG_SIZE < current.Length
    {
      hide Framed, Frames, PaddedLen, Placed, Valid, Holds, Pending, BadHeader;
      ok := true;
      PendingLength();
      if end - lastMsgStart >= 4 {
        var len := GetMessagePaddedLen(current, lastMsgStart, end);
        if len.None? { return false; }
        var n := len.value;
        LongerThan(Pending(), n);
        var msgEnd := lastMsgStart + n;
        if msgEnd > current.Length {
          var newSize := Max(2 * n, 4 * MAX_NORMAL_MSG_SIZE);
          assert newSize > n + MAX_NORMAL_MSG_SIZE;
          PaddedMultiple(Pending(), n);
          MoveTailToNew(newSize);
        } else if current.Length - msgEnd <= MAX_NORMAL_MSG_SIZE {
          StartChunk(n);
        }
      } else {
        assert lastMsgStart <= current.Length;
        if current.Length - lastMsgStart <= MAX_NORMAL_MSG_SIZE {
          MoveTailToNew(4 * MAX_NORMAL_MSG_SIZE);
        }
      }
    }

    lemma PendingLength()
      requires Valid()
      ensures Sized() && |Pending()| == end - lastMsgStart
      ensures BadHeader(Pending()) <==> |Pending()| >= 4 && PaddedLen(Pending()).None?
      ensures previous == null ==> Pending() == current[lastMsgStart..end]
      ensures FirstLen(Pending()).None?
    {
      hide Framed, PaddedLen, Placed;
    }

    lemma NeverBad()
      requires Valid() && previous != null
      ensures !BadHeader(Pending())
    {
    }

    /**
     * Read once. Every byte that is there is taken, up to `room`, which is never
     * zero; the read fails exactly when the source does or a header is bad.
     */
    method ReadMore(input: Input) returns (r: ReadResult, taken: seq<Byte>, ghost room: nat)
      requires Valid()
      modifies this, current, Work()
      ensures Valid() && LeavesLoans(old(Issued())) && fresh({current, Work()} - old({current, Work()}))
      ensures consumed == old(consumed) + taken
      ensures room > 0 && taken == if input.Broken? || BadHeader(old(Pending())) then [] else Received(input, room)
      ensures r == if input.Broken? || BadHeader(Pending()) then Err else Ok(input == Reset || input == Data([]))
    {
      hide Valid, Framed, Frames, PaddedLen, FirstLen, Placed, Received, Pending, BadHeader, Holds;
      room := 1;
      if previous != null {
        NeverBad();
      } else {
        var ok := MakeRoom();
        if !ok { return Err, [], room; }
        if previous == null {
          assert current.Length - end >= MAX_NORMAL_MSG_SIZE;
          room := current.Length - MAX_NORMAL_MSG_SIZE - end;
          r, taken := Fill(input);
          return;
        }
      }
      r, taken, room := ReadWithPrevious(input);
    }

    /** Hand over the next message, if there is one. */
    method PopNextMsg() returns (v: Option<View>)
      requires Valid()
      modifies `msgQueue, `popped, `gone, `queued
      ensures Valid() && Issued() == old(Issued()) && Pending() == old(Pending())
      ensures v.None? <==> old(msgQueue) == []
      ensures if v.None? then popped == old(popped)
        else popped == old(popped) + [v.value] && msgQueue == old(msgQueue[1..])
      ensures v.Some? ==> |old(popped)| < |Frames(consumed).msgs| && v.value.Valid()
      ensures v.Some? ==> v.value.Contents() == Frames(consumed).msgs[|old(popped)|] && IsMessage(v.value.Contents())
    {
      hide Frames, PaddedLen, FirstLen, Framed, Placed, IsMessage;
      if msgQueue == [] { return None; }
      FramesAreMessages(consumed);
      FramedNow(consumed, gone + queued, Pending());
      HoldsRest(msgQueue, queued);
      Shift(popped, msgQueue);
      HoldsLengths(msgQueue, queued);
      Shift(gone, queued);
      v := Some(msgQueue[0]);
      popped, gone, queued := popped + [msgQueue[0]], gone + [queued[0]], queued[1..];
      msgQueue := msgQueue[1..];
    }

    lemma PendingView()
      requires Sized()
      ensures Pending() == View(Work(), lastMsgStart, end - lastMsgStart).Contents()
    {
      assert lastMsgStart + (end - lastMsgStart) == end;
    }

    /** The holder of a popped message may write to it: nothing pending, queued or popped otherwise is affected. */
    method WriteView(v: View, ghost k: nat, i: nat, b: Byte)
      requires Valid() && k < |popped| && v == popped[k] && i < v.len
      modifies v.base
      ensures Valid() && Pending() == old(Pending())
      ensures forall u :: u in Issued() && u != v ==> u.Contents() == old(u.Contents())
      ensures v.Valid() && v.Contents() == old(v.Contents())[i := b]
    {
      hide Settled, Placed, View.Contents, View.Apart, View.Valid, Pending;
      PlacedApart(popped, msgQueue, Work(), lastMsgStart, if previous == null then null else current, k);
      ghost var pending := View(Work(), lastMsgStart, end - lastMsgStart);
      Below(v, Work(), lastMsgStart, end);
      PendingView();
      Poke(v, i, b, Issued(), pending);
      PendingView();
      assert Holds(msgQueue, queued);
    }
  }

  /** Pending bytes lie above every view in their chunk. */
  lemma Below(v: View, work: array<Byte>, from: nat, to: nat)
    requires from <= to <= work.Length && (v.base == work ==> v.off + v.len <= from)
    ensures View(work, from, to - from).Valid() && View(work, from, to - from).Apart(v)
  {
  }

  lemma FramesStuck(s: seq<Byte>, more: seq<Byte>)
    requires BadHeader(s)
    ensures Frames(s + more) == Framing([], s + more) && BadHeader(s + more)
  {
    assert (s + more)[..4] == s[..4];
    HeaderOnly(s, s + more);
    hide PaddedLen;
  }

  /** A bad header stops the framing for good. */
  lemma BadStays(s: seq<Byte>, more: seq<Byte>)
    requires BadHeader(Frames(s).rest)
    ensures Frames(s + more).msgs == Frames(s).msgs && BadHeader(Frames(s + more).rest)
  {
    FramesMore(s, more);
    FramesStuck(Frames(s).rest, more);
    hide *;
  }

  /** Take everything off the queue. */
  method PopAll(rb: ReadBuffer, before: seq<seq<Byte>>) returns (messages: seq<seq<Byte>>)
    requires rb.Valid() && before <= Frames(rb.consumed).msgs && |before| == |rb.popped|
    modifies rb
    ensures rb.Valid() && rb.msgQueue == [] && messages == Frames(rb.consumed).msgs && |messages| == |rb.popped|
    ensures rb.consumed == old(rb.consumed) && rb.current == old(rb.current) && rb.previous == old(rb.previous) &&
      rb.Pending() == old(rb.Pending())
  {
    hide Frames, FirstLen, PaddedLen, Framed, Placed, Holds, Settled, View.Contents, ReadBuffer.Valid,
      ReadBuffer.Pending;
    messages := before;
    while rb.msgQueue != []
      invariant rb.Valid() && messages <= Frames(rb.consumed).msgs && |messages| == |rb.popped|
      invariant rb.consumed == old(rb.consumed) && rb.current == old(rb.current) && rb.previous == old(rb.previous) &&
        rb.Pending() == old(rb.Pending())
      decreases |rb.msgQueue|
    {
      var v := rb.PopNextMsg();
      messages := messages + [v.value.Contents()];
    }
    rb.Refines();
  }

  /** Everything read so far has been popped. */
  ghost predicate Drained(rb: ReadBuffer, messages: seq<seq<Byte>>, sent: seq<Byte>)
    reads rb, rb.current, rb.Work(), set v | v in rb.msgQueue :: v.base
  {
    rb.Valid() && rb.msgQueue == [] && rb.consumed == sent && messages == Frames(sent).msgs && |messages| == |rb.popped|
  }

  /** Read once and pop all that is complete. */
  method ReadSome(rb: ReadBuffer, before: seq<seq<Byte>>, bytes: seq<Byte>, ghost sent: seq<Byte>)
    returns (ok: bool, messages: seq<seq<Byte>>, left: seq<Byte>, ghost sent': seq<Byte>)
    requires Drained(rb, before, sent) && !BadHeader(Frames(sent).rest) && bytes != []
    modifies rb, rb.current, rb.Work()
    ensures Drained(rb, messages, sent') && (ok <==> !BadHeader(Frames(sent').rest))
    ensures fresh({rb.current, rb.Work()} - old({rb.current, rb.Work()}))
    ensures |left| < |bytes| && sent' + left == sent + bytes && sent <= sent'
  {
    hide Frames, FirstLen, PaddedLen, Framed, Placed, Holds, BadHeader;
    rb.Refines();
    var r, taken, room := rb.ReadMore(Data(bytes));
    FramesMore(sent, taken);
    left, sent' := bytes[|taken|..], sent + taken;
    assert bytes == taken + left;
    messages := PopAll(rb, before);
    rb.Refines();
    ok := r.Ok?;
  }

  lemma {:induction false} ConcatPrefix(ms: seq<seq<Byte>>, i: nat)
    requires i <= |ms|
    ensures Flat(ms[..i]) <= Flat(ms)
    decreases |ms|
  {
    if i == |ms| {
      assert ms[..i] == ms;
    } else {
      var init := ms[..|ms| - 1];
      ConcatPrefix(init, i);
      assert init[..i] == ms[..i];
    }
  }

  lemma ConcatNext(ms: seq<seq<Byte>>, i: nat)
    requires i < |ms|
    ensures Flat(ms[..i + 1]) == Flat(ms[..i]) + ms[i]
  {
    assert ms[..i + 1][..i] == ms[..i];
  }

  /**
   * However the stream arrives in fragments, and however little room there is for
   * each, the messages popped are those of the whole stream, and reading fails
   * exactly when the stream has a bad header.
   */
  method ReadStream(fragments: seq<seq<Byte>>) returns (ok: bool, messages: seq<seq<Byte>>)
    ensures ok <==> !BadHeader(Frames(Flat(fragments)).rest)
    ensures messages == Frames(Flat(fragments)).msgs
  {
    hide Frames, FirstLen, PaddedLen, Framed, Placed, Holds, BadHeader, Drained, Flat;
    var rb := new ReadBuffer();
    messages := [];
    StreamStart(rb);
    ghost var whole := Flat(fragments);
    for i := 0 to |fragments|
      invariant Drained(rb, messages, Flat(fragments[..i])) && !BadHeader(Frames(Flat(fragments[..i])).rest)
      invariant fresh(rb) && fresh({rb.current, rb.Work()})
    {
      var left := fragments[i];
      ghost var sent := Flat(fragments[..i]);
      ConcatNext(fragments, i);
      ConcatPrefix(fragments, i + 1);
      while left != []
        invariant Drained(rb, messages, sent) && !BadHeader(Frames(sent).rest) &&
          sent + left == Flat(fragments[..i + 1])
        invariant fresh(rb) && fresh({rb.current, rb.Work()})
        decreases |left|
      {
        ok, messages, left, sent := ReadSome(rb, messages, left, sent);
        if !ok {
          assert whole == sent + whole[|sent|..];
          BadStays(sent, whole[|sent|..]);
          DrainedMessages(rb, messages, sent);
          return;
        }
      }
      assert sent + [] == sent;
    }
    assert fragments[..|fragments|] == fragments;
    DrainedMessages(rb, messages, whole);
    ok := true;
  }

  // ---- Holding on to views ----

  datatype Action = Read(input: Input) | Pop

  /** A read takes something whenever something is there, unless a bad header has ended the stream. */
  ghost predicate TakenFrom(input: Input, before: seq<Byte>, taken: seq<Byte>) {
    if !input.Data? || BadHeader(Frames(before).rest) then taken == []
    else taken <= input.bytes && (taken == [] ==> input.bytes == [])
  }

  /** What an action does after the bytes `before` were read and `held` views popped. */
  ghost predicate ActionDone(a: Action, before: seq<Byte>, held: nat, taken: seq<Byte>, held': nat) {
    match a
    case Read(input) => TakenFrom(input, before, taken) && held' == held
    case Pop => taken == [] && held' == if held < |Frames(before).msgs| then held + 1 else held
  }

  /** What each action took off the stream, and how many views were held before each and at the end. */
  ghost predicate SessionDone(actions: seq<Action>, takes: seq<seq<Byte>>, held: seq<nat>) {
    && |takes| == |actions| && |held| == |actions| + 1 && held[0] == 0
    && forall i :: 0 <= i < |actions| ==> ActionDone(actions[i], Flat(takes[..i]), held[i], takes[i], held[i + 1])
  }

  /** The views popped so far hold the first messages of everything read. */
  ghost predicate StillHeld(rb: ReadBuffer, views: seq<View>)
    reads rb, set v | v in views :: v.base
  {
    views == rb.popped && Holds(views, rb.gone)
  }

  lemma HeldFrames(rb: ReadBuffer, views: seq<View>)
    requires rb.Valid() && StillHeld(rb, views)
    ensures views == rb.popped && |views| <= |Frames(rb.consumed).msgs| &&
      Holds(views, Frames(rb.consumed).msgs[..|views|])
  {
    hide Frames, Placed, Settled;
    rb.Refines();
  }

  /** One read leaves every view that is held as it is. */
  method ReadHolding(rb: ReadBuffer, input: Input, views: seq<View>) returns (taken: seq<Byte>)
    requires rb.Valid() && StillHeld(rb, views)
    modifies rb, rb.current, rb.Work()
    ensures rb.Valid() && StillHeld(rb, views) && rb.consumed == old(rb.consumed) + taken
    ensures fresh({rb.current, rb.Work()} - old({rb.current, rb.Work()}))
    ensures TakenFrom(input, old(rb.consumed), taken)
  {
    hide Frames, Placed, Settled, View.Contents, BadHeader, ReadBuffer.Valid, ReadBuffer.Pending;
    rb.Refines();
    assert forall i :: 0 <= i < |views| ==> views[i] == rb.Issued()[i] && views[i] in rb.Issued();
    var r, got, room := rb.ReadMore(input);
    taken := got;
  }

  /** A pop adds the next message, if there is one, to the views held. */
  method PopHolding(rb: ReadBuffer, views: seq<View>) returns (views': seq<View>)
    requires rb.Valid() && StillHeld(rb, views)
    modifies rb
    ensures rb.Valid() && StillHeld(rb, views') && rb.consumed == old(rb.consumed) && views <= views'
    ensures |views'| == if |views| < |Frames(rb.consumed).msgs| then |views| + 1 else |views|
    ensures rb.current == old(rb.current) && rb.Work() == old(rb.Work())
  {
    hide Frames, Placed, Settled, ReadBuffer.Valid, ReadBuffer.Pending, IsMessage;
    views' := views;
    ghost var told := rb.gone;
    rb.Refines();
    var v := rb.PopNextMsg();
    rb.Refines();
    if v.Some? {
      assert rb.gone == told + [v.value.Contents()];
      HoldsMore(views, told, v.value);
      views' := views + [v.value];
    }
  }

  /**
   * Any sequence of reads and pops: the views popped along the way are kept, and
   * in the end each of them still holds the message it was issued for.
   */
  method Session(actions: seq<Action>)
    returns (views: seq<View>, rb: ReadBuffer, ghost takes: seq<seq<Byte>>, ghost held: seq<nat>)
    ensures SessionDone(actions, takes, held) && |views| == held[|actions|]
    ensures rb.Valid() && rb.consumed == Flat(takes) && views == rb.popped
    ensures |views| <= |Frames(Flat(takes)).msgs| && Holds(views, Frames(Flat(takes)).msgs[..|views|])
  {
    hide Frames, Placed, Settled, View.Contents, Holds, Flat, ReadBuffer.Valid, StillHeld, SessionDone, TakenFrom;
    rb := new ReadBuffer();
    views, takes, held := [], [], [0];
    NothingHeld(rb);
    for i := 0 to |actions|
      invariant rb.Valid() && StillHeld(rb, views) && fresh(rb) && fresh({rb.current, rb.Work()})
      invariant |held| == i + 1 && held[i] == |views|
      invariant SessionDone(actions[..i], takes, held) && rb.consumed == Flat(takes)
    {
      var taken := [];
      match actions[i] {
        case Read(input) =>
          taken := ReadHolding(rb, input, views);
        case Pop =>
          views := PopHolding(rb, views);
          assert rb.consumed + taken == rb.consumed;
      }
      SessionMore(actions, i, takes, held, taken, |views|);
      FlatMore(takes, taken);
      takes, held := takes + [taken], held + [|views|];
    }
    assert actions[..|actions|] == actions;
    HeldFrames(rb, views);
  }

  lemma SessionMore(actions: seq<Action>, i: nat, takes: seq<seq<Byte>>, held: seq<nat>, taken: seq<Byte>, n: nat)
    requires i < |actions| && SessionDone(actions[..i], takes, held)
    requires |held| == i + 1 && ActionDone(actions[i], Flat(takes), held[i], taken, n)
    ensures SessionDone(actions[..i + 1], takes + [taken], held + [n])
  {
    hide ActionDone, Flat;
    var takes', held' := takes + [taken], held + [n];
    forall k | 0 <= k <= i
      ensures ActionDone(actions[..i + 1][k], Flat(takes'[..k]), held'[k], takes'[k], held'[k + 1]) {
      if k < i {
        assert actions[..i + 1][k] == actions[..i][k] && takes'[..k] == takes[..k];
      } else {
        assert takes'[..k] == takes;
      }
    }
  }

  lemma NothingHeld(rb: ReadBuffer)
    requires rb.Valid() && rb.consumed == [] && rb.Issued() == []
    ensures StillHeld(rb, []) && Flat<Byte>([]) == [] && SessionDone([], [], [0])
  {
  }

  lemma StreamStart(rb: ReadBuffer)
    requires rb.Valid() && rb.consumed == [] && rb.Issued() == []
    ensures Drained(rb, [], Flat([])) && !BadHeader(Frames(Flat([])).rest)
  {
    FramedStart();
  }

  lemma DrainedMessages(rb: ReadBuffer, messages: seq<seq<Byte>>, sent: seq<Byte>)
    requires Drained(rb, messages, sent)
    ensures messages == Frames(sent).msgs
  {
  }
}

/** The shared task set and the choice of the next task. */
module TaskQueue {
  import opened Bytes
  import opened Intervals
  import M = Mirror

  /** Where a byte lives: in the mapped file or in the mirror of object `rid`. */
  datatype Store = Mapping | MirrorCopy
  datatype Addr = Addr(store: Store, rid: nat, off: nat)
  type Memory = map<Addr, Byte>

  /** A diff or fill message once decompressed: the bytes it stores, all within `region` of object `rid`. */
  datatype Update = Update(rid: nat, region: Interval, writes: Memory) {
    predicate Valid() {
      region.lo < region.hi && forall a :: a in writes ==> a.rid == rid && region.Has(a.off)
    }
  }

  /** What a worker is told to do. */
  datatype WorkTask =
    | ApplyTask(seqno: nat, update: Update)
    | DecompTask(seqno: nat, update: Update)
    | ConstructTask(id: nat)

  datatype Tasks = Tasks(
    lastSeqno: nat,
    decompress: seq<Update>,
    inProgressDecomp: set<nat>,
    apply: map<nat, Update>,
    inProgressApply: set<(nat, Interval)>,
    construct: seq<nat>)

  /** `t` is the smallest sequence number waiting to be applied. */
  ghost predicate IsFirst(s: Tasks, t: nat) {
    t in s.apply && forall k :: k in s.apply ==> t <= k
  }

  /** Nothing earlier is still being decompressed and nothing overlapping is being applied. */
  predicate MayApply(s: Tasks, t: nat)
    requires t in s.apply
  {
    && (forall q :: q in s.inProgressDecomp ==> t <= q)
    && (forall e :: e in s.inProgressApply ==> !M.Overlap(e.1, s.apply[t].region))
  }

  /** What taking a task does. */
  ghost predicate Popped(s: Tasks, s': Tasks, r: Option<WorkTask>) {
    if exists t :: IsFirst(s, t) && MayApply(s, t) then
      exists t :: IsFirst(s, t) && MayApply(s, t) && r == Some(ApplyTask(t, s.apply[t]))
        && s' == s.(apply := s.apply - {t}, inProgressApply := s.inProgressApply + {(t, s.apply[t].region)})
    else if s.decompress != [] then
      r == Some(DecompTask(s.lastSeqno, s.decompress[0]))
        && s' == s.(lastSeqno := s.lastSeqno + 1, decompress := s.decompress[1..],
                    inProgressDecomp := s.inProgressDecomp + {s.lastSeqno})
    else if s.construct != [] then
      r == Some(ConstructTask(s.construct[0])) && s' == s.(construct := s.construct[1..])
    else r == None && s' == s
  }

  /** A message waits to be decompressed. */
  function Enqueued(s: Tasks, u: Update): Tasks {
    s.(decompress := s.decompress + [u])
  }

  /** Update `n` is decompressed and waits to be applied. */
  function Decompressed(s: Tasks, n: nat, u: Update): Tasks {
    s.(inProgressDecomp := s.inProgressDecomp - {n}, apply := s.apply[n := u])
  }

  /** Update `n` is applied and its region free again. */
  function Released(s: Tasks, n: nat, u: Update): Tasks {
    s.(inProgressApply := s.inProgressApply - {(n, u.region)})
  }

  /** Everything being applied is earlier than everything waiting to be applied. */
  ghost predicate InOrder(s: Tasks) {
    forall e, k :: e in s.inProgressApply && k in s.apply ==> e.0 < k
  }

  method FirstKey(m: map<nat, Update>) returns (t: nat)
    requires m.Keys != {}
    ensures t in m && forall k :: k in m ==> t <= k
  {
    t :| t in m.Keys;
    var todo := m.Keys - {t};
    while todo != {}
      invariant todo <= m.Keys && t in m && forall k :: k in m ==> k in todo || t <= k
      decreases |todo|
    {
      var k :| k in todo;
      if k < t { t := k; }
      todo := todo - {k};
    }
  }

  /** No decompression with a lower sequence number is in progress. */
  method NothingEarlier(decomp: set<nat>, t: nat) returns (ok: bool)
    ensures ok <==> forall q :: q in decomp ==> t <= q
  {
    var todo := decomp;
    while todo != {}
      invariant todo <= decomp && forall q :: q in decomp ==> q in todo || t <= q
      decreases |todo|
    {
      var q :| q in todo;
      if q < t { return false; }
      todo := todo - {q};
    }
    return true;
  }

  /** No overlapping region is being written; one that does overlap belongs to an earlier task. */
  method NothingOverlapping(going: set<(nat, Interval)>, t: nat, region: Interval) returns (ok: bool)
    requires forall e :: e in going ==> e.0 < t
    ensures ok <==> forall e :: e in going ==> !M.Overlap(e.1, region)
  {
    var todo := going;
    while todo != {}
      invariant todo <= going && forall e :: e in going ==> e in todo || !M.Overlap(e.1, region)
      decreases |todo|
    {
      var e :| e in todo;
      if M.Overlap(e.1, region) {
        assert e.0 < t;
        return false;
      }
      todo := todo - {e};
    }
    return true;
  }

  class TaskSet {
    var lastSeqno: nat
    var decompress: seq<Update>
    var inProgressDecomp: set<nat>
    var apply: map<nat, Update>
    var inProgressApply: set<(nat, Interval)>
    var construct: seq<nat>

    function View(): Tasks
      reads this
    {
      Tasks(lastSeqno, decompress, inProgressDecomp, apply, inProgressApply, construct)
    }

    constructor ()
      ensures View() == Tasks(0, [], {}, map[], {}, [])
    {
      lastSeqno, decompress, inProgressDecomp, apply, inProgressApply, construct := 0, [], {}, map[], {}, [];
    }

    /** Identify a task which can be run, if there is one. Applies come first, lowest sequence number first. */
    method PopTask() returns (r: Option<WorkTask>)
      requires InOrder(View())
      modifies this
      ensures Popped(old(View()), View(), r)
    {
      if apply.Keys != {} {
        var t := FirstKey(apply);
        assert IsFirst(View(), t);
        var ok := NothingEarlier(inProgressDecomp, t);
        var clear := NothingOverlapping(inProgressApply, t, apply[t].region);
        ok := ok && clear;
        if ok {
          var u := apply[t];
          apply := apply - {t};
          inProgressApply := inProgressApply + {(t, u.region)};
          return Some(ApplyTask(t, u));
        }
        OnlyFirst(View(), t);
      }
      if decompress != [] {
        var x, s := decompress[0], lastSeqno;
        decompress := decompress[1..];
        lastSeqno := lastSeqno + 1;
        inProgressDecomp := inProgressDecomp + {s};
        return Some(DecompTask(s, x));
      }
      if construct != [] {
        var x := construct[0];
        construct := construct[1..];
        return Some(ConstructTask(x));
      }
      return None;
    }

    /** A decompression finished: its update waits to be applied. */
    method FinishDecomp(s: nat, u: Update)
      modifies this
      ensures View() == Decompressed(old(View()), s, u)
    {
      inProgressDecomp := inProgressDecomp - {s};
      apply := apply[s := u];
    }

    /** An apply finished. */
    method FinishApply(s: nat, u: Update)
      modifies this
      ensures View() == Released(old(View()), s, u)
    {
      inProgressApply := inProgressApply - {(s, u.region)};
    }

    /** A message arrived. */
    method Enqueue(u: Update)
      modifies this
      ensures View() == Enqueued(old(View()), u)
    {
      decompress := decompress + [u];
    }
  }

  lemma OnlyFirst(s: Tasks, t: nat)
    requires IsFirst(s, t) && !MayApply(s, t)
    ensures !exists k :: IsFirst(s, k) && MayApply(s, k)
  {
    forall k | IsFirst(s, k) ensures k == t {}
  }
}

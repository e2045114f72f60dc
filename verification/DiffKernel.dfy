/** Diff construction: a 64-byte line at a time, papering over short unchanged gaps. */
module DiffKernel {
  import opened Bytes
  import opened Replay
  import opened DiffFormat

  type Line = s: seq<Byte> | |s| == 64 witness seq(64, i => 0)

  /**
   * How many leading/trailing words of a changed line a kernel recognises as
   * unchanged. `firstTrail` is used for the line that opens a record, `trail`
   * for later ones. `storeLast` says whether the line that closes a record is
   * written back to the reference.
   */
  datatype LineRule = LineRule(
    lead: (Line, Line) -> nat,
    firstTrail: (Line, Line) -> nat,
    trail: (Line, Line) -> nat,
    storeLast: bool)

  ghost predicate SameSuffix(v: Line, r: Line, words: nat) {
    words <= 16 && v[64 - 4 * words..] == r[64 - 4 * words..]
  }

  /** A rule may under-report what is unchanged, never over-report it. */
  ghost predicate Sound(k: LineRule) {
    && (forall v: Line, r: Line {:trigger k.lead(v, r)} :: v != r ==>
          k.lead(v, r) + k.firstTrail(v, r) < 16 && v[..4 * k.lead(v, r)] == r[..4 * k.lead(v, r)])
    && (forall v: Line, r: Line {:trigger k.firstTrail(v, r)} :: v != r ==> SameSuffix(v, r, k.firstTrail(v, r)))
    && (forall v: Line, r: Line {:trigger k.trail(v, r)} :: v != r ==>
         k.trail(v, r) < 16 && SameSuffix(v, r, k.trail(v, r)))
  }

  lemma SoundFirst(k: LineRule, v: Line, r: Line)
    requires Sound(k) && v != r
    ensures k.lead(v, r) + k.firstTrail(v, r) < 16 && v[..4 * k.lead(v, r)] == r[..4 * k.lead(v, r)]
    ensures SameSuffix(v, r, k.firstTrail(v, r))
  {
  }

  lemma SoundNext(k: LineRule, v: Line, r: Line)
    requires Sound(k) && v != r
    ensures k.trail(v, r) < 16 && SameSuffix(v, r, k.trail(v, r))
  {
  }

  function LineOf(s: seq<Byte>, i: nat): Line
    requires 64 * i + 64 <= |s|
  {
    s[64 * i..64 * i + 64]
  }

  /** Skip lines that agree; `l` is the first line that does not, or the number of lines. */
  method ScanUnchanged(target: seq<Byte>, reference: array<Byte>, r0: nat, line: nat) returns (l: nat)
    requires |target| % 64 == 0 && r0 + |target| <= reference.Length && 64 * line <= |target|
    ensures line <= l && 64 * l <= |target|
    ensures reference[r0 + 64 * line..r0 + 64 * l] == target[64 * line..64 * l]
    ensures 64 * l < |target| ==> reference[r0 + 64 * l..r0 + 64 * l + 64] != target[64 * l..64 * l + 64]
  {
    l := line;
    while 64 * l < |target| && reference[r0 + 64 * l..r0 + 64 * l + 64] == target[64 * l..64 * l + 64]
      invariant line <= l && 64 * l <= |target|
      invariant reference[r0 + 64 * line..r0 + 64 * l] == target[64 * line..64 * l]
    {
      assert reference[r0 + 64 * line..r0 + 64 * l + 64] ==
        reference[r0 + 64 * line..r0 + 64 * l] + reference[r0 + 64 * l..r0 + 64 * l + 64];
      assert target[64 * line..64 * l + 64] == target[64 * line..64 * l] + target[64 * l..64 * l + 64];
      l := l + 1;
    }
  }

  /** The new contents `target[lo..hi]` stand at `d`; the diff is otherwise as before up to `d` and from `free` on. */
  ghost predicate Stored(diff: seq<Byte>, diff0: seq<Byte>, d: nat, target: seq<Byte>, lo: nat, hi: nat, free: nat) {
    && lo <= hi <= |target| && d + (hi - lo) <= free <= |diff| == |diff0|
    && diff[..d] == diff0[..d] && diff[d..d + (hi - lo)] == target[lo..hi] && diff[free..] == diff0[free..]
  }

  /** The reference is up to date on `lo..hi`. */
  ghost predicate Brought(ref: seq<Byte>, ref0: seq<Byte>, r0: nat, target: seq<Byte>, lo: nat, hi: nat) {
    && lo <= hi <= |target| && r0 + |target| <= |ref0|
    && ref == ref0[..r0 + lo] + target[lo..hi] + ref0[r0 + hi..]
  }

  /** Old and new contents agree on `lo..hi`. */
  ghost predicate Agree(ref0: seq<Byte>, r0: nat, target: seq<Byte>, lo: int, hi: int) {
    && 0 <= lo <= hi <= |target| && r0 + |target| <= |ref0|
    && ref0[r0 + lo..r0 + hi] == target[lo..hi]
  }

  /** What is known after copying lines `line..next` of a record that starts at word `start`. */
  ghost predicate Emitted(diff: seq<Byte>, diff0: seq<Byte>, d: nat, target: seq<Byte>, ref: seq<Byte>, ref0: seq<Byte>,
                          r0: nat, line: nat, next: nat, start: nat, trailing: nat) {
    && line < next && 64 * next <= |target| && r0 + |target| <= |ref0|
    && 16 * line <= start && start + trailing < 16 * next
    && Stored(diff, diff0, d, target, 4 * start, 64 * next, d + 64 * (next - line))
    && Brought(ref, ref0, r0, target, 64 * line, 64 * next)
    && Agree(ref0, r0, target, 64 * line, 4 * start)
    && Agree(ref0, r0, target, 64 * next - 4 * trailing, 64 * next)
  }

  lemma EmitFirst(diff0: seq<Byte>, d: nat, target: seq<Byte>, ref0: seq<Byte>, r0: nat, line: nat, lead: nat,
                  trailing: nat)
    requires 64 * line + 64 <= |target| && r0 + |target| <= |ref0| && d + 64 <= |diff0|
    requires lead + trailing < 16
    requires var v, r := LineOf(target, line), ref0[r0 + 64 * line..r0 + 64 * line + 64];
      v[..4 * lead] == r[..4 * lead] && SameSuffix(v, r, trailing)
    ensures var v := LineOf(target, line);
      Emitted(Patched(diff0, d, v[4 * lead..]), diff0, d, target, Patched(ref0, r0 + 64 * line, v), ref0, r0, line,
              line + 1, 16 * line + lead, trailing)
  {
    var v, lo, start := LineOf(target, line), 64 * line, 16 * line + lead;
    FirstStored(diff0, d, target, lo, 4 * start);
    FirstBrought(ref0, r0, target, lo);
    FirstAgrees(ref0, r0, target, lo, 4 * lead, 64 - 4 * trailing);
    hide Stored, Brought, Agree, Patched, SameSuffix;
    assert v == target[lo..lo + 64] && v[4 * lead..] == target[4 * start..lo + 64];
  }

  lemma FirstStored(diff0: seq<Byte>, d: nat, target: seq<Byte>, lo: nat, from: nat)
    requires lo <= from <= lo + 64 <= |target| && d + 64 <= |diff0|
    ensures Stored(Patched(diff0, d, target[from..lo + 64]), diff0, d, target, from, lo + 64, d + 64)
  {
  }

  lemma FirstBrought(ref0: seq<Byte>, r0: nat, target: seq<Byte>, lo: nat)
    requires lo + 64 <= |target| && r0 + |target| <= |ref0|
    ensures Brought(Patched(ref0, r0 + lo, target[lo..lo + 64]), ref0, r0, target, lo, lo + 64)
  {
  }

  lemma FirstAgrees(ref0: seq<Byte>, r0: nat, target: seq<Byte>, lo: nat, a: nat, b: nat)
    requires lo + 64 <= |target| && r0 + |target| <= |ref0| && a <= 64 && b <= 64
    requires var v, r := target[lo..lo + 64], ref0[r0 + lo..r0 + lo + 64]; v[..a] == r[..a] && v[b..] == r[b..]
    ensures Agree(ref0, r0, target, lo, lo + a) && Agree(ref0, r0, target, lo + b, lo + 64)
  {
    var v, r := target[lo..lo + 64], ref0[r0 + lo..r0 + lo + 64];
    assert v[..a] == target[lo..lo + a] && r[..a] == ref0[r0 + lo..r0 + lo + a];
    assert v[b..] == target[lo + b..lo + 64] && r[b..] == ref0[r0 + lo + b..r0 + lo + 64];
  }

  lemma StoreMore(diff: seq<Byte>, diff0: seq<Byte>, d: nat, target: seq<Byte>, lo: nat, hi: nat, free: nat)
    requires Stored(diff, diff0, d, target, lo, hi, free) && hi + 64 <= |target| && free + 64 <= |diff|
    ensures Stored(Patched(diff, d + (hi - lo), target[hi..hi + 64]), diff0, d, target, lo, hi + 64, free + 64)
  {
    var v := target[hi..hi + 64];
    var diff' := Patched(diff, d + (hi - lo), v);
    assert diff'[..d] == diff[..d];
    assert diff'[d..d + (hi + 64 - lo)] == diff[d..d + (hi - lo)] + v;
    assert target[lo..hi + 64] == target[lo..hi] + v;
    assert diff'[free + 64..] == diff[free..][64..];
  }

  lemma BringMore(ref: seq<Byte>, ref0: seq<Byte>, r0: nat, target: seq<Byte>, lo: nat, hi: nat)
    requires Brought(ref, ref0, r0, target, lo, hi) && hi + 64 <= |target|
    ensures Brought(Patched(ref, r0 + hi, target[hi..hi + 64]), ref0, r0, target, lo, hi + 64)
    ensures |ref| == |ref0| && ref[r0 + hi..r0 + hi + 64] == ref0[r0 + hi..r0 + hi + 64]
    ensures ref[r0 + hi..r0 + hi + 64] == target[hi..hi + 64] ==> Patched(ref, r0 + hi, target[hi..hi + 64]) == ref
  {
  }

  /** A line not copied yet still has its old contents; copying an unchanged line changes nothing. */
  lemma LineBefore(diff: seq<Byte>, diff0: seq<Byte>, d: nat, target: seq<Byte>, ref: seq<Byte>, ref0: seq<Byte>,
                   r0: nat, line: nat, next: nat, start: nat, trailing: nat)
    requires Emitted(diff, diff0, d, target, ref, ref0, r0, line, next, start, trailing) && 64 * next + 64 <= |target|
    ensures |ref| == |ref0| && |diff| == |diff0| && r0 + |target| <= |ref0|
    ensures ref[r0 + 64 * next..r0 + 64 * next + 64] == ref0[r0 + 64 * next..r0 + 64 * next + 64]
    ensures LineOf(target, next) == ref[r0 + 64 * next..r0 + 64 * next + 64] ==>
      Patched(ref, r0 + 64 * next, LineOf(target, next)) == ref
  {
    hide Agree;
    BringMore(ref, ref0, r0, target, 64 * line, 64 * next);
  }

  lemma EmitNext(diff: seq<Byte>, diff0: seq<Byte>, d: nat, target: seq<Byte>, ref: seq<Byte>, ref0: seq<Byte>,
                 r0: nat, line: nat, next: nat, start: nat, trailing: nat, r: Line, trailing': nat)
    requires Emitted(diff, diff0, d, target, ref, ref0, r0, line, next, start, trailing)
    requires 64 * next + 64 <= |target| && d + 64 * (next + 1 - line) <= |diff0| && |ref| == |ref0| && |diff| == |diff0|
    requires r0 + |target| <= |ref0| && r == ref0[r0 + 64 * next..r0 + 64 * next + 64]
    requires if LineOf(target, next) == r then trailing' == trailing + 16
      else trailing' < 16 && SameSuffix(LineOf(target, next), r, trailing')
    ensures Emitted(Patched(diff, d + 4 * (16 * next - start), LineOf(target, next)), diff0, d, target,
                    Patched(ref, r0 + 64 * next, LineOf(target, next)), ref0, r0, line, next + 1, start, trailing')
    ensures start + trailing' < 16 * (next + 1)
  {
    hide Patched, Stored, Brought, Agree, SameSuffix;
    StoreMore(diff, diff0, d, target, 4 * start, 64 * next, d + 64 * (next - line));
    BringMore(ref, ref0, r0, target, 64 * line, 64 * next);
    SuffixGrows(target, ref0, r0, next, trailing, trailing');
  }

  lemma SuffixGrows(target: seq<Byte>, ref0: seq<Byte>, r0: nat, next: nat, trailing: nat, trailing': nat)
    requires 64 * next + 64 <= |target| && r0 + |target| <= |ref0| && trailing <= 16 * next
    requires Agree(ref0, r0, target, 64 * next - 4 * trailing, 64 * next)
    requires var v, r := LineOf(target, next), ref0[r0 + 64 * next..r0 + 64 * next + 64];
      if v == r then trailing' == trailing + 16 else trailing' < 16 && SameSuffix(v, r, trailing')
    ensures trailing' <= 16 * next + 16 && Agree(ref0, r0, target, 64 * next + 64 - 4 * trailing', 64 * next + 64)
  {
    var v, r := LineOf(target, next), ref0[r0 + 64 * next..r0 + 64 * next + 64];
    var lo := 64 * next + 64 - 4 * trailing';
    if v == r {
      assert ref0[r0 + lo..r0 + 64 * next + 64] == ref0[r0 + lo..r0 + 64 * next] + r;
      assert target[lo..64 * next + 64] == target[lo..64 * next] + v;
    } else {
      assert ref0[r0 + lo..r0 + 64 * next + 64] == r[64 - 4 * trailing'..];
      assert target[lo..64 * next + 64] == v[64 - 4 * trailing'..];
    }
  }

  // ---- Where records begin and end ----

  ghost predicate LineChanged(was: seq<Byte>, now: seq<Byte>, i: nat)
    requires 64 * i + 64 <= |was| == |now|
  {
    LineOf(was, i) != LineOf(now, i)
  }

  ghost predicate SameLines(was: seq<Byte>, now: seq<Byte>, i: nat, j: nat)
    requires i <= j && 64 * j <= |was| == |now|
  {
    was[64 * i..64 * j] == now[64 * i..64 * j]
  }

  /** The words at the end of line `p` that count as unchanged, in a record whose first line is `a`. */
  function TrailOf(k: LineRule, was: seq<Byte>, now: seq<Byte>, a: nat, p: nat): nat
    requires 64 * p + 64 <= |was| == |now|
  {
    if p == a then k.firstTrail(LineOf(now, p), LineOf(was, p)) else k.trail(LineOf(now, p), LineOf(was, p))
  }

  /**
   * If nothing changed between line `p` and line `j`, the words that count as unchanged are no more
   * than the gap allows.
   */
  ghost predicate GapOk(k: LineRule, was: seq<Byte>, now: seq<Byte>, a: nat, p: nat, j: nat, skipGap: nat)
    requires p < j && 64 * j <= |was| == |now|
  {
    LineChanged(was, now, p) && SameLines(was, now, p + 1, j) ==>
      TrailOf(k, was, now, a, p) + 16 * (j - (p + 1)) <= skipGap
  }

  ghost predicate GapsOk(k: LineRule, was: seq<Byte>, now: seq<Byte>, a: nat, b: nat, skipGap: nat)
    requires 64 * b <= |was| == |now|
  {
    forall p, j :: a <= p < j <= b ==> GapOk(k, was, now, a, p, j, skipGap)
  }

  /**
   * A record under way from line `a`: line `b` is the last that changed, and `trailing` words count
   * as unchanged after it.
   */
  ghost predicate Under(k: LineRule, was: seq<Byte>, now: seq<Byte>, a: nat, b: nat, next: nat, start: nat,
                        trailing: nat, skipGap: nat) {
    && a <= b < next && 64 * next <= |was| == |now|
    && LineChanged(was, now, a) && LineChanged(was, now, b) && SameLines(was, now, b + 1, next)
    && start == 16 * a + k.lead(LineOf(now, a), LineOf(was, a))
    && trailing == TrailOf(k, was, now, a, b) + 16 * (next - (b + 1))
    && GapsOk(k, was, now, a, b, skipGap)
  }

  lemma LineInSame(was: seq<Byte>, now: seq<Byte>, i: nat, j: nat, l: nat)
    requires i <= l < j && 64 * j <= |was| == |now| && SameLines(was, now, i, j)
    ensures !LineChanged(was, now, l)
  {
    SubEqual(was, 64 * i, now, 64 * i, 64 * (j - i), 64 * (l - i), 64 * (l - i) + 64);
  }

  lemma SameLinesMore(was: seq<Byte>, now: seq<Byte>, i: nat, j: nat)
    requires i <= j && 64 * j + 64 <= |was| == |now| && SameLines(was, now, i, j) && !LineChanged(was, now, j)
    ensures SameLines(was, now, i, j + 1)
  {
    assert was[64 * i..64 * (j + 1)] == was[64 * i..64 * j] + LineOf(was, j);
    assert now[64 * i..64 * (j + 1)] == now[64 * i..64 * j] + LineOf(now, j);
  }

  lemma UnderFirst(k: LineRule, was: seq<Byte>, now: seq<Byte>, a: nat, skipGap: nat)
    requires 64 * a + 64 <= |was| == |now| && LineChanged(was, now, a)
    ensures Under(k, was, now, a, a, a + 1, 16 * a + k.lead(LineOf(now, a), LineOf(was, a)),
                  k.firstTrail(LineOf(now, a), LineOf(was, a)), skipGap)
  {
  }

  /** The gap before a line that follows one that is under way. */
  lemma GapBefore(k: LineRule, was: seq<Byte>, now: seq<Byte>, a: nat, b: nat, next: nat, start: nat, trailing: nat,
                  skipGap: nat, p: nat, j: nat)
    requires Under(k, was, now, a, b, next, start, trailing, skipGap) && trailing <= skipGap
    requires a <= p < j <= next
    ensures GapOk(k, was, now, a, p, j, skipGap)
  {
    hide LineChanged, SameLines, TrailOf;
    if j <= b {
      assert GapOk(k, was, now, a, p, j, skipGap);
    } else if p < b {
      if SameLines(was, now, p + 1, j) { LineInSame(was, now, p + 1, j, b); }
    } else if p > b {
      LineInSame(was, now, b + 1, next, p);
    }
  }

  lemma UnderNext(k: LineRule, was: seq<Byte>, now: seq<Byte>, a: nat, b: nat, next: nat, start: nat, trailing: nat,
                  skipGap: nat) returns (b': nat)
    requires Under(k, was, now, a, b, next, start, trailing, skipGap) && trailing <= skipGap && 64 * next + 64 <= |now|
    ensures var v, r := LineOf(now, next), LineOf(was, next);
      Under(k, was, now, a, b', next + 1, start, if v == r then trailing + 16 else k.trail(v, r), skipGap)
  {
    if LineChanged(was, now, next) {
      b' := next;
      forall p, j | a <= p < j <= next ensures GapOk(k, was, now, a, p, j, skipGap) {
        GapBefore(k, was, now, a, b, next, start, trailing, skipGap, p, j);
      }
    } else {
      b' := b;
      SameLinesMore(was, now, b + 1, next);
    }
  }

  /**
   * The record runs from a changed line `a` to a changed line `b`, leaves out just
   * the words that the rule counts as unchanged at its ends, and has no unchanged
   * stretch inside that exceeds the gap.
   */
  ghost predicate TightAt(r: ByteRecord, k: LineRule, was: seq<Byte>, now: seq<Byte>, base: nat, skipGap: nat, a: nat,
                          b: nat) {
    && a <= b && 64 * b + 64 <= |was| == |now| && LineChanged(was, now, a) && LineChanged(was, now, b)
    && r.at == base + 4 * (16 * a + k.lead(LineOf(now, a), LineOf(was, a)))
    && r.at + |r.data| == base + 4 * (16 * (b + 1) - TrailOf(k, was, now, a, b))
    && GapsOk(k, was, now, a, b, skipGap)
  }

  ghost predicate Tight(r: ByteRecord, k: LineRule, was: seq<Byte>, now: seq<Byte>, base: nat, skipGap: nat) {
    exists a, b :: TightAt(r, k, was, now, base, skipGap, a, b)
  }

  ghost predicate AllTight(rs: seq<ByteRecord>, k: LineRule, was: seq<Byte>, now: seq<Byte>, base: nat, skipGap: nat) {
    forall i :: 0 <= i < |rs| ==> Tight(rs[i], k, was, now, base, skipGap)
  }

  /** No unchanged stretch of lines between the first and the last line of a record exceeds the gap. */
  lemma {:induction false} NoLongStretch(r: ByteRecord, k: LineRule, was: seq<Byte>, now: seq<Byte>, base: nat,
                                         skipGap: nat, a: nat, b: nat, i: nat, j: nat)
    requires TightAt(r, k, was, now, base, skipGap, a, b) && a <= i < j <= b && SameLines(was, now, i, j)
    ensures 16 * (j - i) <= skipGap
    decreases i
  {
    hide LineChanged, TrailOf;
    LineInSame(was, now, i, j, i);
    assert i > a;
    if LineChanged(was, now, i - 1) {
      assert GapOk(k, was, now, a, i - 1, j, skipGap);
    } else {
      StretchBack(was, now, i, j);
      NoLongStretch(r, k, was, now, base, skipGap, a, b, i - 1, j);
    }
  }

  lemma StretchBack(was: seq<Byte>, now: seq<Byte>, i: nat, j: nat)
    requires 0 < i < j && 64 * j <= |was| == |now| && SameLines(was, now, i, j) && !LineChanged(was, now, i - 1)
    ensures SameLines(was, now, i - 1, j)
  {
    assert was[64 * (i - 1)..64 * j] == LineOf(was, i - 1) + was[64 * i..64 * j];
    assert now[64 * (i - 1)..64 * j] == LineOf(now, i - 1) + now[64 * i..64 * j];
  }

  lemma EndsInLines(a: nat, lead: nat, b: nat, trail: nat)
    requires lead < 16 && trail < 16 && 16 * a + lead < 16 * (b + 1) - trail
    ensures 4 * (16 * a + lead) / 64 == a && (4 * (16 * (b + 1) - trail) - 1) / 64 == b
  {
  }

  /**
   * The first and the last line that the record touches changed, and no
   * stretch of lines between them that is longer than the gap is unchanged.
   */
  ghost predicate Compact(r: ByteRecord, was: seq<Byte>, now: seq<Byte>, base: nat, skipGap: nat) {
    && base <= r.at && |r.data| > 0 && |was| == |now| && |now| % 64 == 0 && r.at + |r.data| <= base + |now|
    && var a, b := (r.at - base) / 64, (r.at + |r.data| - base - 1) / 64;
       && was[64 * a..64 * a + 64] != now[64 * a..64 * a + 64] && was[64 * b..64 * b + 64] != now[64 * b..64 * b + 64]
       && (forall i, j :: a <= i < j <= b + 1 && 16 * (j - i) > skipGap ==> !SameLines(was, now, i, j))
  }

  ghost predicate AllCompact(rs: seq<ByteRecord>, was: seq<Byte>, now: seq<Byte>, base: nat, skipGap: nat) {
    forall i :: 0 <= i < |rs| ==> Compact(rs[i], was, now, base, skipGap)
  }

  lemma TightEnds(r: ByteRecord, k: LineRule, was: seq<Byte>, now: seq<Byte>, base: nat, skipGap: nat, a: nat, b: nat)
    requires Sound(k) && TightAt(r, k, was, now, base, skipGap, a, b) && |r.data| > 0
    ensures (r.at - base) / 64 == a && (r.at + |r.data| - base - 1) / 64 == b
    ensures base <= r.at && r.at + |r.data| <= base + 64 * b + 64
  {
    SoundFirst(k, LineOf(now, a), LineOf(was, a));
    SoundFirst(k, LineOf(now, b), LineOf(was, b));
    SoundNext(k, LineOf(now, b), LineOf(was, b));
    hide Sound, GapsOk;
    EndsInLines(a, k.lead(LineOf(now, a), LineOf(was, a)), b, TrailOf(k, was, now, a, b));
  }

  lemma TightCompact(r: ByteRecord, k: LineRule, was: seq<Byte>, now: seq<Byte>, base: nat, skipGap: nat, a: nat,
                     b: nat)
    requires Sound(k) && TightAt(r, k, was, now, base, skipGap, a, b) && |r.data| > 0 && |now| % 64 == 0
    ensures Compact(r, was, now, base, skipGap)
  {
    TightEnds(r, k, was, now, base, skipGap, a, b);
    hide Sound, TrailOf, GapsOk;
    forall i, j | a <= i < j <= b + 1 && SameLines(was, now, i, j) ensures 16 * (j - i) <= skipGap {
      if j == b + 1 {
        LineInSame(was, now, i, j, b);
      } else {
        NoLongStretch(r, k, was, now, base, skipGap, a, b, i, j);
      }
    }
  }

  lemma TightMore(rs: seq<ByteRecord>, r: ByteRecord, k: LineRule, was: seq<Byte>, now: seq<Byte>, base: nat,
                  skipGap: nat, a: nat, b: nat)
    requires AllTight(rs, k, was, now, base, skipGap) && AllCompact(rs, was, now, base, skipGap)
    requires Sound(k) && TightAt(r, k, was, now, base, skipGap, a, b) && |r.data| > 0 && |now| % 64 == 0
    ensures AllTight(rs + [r], k, was, now, base, skipGap) && AllCompact(rs + [r], was, now, base, skipGap)
  {
    hide TightAt, Compact, Sound;
    TightCompact(r, k, was, now, base, skipGap, a, b);
    assert Tight(r, k, was, now, base, skipGap);
    hide Tight;
  }

  // ---- The lines of a record are compared with what the reference held at first ----

  lemma SameFrom(was1: seq<Byte>, was: seq<Byte>, a: nat, i: nat, j: nat)
    requires |was1| == |was| && 64 * a <= |was| && was1[64 * a..] == was[64 * a..] && a <= i <= j && 64 * j <= |was|
    ensures was1[64 * i..64 * j] == was[64 * i..64 * j]
  {
    SubEqual(was1, 64 * a, was, 64 * a, |was| - 64 * a, 64 * (i - a), 64 * (j - a));
  }

  lemma GapOkFrom(k: LineRule, was1: seq<Byte>, was: seq<Byte>, now: seq<Byte>, a: nat, p: nat, j: nat, skipGap: nat)
    requires |was1| == |was| == |now| && 64 * a <= |was| && was1[64 * a..] == was[64 * a..]
    requires a <= p < j && 64 * j <= |was| && GapOk(k, was1, now, a, p, j, skipGap)
    ensures GapOk(k, was, now, a, p, j, skipGap)
  {
    SameFrom(was1, was, a, p, p + 1);
    SameFrom(was1, was, a, p + 1, j);
  }

  lemma TightFrom(k: LineRule, was1: seq<Byte>, was: seq<Byte>, now: seq<Byte>, a: nat, b: nat, next: nat, start: nat,
                  trailing: nat, skipGap: nat, base: nat, r: ByteRecord)
    requires |was1| == |was| == |now| && 64 * a <= |was| && was1[64 * a..] == was[64 * a..]
    requires Under(k, was1, now, a, b, next, start, trailing, skipGap)
    requires start + trailing < 16 * next && r.at == base + 4 * start &&
      |r.data| == 4 * (16 * next - trailing) - 4 * start
    ensures TightAt(r, k, was, now, base, skipGap, a, b)
  {
    hide GapOk;
    SameFrom(was1, was, a, a, a + 1);
    SameFrom(was1, was, a, b, b + 1);
    forall p, j | a <= p < j <= b ensures GapOk(k, was, now, a, p, j, skipGap) {
      GapOkFrom(k, was1, was, now, a, p, j, skipGap);
    }
  }

  /**
   * Emit the data of one record, whose first changed line is `line`, from
   * `diff[d..]` on. Words are counted from the start of `target`; the last
   * `trailing` words written did not change. `closed` tells a record ended by a
   * long enough gap from one ended by the end of the input.
   */
  method EmitChanged(diff: array<Byte>, d: nat, target: seq<Byte>, reference: array<Byte>, r0: nat,
                     line: nat, skipGap: nat, k: LineRule)
    returns (start: nat, trailing: nat, next: nat, closed: bool, ghost last: nat)
    requires Sound(k) && skipGap >= 16 && diff != reference
    requires |target| % 64 == 0 && r0 + |target| <= reference.Length
    requires 64 * line < |target| && d + |target| - 64 * line <= diff.Length
    requires reference[r0 + 64 * line..r0 + 64 * line + 64] != target[64 * line..64 * line + 64]
    modifies diff, reference
    ensures Emitted(diff[..], old(diff[..]), d, target, reference[..], old(reference[..]), r0, line, next, start,
                    trailing)
    ensures line < next && 64 * next <= |target| && 16 * line <= start && start + trailing < 16 * next
    ensures if closed then trailing > skipGap else 64 * next == |target|
    ensures Under(k, old(reference[..])[r0..r0 + |target|], target, line, last, next, start, trailing, skipGap)
  {
    hide Emitted, Sound, SameSuffix, Patched, Under;
    ghost var diff0, ref0 := diff[..], reference[..];
    ghost var was := ref0[r0..r0 + |target|];
    var v, r := LineOf(target, line), reference[r0 + 64 * line..r0 + 64 * line + 64];
    var lead := k.lead(v, r);
    trailing := k.firstTrail(v, r);
    SoundFirst(k, v, r);
    assert r == ref0[r0 + 64 * line..r0 + 64 * line + 64];
    EmitFirst(diff0, d, target, ref0, r0, line, lead, trailing);
    OldLine(ref0, target, r0, line);
    UnderFirst(k, was, target, line, skipGap);
    start, last := 16 * line + lead, line;
    CopyInto(diff, d, v[4 * lead..]);
    CopyInto(reference, r0 + 64 * line, v);
    next := line + 1;
    closed := false;
    while 64 * next < |target| && !closed
      invariant line < next && 64 * next <= |target| && 16 * line <= start && start + trailing < 16 * next
      invariant Emitted(diff[..], diff0, d, target, reference[..], ref0, r0, line, next, start, trailing)
      invariant closed <==> trailing > skipGap
      invariant Under(k, was, target, line, last, next, start, trailing, skipGap)
      decreases |target| - 64 * next
    {
      OldLine(ref0, target, r0, next);
      last := UnderNext(k, was, target, line, last, next, start, trailing, skipGap);
      trailing := EmitLine(diff, d, target, reference, r0, line, next, start, trailing, skipGap, k, diff0, ref0);
      closed := trailing > skipGap;
      next := next + 1;
    }
  }

  lemma OldLine(ref: seq<Byte>, target: seq<Byte>, r0: nat, i: nat)
    requires r0 + |target| <= |ref| && 64 * i + 64 <= |target|
    ensures LineOf(ref[r0..r0 + |target|], i) == ref[r0 + 64 * i..r0 + 64 * i + 64]
    ensures LineChanged(ref[r0..r0 + |target|], target, i) <==> LineOf(target, i) != ref[r0 + 64 * i..r0 + 64 * i + 64]
  {
    PartOfPart(ref, r0, r0 + |target|, 64 * i, 64 * i + 64);
  }

  lemma PartOfPart(s: seq<Byte>, a: nat, b: nat, lo: nat, hi: nat)
    requires lo <= hi && a + hi <= b <= |s|
    ensures s[a..b][lo..hi] == s[a + lo..a + hi]
  {
    var u, v := s[a..b][lo..hi], s[a + lo..a + hi];
    forall k | 0 <= k < hi - lo ensures u[k] == v[k] { assert u[k] == s[a..b][lo + k] == s[a + lo + k]; }
  }

  /** Copy one line of an open record; its contents are written back unless it closes the record. */
  method EmitLine(diff: array<Byte>, d: nat, target: seq<Byte>, reference: array<Byte>, r0: nat, line: nat, next: nat,
                  start: nat, trailing: nat, skipGap: nat, k: LineRule, ghost diff0: seq<Byte>, ghost ref0: seq<Byte>)
                    returns (trailing': nat)
    requires Sound(k) && skipGap >= 16 && diff != reference
    requires Emitted(diff[..], diff0, d, target, reference[..], ref0, r0, line, next, start, trailing)
    requires 64 * next + 64 <= |target| && d + 64 * (next + 1 - line) <= diff.Length &&
      r0 + |target| <= reference.Length
    requires line < next && 16 * line <= start <= 16 * next && |diff0| == diff.Length && |ref0| == reference.Length
    modifies diff, reference
    ensures Emitted(diff[..], diff0, d, target, reference[..], ref0, r0, line, next + 1, start, trailing')
    ensures start + trailing' < 16 * (next + 1)
    ensures var v, r := LineOf(target, next), ref0[r0 + 64 * next..r0 + 64 * next + 64];
      trailing' == if v == r then trailing + 16 else k.trail(v, r)
  {
    hide Emitted, Sound, SameSuffix, Patched;
    var v, r := LineOf(target, next), reference[r0 + 64 * next..r0 + 64 * next + 64];
    trailing' := if v == r then trailing + 16 else k.trail(v, r);
    if v != r { SoundNext(k, v, r); }
    assert r == reference[..][r0 + 64 * next..r0 + 64 * next + 64];
    LineBefore(diff[..], diff0, d, target, reference[..], ref0, r0, line, next, start, trailing);
    EmitNext(diff[..], diff0, d, target, reference[..], ref0, r0, line, next, start, trailing, r, trailing');
    CopyInto(diff, d + 4 * (16 * next - start), v);
    if trailing' <= skipGap || k.storeLast { CopyInto(reference, r0 + 64 * next, v); }
  }

  /** What is known after `line` lines have been processed into `len` bytes of diff. */
  ghost predicate Constructed(diff: seq<Byte>, diff0: seq<Byte>, d0: nat, len: nat, target: seq<Byte>, ref: seq<Byte>,
                              ref0: seq<Byte>, r0: nat, line: nat, base: nat, rs: seq<ByteRecord>) {
    && 64 * line <= |target| && r0 + |target| <= |ref0|
    && |diff| == |diff0| && d0 + |target| + 8 <= |diff0| && len <= 64 * line + 8
    && diff[..d0] == diff0[..d0]
    && diff[d0 + |target| + 8..] == diff0[d0 + |target| + 8..]
    && AllEncodable(rs) && diff[d0..d0 + len] == Encode(rs)
    && Explains(rs, ref0[r0..r0 + |target|], target, base, 64 * line)
    && ref == ref0[..r0] + target[..64 * line] + ref0[r0 + 64 * line..]
  }

  lemma ConstructedSkip(diff: seq<Byte>, diff0: seq<Byte>, d0: nat, len: nat, target: seq<Byte>, ref: seq<Byte>,
                        ref0: seq<Byte>, r0: nat, line: nat, line': nat, base: nat, rs: seq<ByteRecord>)
    requires Constructed(diff, diff0, d0, len, target, ref, ref0, r0, line, base, rs)
    requires line <= line' && 64 * line' <= |target|
    requires ref[r0 + 64 * line..r0 + 64 * line'] == target[64 * line..64 * line']
    ensures Constructed(diff, diff0, d0, len, target, ref, ref0, r0, line', base, rs)
  {
    hide Explains, Encode, AllEncodable;
    SkipSame(target, ref, ref0, r0, 64 * line, 64 * line');
    ExplainsUnchanged(rs, ref0[r0..r0 + |target|], target, base, 64 * line, 64 * line');
  }

  lemma SkipSame(target: seq<Byte>, ref: seq<Byte>, ref0: seq<Byte>, r0: nat, a: nat, b: nat)
    requires a <= b <= |target| && r0 + |target| <= |ref0| && ref == ref0[..r0] + target[..a] + ref0[r0 + a..]
    requires ref[r0 + a..r0 + b] == target[a..b]
    ensures ref0[r0..r0 + |target|][a..b] == target[a..b]
    ensures ref == ref0[..r0] + target[..b] + ref0[r0 + b..]
  {
    var was := ref0[r0..r0 + |target|];
    forall i | a <= i < b ensures was[i] == target[i] && ref0[r0 + i] == target[i] {
      assert ref[r0 + i] == ref[r0 + a..r0 + b][i - a] == target[a..b][i - a];
    }
    assert was[a..b] == target[a..b];
  }

  lemma ConstructedNothing(diff0: seq<Byte>, d0: nat, target: seq<Byte>, ref0: seq<Byte>, r0: nat, base: nat)
    requires r0 + |target| <= |ref0| && d0 + |target| + 8 <= |diff0|
    ensures Constructed(diff0, diff0, d0, 0, target, ref0, ref0, r0, 0, base, [])
  {
  }

  lemma RecordWritten(diff1: seq<Byte>, diff0: seq<Byte>, d0: nat, len: nat, target: seq<Byte>, ref1: seq<Byte>,
                      ref0: seq<Byte>,
                          r0: nat, line: nat, base: nat, rs: seq<ByteRecord>,
                          diff2: seq<Byte>, ref2: seq<Byte>, next: nat, start: nat, trailing: nat, diff3: seq<Byte>,
                          r: ByteRecord)
    requires base % 4 == 0 && base + |target| <= U32_LIMIT && len <= 64 * line
    requires line < next && 64 * next <= |target| && 16 * line <= start && start + trailing < 16 * next
    requires Constructed(diff1, diff0, d0, len, target, ref1, ref0, r0, line, base, rs)
    requires Emitted(diff2, diff1, d0 + len + 8, target, ref2, ref1, r0, line, next, start, trailing)
    requires d0 + len + 8 <= |diff2|
    requires var end := 16 * next - trailing;
      && r == Record(base + 4 * start, target[4 * start..4 * end])
      && diff3 == Patched(Patched(diff2, d0 + len, LE32(start + base / 4)), d0 + len + 4, LE32(end + base / 4))
    ensures |diff3| == |diff1| && d0 + |target| + 8 <= |diff1| && d0 + len + 8 + |r.data| <= |diff3|
    ensures diff3[..d0] == diff1[..d0] && diff3[d0 + |target| + 8..] == diff1[d0 + |target| + 8..]
    ensures AllEncodable(rs + [r]) && diff3[d0..d0 + len + 8 + |r.data|] == Encode(rs + [r])
  {
    hide Explains, Encode, LE32, AllEncodable;
    RecordBytes(diff1, d0, len, target, line, rs, diff2, next, start, trailing, diff3, r, base);
  }

  lemma RecordCovers(diff1: seq<Byte>, diff0: seq<Byte>, d0: nat, len: nat, target: seq<Byte>, ref1: seq<Byte>,
                     ref0: seq<Byte>,
                          r0: nat, line: nat, base: nat, rs: seq<ByteRecord>,
                          diff2: seq<Byte>, ref2: seq<Byte>, next: nat, start: nat, trailing: nat, diff3: seq<Byte>,
                          r: ByteRecord)
    requires base % 4 == 0 && base + |target| <= U32_LIMIT && len <= 64 * line
    requires line < next && 64 * next <= |target| && 16 * line <= start && start + trailing < 16 * next
    requires Constructed(diff1, diff0, d0, len, target, ref1, ref0, r0, line, base, rs)
    requires Emitted(diff2, diff1, d0 + len + 8, target, ref2, ref1, r0, line, next, start, trailing)
    requires d0 + len + 8 <= |diff2|
    requires var end := 16 * next - trailing;
      && r == Record(base + 4 * start, target[4 * start..4 * end])
      && diff3 == Patched(Patched(diff2, d0 + len, LE32(start + base / 4)), d0 + len + 4, LE32(end + base / 4))
    ensures r0 + |target| <= |ref0|
    ensures Explains(rs + [r], ref0[r0..r0 + |target|], target, base, 64 * next)
    ensures ref2 == ref0[..r0] + target[..64 * next] + ref0[r0 + 64 * next..]
  {
    hide Explains, Encode, LE32, AllEncodable, Patched;
    RecordExplained(target, ref1, ref0, r0, line, base, rs, ref2, next, start, trailing, r);
  }

  /** Closing a record: its two header words go in front of its data. */
  lemma ConstructedRecord(diff1: seq<Byte>, diff0: seq<Byte>, d0: nat, len: nat, target: seq<Byte>, ref1: seq<Byte>,
                          ref0: seq<Byte>, r0: nat, line: nat, base: nat, rs: seq<ByteRecord>,
                          diff2: seq<Byte>, ref2: seq<Byte>, next: nat, start: nat, trailing: nat, diff3: seq<Byte>,
                          r: ByteRecord)
    requires base % 4 == 0 && base + |target| <= U32_LIMIT && len <= 64 * line
    requires line < next && 64 * next <= |target| && 16 * line <= start && start + trailing < 16 * next
    requires Constructed(diff1, diff0, d0, len, target, ref1, ref0, r0, line, base, rs)
    requires Emitted(diff2, diff1, d0 + len + 8, target, ref2, ref1, r0, line, next, start, trailing)
    requires d0 + len + 8 <= |diff2|
    requires var end := 16 * next - trailing;
      && r == Record(base + 4 * start, target[4 * start..4 * end])
      && diff3 == Patched(Patched(diff2, d0 + len, LE32(start + base / 4)), d0 + len + 4, LE32(end + base / 4))
    ensures Constructed(diff3, diff0, d0, len + 8 + |r.data|, target, ref2, ref0, r0, next, base, rs + [r])
  {
    hide *;
    RecordWritten(diff1, diff0, d0, len, target, ref1, ref0, r0, line, base, rs, diff2, ref2, next, start, trailing,
                  diff3, r);
    RecordCovers(diff1, diff0, d0, len, target, ref1, ref0, r0, line, base, rs, diff2, ref2, next, start, trailing,
                 diff3, r);
    ConstructedNow(diff1, diff3, diff0, d0, len, target, ref1, ref2, ref0, r0, line, next, base, rs, rs + [r],
                   len + 8 + |r.data|);
  }

  lemma ConstructedNow(diff1: seq<Byte>, diff3: seq<Byte>, diff0: seq<Byte>, d0: nat, len: nat, target: seq<Byte>,
                       ref1: seq<Byte>, ref2: seq<Byte>, ref0: seq<Byte>, r0: nat, line: nat, next: nat, base: nat,
                       rs: seq<ByteRecord>, rs': seq<ByteRecord>, len': nat)
    requires Constructed(diff1, diff0, d0, len, target, ref1, ref0, r0, line, base, rs)
    requires 64 * next <= |target| && |diff3| == |diff1| && len' <= 64 * next + 8
    requires diff3[..d0] == diff1[..d0] && diff3[d0 + |target| + 8..] == diff1[d0 + |target| + 8..]
    requires AllEncodable(rs') && d0 + len' <= |diff3| && diff3[d0..d0 + len'] == Encode(rs')
    requires Explains(rs', ref0[r0..r0 + |target|], target, base, 64 * next)
    requires ref2 == ref0[..r0] + target[..64 * next] + ref0[r0 + 64 * next..]
    ensures Constructed(diff3, diff0, d0, len', target, ref2, ref0, r0, next, base, rs')
  {
    hide Explains, Encode, AllEncodable;
  }

  lemma RecordBytes(diff1: seq<Byte>, d0: nat, len: nat, target: seq<Byte>, line: nat, rs: seq<ByteRecord>,
                    diff2: seq<Byte>, next: nat, start: nat, trailing: nat, diff3: seq<Byte>, r: ByteRecord, base: nat)
    requires line < next && 64 * next <= |target| && 16 * line <= start && start + trailing < 16 * next &&
      len <= 64 * line
    requires |diff2| == |diff1| && d0 + |target| + 8 <= |diff1|
    requires var d := d0 + len + 8;
      && diff2[..d] == diff1[..d]
      && diff2[d..d + 4 * (16 * next - start)] == target[4 * start..64 * next]
      && diff2[d + 64 * (next - line)..] == diff1[d + 64 * (next - line)..]
    requires base % 4 == 0 && base + |target| <= U32_LIMIT
    requires var end := 16 * next - trailing;
      && r == Record(base + 4 * start, target[4 * start..4 * end])
      && diff3 == Patched(Patched(diff2, d0 + len, LE32(start + base / 4)), d0 + len + 4, LE32(end + base / 4))
    requires AllEncodable(rs) && diff1[d0..d0 + len] == Encode(rs)
    ensures diff3[..d0] == diff1[..d0]
    ensures diff3[d0 + |target| + 8..] == diff1[d0 + |target| + 8..]
    ensures AllEncodable(rs + [r]) && diff3[d0..d0 + len + 8 + |r.data|] == Encode(rs + [r])
  {
    hide *;
    EmittedParts(diff1, d0, len, target, line, diff2, next, start, |r.data|);
    RecordEncodable(base, start, 16 * next - trailing, r);
    PatchHeader(diff2, d0 + len, LE32(start + base / 4), LE32(16 * next - trailing + base / 4));
    GluedRecord(diff1, diff2, diff3, d0, len, rs, r, d0 + |target| + 8);
  }

  lemma EmittedParts(diff1: seq<Byte>, d0: nat, len: nat, target: seq<Byte>, line: nat, diff2: seq<Byte>, next: nat,
                     start: nat, n: nat)
    requires line < next && 64 * next <= |target| && 16 * line <= start && len <= 64 * line &&
      n <= 4 * (16 * next - start)
    requires |diff2| == |diff1| && d0 + |target| + 8 <= |diff1|
    requires var d := d0 + len + 8;
      && diff2[..d] == diff1[..d]
      && diff2[d..d + 4 * (16 * next - start)] == target[4 * start..64 * next]
      && diff2[d + 64 * (next - line)..] == diff1[d + 64 * (next - line)..]
    ensures diff2[..d0 + len] == diff1[..d0 + len]
    ensures diff2[d0 + len + 8..d0 + len + 8 + n] == target[4 * start..4 * start + n]
    ensures diff2[d0 + |target| + 8..] == diff1[d0 + |target| + 8..]
  {
    var d := d0 + len + 8;
    SubEqual(diff2, 0, diff1, 0, d, 0, d0 + len);
    SubEqual(diff2, d, target, 4 * start, 4 * (16 * next - start), 0, n);
    SuffixEqual(diff2, diff1, d + 64 * (next - line), d0 + |target| + 8);
  }

  /** Parts of equal slices are equal. */
  lemma SubEqual(s: seq<Byte>, a: nat, t: seq<Byte>, b: nat, n: nat, lo: nat, hi: nat)
    requires lo <= hi <= n && a + n <= |s| && b + n <= |t| && s[a..a + n] == t[b..b + n]
    ensures s[a + lo..a + hi] == t[b + lo..b + hi]
  {
    var u, v := s[a + lo..a + hi], t[b + lo..b + hi];
    forall i | 0 <= i < hi - lo ensures u[i] == v[i] {
      assert s[a..a + n][lo + i] == t[b..b + n][lo + i];
    }
  }

  lemma SuffixEqual(s: seq<Byte>, t: seq<Byte>, a: nat, b: nat)
    requires a <= b <= |s| == |t| && s[a..] == t[a..]
    ensures s[b..] == t[b..]
  {
    assert s[a..][b - a..] == t[a..][b - a..];
  }

  lemma RecordEncodable(base: nat, start: nat, end: nat, r: ByteRecord)
    requires start < end && base % 4 == 0 && base + 4 * end <= U32_LIMIT
    requires r.at == base + 4 * start && |r.data| == 4 * (end - start)
    ensures Encodable(r) && Header(r) == LE32(start + base / 4) + LE32(end + base / 4)
  {
    var b := base / 4;
    Words(start + b);
    Words(end + b);
    Words(end - start);
    hide LE32;
    assert r.at == 4 * (start + b) && r.at + |r.data| == 4 * (end + b);
  }

  lemma PatchHeader(s: seq<Byte>, at: nat, a: seq<Byte>, b: seq<Byte>)
    requires |a| == |b| == 4 && at + 8 <= |s|
    ensures Patched(Patched(s, at, a), at + 4, b) == s[..at] + (a + b) + s[at + 8..]
  {
  }

  lemma GluedRecord(diff1: seq<Byte>, diff2: seq<Byte>, diff3: seq<Byte>, d0: nat, len: nat, rs: seq<ByteRecord>,
                    r: ByteRecord, b: nat)
    requires AllEncodable(rs) && Encodable(r) && d0 + len + 8 + |r.data| <= b <= |diff2| == |diff1|
    requires diff1[d0..d0 + len] == Encode(rs)
    requires diff2[..d0 + len] == diff1[..d0 + len] && diff2[d0 + len + 8..d0 + len + 8 + |r.data|] == r.data
    requires diff3 == diff2[..d0 + len] + Header(r) + diff2[d0 + len + 8..]
    ensures diff3[..d0] == diff1[..d0] && |diff3| == |diff2| && diff3[b..] == diff2[b..]
    ensures AllEncodable(rs + [r]) && diff3[d0..d0 + len + 8 + |r.data|] == Encode(rs + [r])
  {
    assert (rs + [r])[..|rs|] == rs;
    GluedParts(diff1, diff2, diff3, d0, len, Header(r), r.data, b);
  }

  lemma MiddleReplaced(s: seq<Byte>, e: nat, h: seq<Byte>, lo: nat, n: nat)
    requires |h| == 8 && lo <= e && e + 8 + n <= |s|
    ensures (s[..e] + h + s[e + 8..])[lo..e + 8 + n] == s[lo..e] + (h + s[e + 8..e + 8 + n])
  {
    var t, u := (s[..e] + h + s[e + 8..])[lo..e + 8 + n], s[lo..e] + (h + s[e + 8..e + 8 + n]);
    assert |t| == |u|;
    forall i | 0 <= i < |t| ensures t[i] == u[i] {
      if e + 8 <= lo + i { assert s[e + 8..][lo + i - e - 8] == s[lo + i]; }
    }
  }

  lemma GluedParts(diff1: seq<Byte>, diff2: seq<Byte>, diff3: seq<Byte>, d0: nat, len: nat, h: seq<Byte>,
                   data: seq<Byte>, b: nat)
    requires |h| == 8 && d0 + len + 8 + |data| <= b <= |diff2| == |diff1|
    requires diff2[..d0 + len] == diff1[..d0 + len] && diff2[d0 + len + 8..d0 + len + 8 + |data|] == data
    requires diff3 == diff2[..d0 + len] + h + diff2[d0 + len + 8..]
    ensures diff3[..d0] == diff1[..d0] && |diff3| == |diff2| && diff3[b..] == diff2[b..]
    ensures diff3[d0..d0 + len + 8 + |data|] == diff1[d0..d0 + len] + (h + data)
  {
    var e := d0 + len;
    SubEqual(diff2, 0, diff1, 0, e, 0, d0);
    SubEqual(diff2, 0, diff1, 0, e, d0, e);
    assert diff3[..d0] == diff2[..d0];
    MiddleReplaced(diff2, e, h, d0, |data|);
  }

  lemma Shifted(was: seq<Byte>, target: seq<Byte>, ref1: seq<Byte>, r0: nat, from: nat, lo: nat, hi: nat)
    requires from <= lo <= hi <= |target| == |was| && r0 + |target| <= |ref1|
    requires ref1[r0 + from..r0 + |target|] == was[from..]
    requires ref1[r0 + lo..r0 + hi] == target[lo..hi]
    ensures was[lo..hi] == target[lo..hi]
  {
    forall i | lo <= i < hi ensures was[i] == target[i] {
      assert was[i] == was[from..][i - from] == ref1[r0 + i];
      assert ref1[r0 + lo..r0 + hi][i - lo] == target[lo..hi][i - lo];
    }
  }

  lemma RecordExplained(target: seq<Byte>, ref1: seq<Byte>, ref0: seq<Byte>, r0: nat, line: nat, base: nat,
                        rs: seq<ByteRecord>, ref2: seq<Byte>, next: nat, start: nat, trailing: nat, r: ByteRecord)
    requires line < next && 64 * next <= |target| && 16 * line <= start && start + trailing < 16 * next &&
      r0 + |target| <= |ref0|
    requires ref1 == ref0[..r0] + target[..64 * line] + ref0[r0 + 64 * line..]
    requires Explains(rs, ref0[r0..r0 + |target|], target, base, 64 * line)
    requires ref2 == ref1[..r0 + 64 * line] + target[64 * line..64 * next] + ref1[r0 + 64 * next..]
    requires ref1[r0 + 64 * line..r0 + 4 * start] == target[64 * line..4 * start]
    requires ref1[r0 + 64 * next - 4 * trailing..r0 + 64 * next] == target[64 * next - 4 * trailing..64 * next]
    requires r == Record(base + 4 * start, target[4 * start..4 * (16 * next - trailing)])
    ensures Explains(rs + [r], ref0[r0..r0 + |target|], target, base, 64 * next)
    ensures ref2 == ref0[..r0] + target[..64 * next] + ref0[r0 + 64 * next..]
  {
    hide *;
    var lo, end := 64 * line, 4 * (16 * next - trailing);
    RestOf(ref1, ref0, target, r0, lo);
    assert end == 64 * next - 4 * trailing;
    RecordFits(rs, r, ref0[r0..r0 + |target|], target, ref1, r0, base, lo, 4 * start, end, 64 * next);
    BroughtOn(target, ref1, ref0, r0, lo, 64 * next);
  }

  lemma RestOf(ref: seq<Byte>, ref0: seq<Byte>, target: seq<Byte>, r0: nat, k: nat)
    requires k <= |target| && r0 + |target| <= |ref0|
    requires ref == ref0[..r0] + target[..k] + ref0[r0 + k..]
    ensures |ref| == |ref0| && ref[r0 + k..r0 + |target|] == ref0[r0..r0 + |target|][k..]
  {
    RestKept(ref, ref0, target, r0, k, k, |target|);
  }

  lemma RecordFits(rs: seq<ByteRecord>, r: ByteRecord, was: seq<Byte>, target: seq<Byte>, ref1: seq<Byte>, r0: nat,
                   base: nat, from: nat, lo: nat, hi: nat, upto: nat)
    requires from <= lo < hi <= upto <= |target| == |was| && r0 + |target| <= |ref1|
    requires ref1[r0 + from..r0 + |target|] == was[from..]
    requires Explains(rs, was, target, base, from)
    requires ref1[r0 + from..r0 + lo] == target[from..lo] && ref1[r0 + hi..r0 + upto] == target[hi..upto]
    requires r == Record(base + lo, target[lo..hi])
    ensures Explains(rs + [r], was, target, base, upto)
  {
    hide *;
    Shifted(was, target, ref1, r0, from, from, lo);
    ExplainsUnchanged(rs, was, target, base, from, lo);
    Shifted(was, target, ref1, r0, from, hi, upto);
    ExplainsMore(rs, r, was, target, base, lo, hi, upto);
  }

  lemma BroughtOn(target: seq<Byte>, ref1: seq<Byte>, ref0: seq<Byte>, r0: nat, k: nat, m: nat)
    requires k <= m <= |target| && r0 + |target| <= |ref0|
    requires ref1 == ref0[..r0] + target[..k] + ref0[r0 + k..]
    ensures ref1[..r0 + k] + target[k..m] + ref1[r0 + m..] == ref0[..r0] + target[..m] + ref0[r0 + m..]
  {
    assert ref1[r0 + m..] == ref0[r0 + m..];
    assert ref1[..r0 + k] == ref0[..r0] + target[..k];
    assert target[..m] == target[..k] + target[k..m];
  }

  lemma ConstructedAll(diff: seq<Byte>, diff0: seq<Byte>, d0: nat, len: nat, target: seq<Byte>, ref: seq<Byte>,
                       ref0: seq<Byte>, r0: nat, line: nat, base: nat, rs: seq<ByteRecord>)
    requires Constructed(diff, diff0, d0, len, target, ref, ref0, r0, line, base, rs) && 64 * line == |target|
    ensures diff[..d0] == diff0[..d0]
    ensures diff[d0 + |target| + 8..] == diff0[d0 + |target| + 8..]
    ensures AllEncodable(rs) && diff[d0..d0 + len] == Encode(rs)
    ensures Explains(rs, ref0[r0..r0 + |target|], target, base, |target|)
    ensures ref == Patched(ref0, r0, target)
  {
    assert target[..64 * line] == target;
  }

  lemma AgreeJoin(ref0: seq<Byte>, r0: nat, target: seq<Byte>, a: nat, b: nat, c: nat)
    requires Agree(ref0, r0, target, a, b) && Agree(ref0, r0, target, b, c)
    ensures Agree(ref0, r0, target, a, c)
  {
    assert ref0[r0 + a..r0 + c] == ref0[r0 + a..r0 + b] + ref0[r0 + b..r0 + c];
    assert target[a..c] == target[a..b] + target[b..c];
  }

  /** What is left of a record without its unchanged ends has changed. */
  lemma ChangedInside(diff: seq<Byte>, diff0: seq<Byte>, d: nat, target: seq<Byte>, ref: seq<Byte>, ref0: seq<Byte>,
                      r0: nat, line: nat, next: nat, start: nat, trailing: nat)
    requires Emitted(diff, diff0, d, target, ref, ref0, r0, line, next, start, trailing)
    requires r0 + |target| <= |ref0| && 64 * line + 64 <= |target| &&
      ref0[r0 + 64 * line..r0 + 64 * line + 64] != target[64 * line..64 * line + 64]
    requires start + trailing < 16 * next && 64 * next <= |target|
    ensures target[4 * start..4 * (16 * next - trailing)] != ref0[r0 + 4 * start..r0 + 4 * (16 * next - trailing)]
  {
    var lo, hi := 4 * start, 64 * next - 4 * trailing;
    EmittedEnds(diff, diff0, d, target, ref, ref0, r0, line, next, start, trailing);
    hide Emitted, Agree;
    if target[lo..hi] == ref0[r0 + lo..r0 + hi] {
      AgreeIf(ref0, r0, target, lo, hi);
      AgreeJoin(ref0, r0, target, 64 * line, lo, hi);
      AgreeJoin(ref0, r0, target, 64 * line, hi, 64 * next);
      LineAgrees(ref0, r0, target, line, next);
    }
  }

  lemma EmittedEnds(diff: seq<Byte>, diff0: seq<Byte>, d: nat, target: seq<Byte>, ref: seq<Byte>, ref0: seq<Byte>,
                    r0: nat, line: nat, next: nat, start: nat, trailing: nat)
    requires Emitted(diff, diff0, d, target, ref, ref0, r0, line, next, start, trailing)
    ensures line < next && 16 * line <= start
    ensures Agree(ref0, r0, target, 64 * line, 4 * start) &&
      Agree(ref0, r0, target, 64 * next - 4 * trailing, 64 * next)
  {
    hide Stored, Brought, Agree;
  }

  lemma AgreeIf(ref0: seq<Byte>, r0: nat, target: seq<Byte>, lo: nat, hi: nat)
    requires lo <= hi <= |target| && r0 + |target| <= |ref0| && target[lo..hi] == ref0[r0 + lo..r0 + hi]
    ensures Agree(ref0, r0, target, lo, hi)
  {
  }

  lemma LineAgrees(ref0: seq<Byte>, r0: nat, target: seq<Byte>, line: nat, next: nat)
    requires Agree(ref0, r0, target, 64 * line, 64 * next) && line < next
    ensures ref0[r0 + 64 * line..r0 + 64 * line + 64] == target[64 * line..64 * line + 64]
  {
    SubEqual(ref0, r0 + 64 * line, target, 64 * line, 64 * (next - line), 0, 64);
  }

  /** A record that was emitted changes something. */
  lemma RecordChanges(diff2: seq<Byte>, diff1: seq<Byte>, diff0: seq<Byte>, d0: nat, len: nat, target: seq<Byte>,
                      ref2: seq<Byte>, ref1: seq<Byte>,
                      ref0: seq<Byte>, r0: nat, line: nat, next: nat, start: nat, trailing: nat, base: nat,
                      rs: seq<ByteRecord>)
    requires Constructed(diff1, diff0, d0, len, target, ref1, ref0, r0, line, base, rs)
    requires Emitted(diff2, diff1, d0 + len + 8, target, ref2, ref1, r0, line, next, start, trailing)
    requires r0 + |target| <= |ref1| && 64 * line + 64 <= |target| &&
      ref1[r0 + 64 * line..r0 + 64 * line + 64] != target[64 * line..64 * line + 64]
    requires 16 * line <= start && start + trailing < 16 * next && 64 * next <= |target|
    ensures r0 + |target| <= |ref0|
    ensures Differs(Record(base + 4 * start, target[4 * start..4 * (16 * next - trailing)]), ref0[r0..r0 + |target|],
                    base)
  {
    hide Constructed, Emitted, Differs;
    ChangedInside(diff2, diff1, d0 + len + 8, target, ref2, ref1, r0, line, next, start, trailing);
    NotYetBrought(diff1, diff0, d0, len, target, ref1, ref0, r0, line, base, rs, 4 * start, 4 * (16 * next - trailing));
    RecordDiffers(target, ref0, r0, base, 4 * start, 4 * (16 * next - trailing));
  }

  lemma NotYetBrought(diff: seq<Byte>, diff0: seq<Byte>, d0: nat, len: nat, target: seq<Byte>, ref: seq<Byte>,
                      ref0: seq<Byte>, r0: nat, line: nat, base: nat, rs: seq<ByteRecord>, lo: nat, hi: nat)
    requires Constructed(diff, diff0, d0, len, target, ref, ref0, r0, line, base, rs) &&
      64 * line <= lo <= hi <= |target|
    ensures |ref| == |ref0| && r0 + |target| <= |ref0| && ref[r0 + lo..r0 + hi] == ref0[r0 + lo..r0 + hi]
  {
    hide Explains, Encode, AllEncodable;
    RestKept(ref, ref0, target, r0, 64 * line, lo, hi);
  }

  /** Behind what was replaced nothing has changed. */
  lemma RestKept(ref: seq<Byte>, ref0: seq<Byte>, target: seq<Byte>, r0: nat, k: nat, lo: nat, hi: nat)
    requires k <= lo <= hi <= |target| && r0 + |target| <= |ref0|
    requires ref == ref0[..r0] + target[..k] + ref0[r0 + k..]
    ensures |ref| == |ref0| && ref[r0 + lo..r0 + hi] == ref0[r0 + lo..r0 + hi]
  {
    forall i | r0 + lo <= i < r0 + hi ensures ref[i] == ref0[i] {
      assert ref[i] == ref0[r0 + k..][i - r0 - k];
    }
  }

  lemma RecordDiffers(target: seq<Byte>, ref0: seq<Byte>, r0: nat, base: nat, lo: nat, hi: nat)
    requires lo <= hi <= |target| && r0 + |target| <= |ref0| && target[lo..hi] != ref0[r0 + lo..r0 + hi]
    ensures Differs(Record(base + lo, target[lo..hi]), ref0[r0..r0 + |target|], base)
  {
    var was := ref0[r0..r0 + |target|];
    assert forall i :: lo <= i < hi ==> was[i] == ref0[r0 + i];
    assert was[lo..hi] == ref0[r0 + lo..r0 + hi];
  }

  /** One whole record: its data, then the header words in the slot kept in front of it. */
  method EmitRecord(diff: array<Byte>, d0: nat, len: nat, target: seq<Byte>, reference: array<Byte>, r0: nat, base: nat,
                    line: nat, skipGap: nat, k: LineRule, ghost diff0: seq<Byte>, ghost ref0: seq<Byte>,
                    ghost rs: seq<ByteRecord>)
    returns (start: nat, end: nat, next: nat, closed: bool, ghost last: nat)
    requires Sound(k) && skipGap >= 16 && diff != reference
    requires |target| % 64 == 0 && base % 4 == 0 && base + |target| <= U32_LIMIT
    requires r0 + |target| <= reference.Length && d0 + |target| + 8 <= diff.Length
    requires len <= 64 * line < |target|
    requires reference[r0 + 64 * line..r0 + 64 * line + 64] != target[64 * line..64 * line + 64]
    requires Constructed(diff[..], diff0, d0, len, target, reference[..], ref0, r0, line, base, rs)
    modifies diff, reference
    ensures 16 * line <= start < end <= 16 * next && line < next && 64 * next <= |target|
    ensures if closed then end + skipGap < 16 * next else 64 * next == |target|
    ensures r0 + |target| <= |ref0| &&
      Differs(Record(base + 4 * start, target[4 * start..4 * end]), ref0[r0..r0 + |target|], base)
    ensures TightAt(Record(base + 4 * start, target[4 * start..4 * end]), k, ref0[r0..r0 + |target|], target, base,
                    skipGap, line, last)
    ensures Constructed(diff[..], diff0, d0, len + 8 + 4 * (end - start), target, reference[..], ref0, r0, next, base,
                        rs + [Record(base + 4 * start, target[4 * start..4 * end])])
  {
    hide Constructed, Emitted, Sound, Patched, LE32, AllEncodable, Differs, Under, TightAt;
    ghost var diff1, ref1 := diff[..], reference[..];
    var trailing;
    start, trailing, next, closed, last := EmitChanged(diff, d0 + len + 8, target, reference, r0, line, skipGap, k);
    end := 16 * next - trailing;
    ghost var diff2, ref2 := diff[..], reference[..];
    RecordChanges(diff2, diff1, diff0, d0, len, target, ref2, ref1, ref0, r0, line, next, start, trailing, base, rs);
    NotYetBrought(diff1, diff0, d0, len, target, ref1, ref0, r0, line, base, rs, 64 * line, |target|);
    TightFrom(k, ref1[r0..r0 + |target|], ref0[r0..r0 + |target|], target, line, last, next, start, trailing, skipGap,
              base, Record(base + 4 * start, target[4 * start..4 * end]));
    CopyInto(diff, d0 + len, LE32(start + base / 4));
    CopyInto(diff, d0 + len + 4, LE32(end + base / 4));
    assert reference[..] == ref2;
    ConstructedRecord(diff1, diff0, d0, len, target, ref1, ref0, r0, line, base, rs, diff2, ref2, next, start,
                      trailing, diff[..], Record(base + 4 * start, target[4 * start..4 * end]));
  }

  /**
   * Diff one interval. `target` is what was read of the buffer on
   * `base..base+|target|`; `reference[r0..]` is the copy it is compared with and
   * brought up to date. The diff is written at `diff[d0..]`.
   */
  method ConstructSegment(diff: array<Byte>, d0: nat, target: seq<Byte>, reference: array<Byte>, r0: nat, base: nat,
                          skipGap: nat, k: LineRule) returns (len: nat, ghost rs: seq<ByteRecord>)
    requires Sound(k) && skipGap >= 16 && diff != reference
    requires |target| % 64 == 0 && base % 4 == 0 && base + |target| <= U32_LIMIT
    requires r0 + |target| <= reference.Length
    requires d0 + |target| + 8 <= diff.Length
    modifies diff, reference
    ensures len <= |target| + 8
    ensures diff[..][..d0] == old(diff[..])[..d0]
    ensures diff[..][d0 + |target| + 8..] == old(diff[..])[d0 + |target| + 8..]
    ensures AllEncodable(rs) && diff[..][d0..d0 + len] == Encode(rs)
    ensures Explains(rs, old(reference[..])[r0..r0 + |target|], target, base, |target|)
    ensures reference[..] == Patched(old(reference[..]), r0, target)
    ensures Spread(rs, 4 * skipGap) && Needed(rs, old(reference[..])[r0..r0 + |target|], base)
    ensures AllTight(rs, k, old(reference[..])[r0..r0 + |target|], target, base, skipGap)
    ensures AllCompact(rs, old(reference[..])[r0..r0 + |target|], target, base, skipGap)
  {
    hide Constructed, Emitted, Sound, Patched, Explains, Encode, AllEncodable, Spread, Needed, Differs, TightAt,
      AllTight, AllCompact, Compact;
    NothingSpread(4 * skipGap, reference[..][r0..r0 + |target|], base);
    NothingTight(k, reference[..][r0..r0 + |target|], target, base, skipGap);
    ghost var diff0, ref0 := diff[..], reference[..];
    ghost var was := ref0[r0..r0 + |target|];
    var dc: nat := 0;
    var line := 0;
    rs := [];
    var more := true;
    ConstructedNothing(diff0, d0, target, ref0, r0, base);
    while more
      invariant 64 * line <= |target| && 4 * dc <= 64 * line + (if more then 0 else 8)
      invariant Constructed(diff[..], diff0, d0, 4 * dc, target, reference[..], ref0, r0, line, base, rs)
      invariant !more ==> 64 * line == |target|
      invariant Spread(rs, 4 * skipGap) && (more ==> Clear(rs, 4 * skipGap, base + 64 * line))
      invariant Needed(rs, was, base)
      invariant AllTight(rs, k, was, target, base, skipGap) && AllCompact(rs, was, target, base, skipGap)
      decreases more, |target| - 64 * line
    {
      ghost var diff1, ref1, line1 := diff[..], reference[..], line;
      line := ScanUnchanged(target, reference, r0, line);
      assert diff[..] == diff1 && reference[..] == ref1;
      ConstructedSkip(diff1, diff0, d0, 4 * dc, target, ref1, ref0, r0, line1, line, base, rs);
      if 64 * line == |target| {
        more := false;
      } else {
        var start, end, next, closed, last :=
          EmitRecord(diff, d0, 4 * dc, target, reference, r0, base, line, skipGap, k, diff0, ref0, rs);
        ghost var r := Record(base + 4 * start, target[4 * start..4 * end]);
        SpreadMore(rs, r, 4 * skipGap);
        NeededMore(rs, r, was, base);
        TightMore(rs, r, k, was, target, base, skipGap, line, last);
        rs := rs + [r];
        dc := dc + 2 + (end - start);
        line := next;
        more := closed;
      }
    }
    len := 4 * dc;
    ConstructedAll(diff[..], diff0, d0, len, target, reference[..], ref0, r0, line, base, rs);
  }

  lemma NothingTight(k: LineRule, was: seq<Byte>, now: seq<Byte>, base: nat, skipGap: nat)
    ensures AllTight([], k, was, now, base, skipGap) && AllCompact([], was, now, base, skipGap)
  {
  }

  lemma NothingSpread(gap: nat, was: seq<Byte>, base: nat)
    ensures Spread<Byte>([], gap) && Needed<Byte>([], was, base)
  {
  }

  // ---- Kernels ----

  /** The scalar kernel: half a line or nothing at the front, nothing at the back. */
  const ScalarRule := LineRule(
    (v: Line, r: Line) => if v[..32] == r[..32] then 8 else 0,
    (v: Line, r: Line) => 0,
    (v: Line, r: Line) => 0,
    true)

  /** The number of equal words at the end of two lines, from word `n` down. */
  function EqualWords(v: Line, r: Line, n: nat): nat
    requires n <= 16
  {
    if n == 0 || v[4 * n - 4..4 * n] != r[4 * n - 4..4 * n] then 0 else 1 + EqualWords(v, r, n - 1)
  }

  /** The AVX2 kernel: nothing on the first line, every equal trailing word on later ones, last line not stored. */
  const Avx2Rule := LineRule(
    (v: Line, r: Line) => 0,
    (v: Line, r: Line) => 0,
    (v: Line, r: Line) => EqualWords(v, r, 16),
    false)

  /**
   * On the first changed line the AVX2 kernel counts zero bits at both ends of
   * this mask; its outermost bits are never set, so it counts none.
   */
  lemma Avx2FirstLineMask(m: bv32)
    ensures var mask: bv64 := (((m & 0x3333_3333) as bv64) << 32) | ((m & 0xCCCC_CCCC) as bv64);
      mask & 1 == 0 && mask & 0x8000_0000_0000_0000 == 0
  {
  }

  lemma ScalarSound()
    ensures Sound(ScalarRule)
    ensures forall v: Line, r: Line :: ScalarRule.lead(v, r) == (if v[..32] == r[..32] then 8 else 0)
  {
    forall v: Line, r: Line | v != r ensures v[..4 * ScalarRule.lead(v, r)] == r[..4 * ScalarRule.lead(v, r)] {}
    assert forall v: Line, r: Line :: v[64..] == r[64..] == [];
  }

  lemma {:induction false} EqualWordsSuffix(v: Line, r: Line, n: nat)
    requires n <= 16
    ensures EqualWords(v, r, n) <= n
    ensures v[4 * (n - EqualWords(v, r, n))..4 * n] == r[4 * (n - EqualWords(v, r, n))..4 * n]
    ensures var m := n - EqualWords(v, r, n); m > 0 ==> v[4 * m - 4..4 * m] != r[4 * m - 4..4 * m]
  {
    if n > 0 && v[4 * n - 4..4 * n] == r[4 * n - 4..4 * n] {
      EqualWordsSuffix(v, r, n - 1);
      SuffixLonger(v, r, 4 * (n - EqualWords(v, r, n)), 4 * n - 4, 4 * n);
    }
  }

  lemma SuffixLonger(v: Line, r: Line, lo: nat, mid: nat, hi: nat)
    requires lo <= mid <= hi <= 64 && v[lo..mid] == r[lo..mid] && v[mid..hi] == r[mid..hi]
    ensures v[lo..hi] == r[lo..hi]
  {
    assert v[lo..hi] == v[lo..mid] + v[mid..hi] && r[lo..hi] == r[lo..mid] + r[mid..hi];
  }

  /** On later lines the AVX2 kernel counts every equal word at the end: the word before those it counts differs. */
  lemma Avx2CountsAll(v: Line, r: Line, m: int)
    requires v != r && m == 16 - Avx2Rule.trail(v, r)
    ensures 0 < m <= 16 && v[4 * m..] == r[4 * m..] && v[4 * m - 4..4 * m] != r[4 * m - 4..4 * m]
  {
    EqualWordsSuffix(v, r, 16);
    assert v[..64] == v && r[..64] == r;
    assert v[0..64] == v && r[0..64] == r;
  }

  lemma Avx2Sound()
    ensures Sound(Avx2Rule)
  {
    forall v: Line, r: Line | v != r ensures EqualWords(v, r, 16) < 16 && SameSuffix(v, r, EqualWords(v, r, 16)) {
      EqualWordsSuffix(v, r, 16);
      assert v[0..64] == v && r[0..64] == r;
      assert v[..64] == v && r[..64] == r;
    }
    assert forall v: Line, r: Line :: v[64..] == r[64..] == [];
  }
}

/** Dividing damage into parts for worker threads. */
module Sharding {
  import opened Bytes
  import opened Intervals

  /** Boundary `index` of `lo..hi` divided into `nparts`. */
  function SplitInterval(lo: nat, hi: nat, nparts: nat, index: nat): nat
    requires lo <= hi && 0 < nparts
  {
    var q: nat, r: nat := (hi - lo) / nparts, (hi - lo) % nparts;
    var rounded: nat := index * r;
    lo + index * q + rounded / nparts
  }

  /** Adding less than `n` moves a quotient by at most one. */
  lemma QuotientStep(a: nat, r: nat, n: nat)
    requires r < n
    ensures a / n <= (a + r) / n <= a / n + 1
    ensures r == 0 ==> (a + r) / n == a / n
  {
    var q, s := a / n, a % n;
    assert a == q * n + s;
    if s + r < n {
      Quotient(a + r, n, q, s + r);
    } else {
      assert (q + 1) * n == q * n + n;
      Quotient(a + r, n, q + 1, s + r - n);
    }
  }

  /** The boundaries start at `lo`, end at `hi`, and are evenly spaced to within one. */
  lemma SplitEven(lo: nat, hi: nat, nparts: nat, index: nat)
    requires lo <= hi && 0 < nparts
    ensures SplitInterval(lo, hi, nparts, 0) == lo && SplitInterval(lo, hi, nparts, nparts) == hi
    ensures var d := SplitInterval(lo, hi, nparts, index + 1) - SplitInterval(lo, hi, nparts, index);
      var q := (hi - lo) / nparts;
      q <= d <= q + 1 && ((hi - lo) % nparts == 0 ==> d == q)
  {
    var q, r := (hi - lo) / nparts, (hi - lo) % nparts;
    QuotientStep(index * r, r, nparts);
    assert (index + 1) * r == index * r + r;
    assert (index + 1) * q == index * q + q;
    assert hi - lo == q * nparts + r;
    assert 0 * q == 0 && 0 * r == 0;
    Quotient(0, nparts, 0, 0);
    assert nparts * r == r * nparts + 0;
    Quotient(nparts * r, nparts, r, 0);
  }

  lemma {:induction false} SplitMonotone(lo: nat, hi: nat, nparts: nat, i: nat, j: nat)
    requires lo <= hi && 0 < nparts && i <= j
    ensures SplitInterval(lo, hi, nparts, i) <= SplitInterval(lo, hi, nparts, j)
    decreases j - i
  {
    hide SplitInterval;
    if i < j {
      SplitEven(lo, hi, nparts, i);
      SplitMonotone(lo, hi, nparts, i + 1, j);
    }
  }

  function CeilDiv(v: nat, u: nat): nat
    requires u > 0
  {
    if v % u == 0 then v / u else v / u + 1
  }

  const CHUNKS_PER_SHARD: nat := 4096 // 262144 bytes in 64-byte chunks

  /** Every part gets between one chunk and a full shard, and there are few parts. */
  lemma ShardSize(chunks: nat, index: nat)
    requires chunks > 0
    ensures var n := CeilDiv(chunks, CHUNKS_PER_SHARD);
      && 0 < n <= chunks
      && 1 <= SplitInterval(0, chunks, n, index + 1) - SplitInterval(0, chunks, n, index) <= CHUNKS_PER_SHARD
      && (chunks < 0x400_0000 ==> n <= 0x4000)
  {
    hide SplitInterval;
    var n := CeilDiv(chunks, CHUNKS_PER_SHARD);
    QuotientRange(chunks, n, 4096);
    SplitEven(0, chunks, n, index);
  }

  lemma QuotientRange(x: nat, n: nat, k: nat)
    requires 0 < n <= x <= k * n
    ensures 1 <= x / n <= k && (x / n == k ==> x % n == 0)
  {
    var q, r := x / n, x % n;
    assert x == q * n + r;
    assert q == 0 ==> q * n == 0;
    assert q * n == k * n + (q - k) * n;
    assert q > k ==> (q - k) * n >= n by { if q > k { MulAtLeast(q - k, n); } }
  }

  // ---- Lists of intervals that stand for the same bytes ----

  function TotalLen(l: seq<Interval>): int {
    if l == [] then 0 else TotalLen(l[..|l| - 1]) + (l[|l| - 1].hi - l[|l| - 1].lo)
  }

  lemma {:induction false} TotalLenConcat(a: seq<Interval>, b: seq<Interval>)
    ensures TotalLen(a + b) == TotalLen(a) + TotalLen(b)
    decreases |b|
  {
    if b == [] {
      assert a + b == a;
    } else {
      assert (a + b)[..|a + b| - 1] == a + b[..|b| - 1];
      TotalLenConcat(a, b[..|b| - 1]);
    }
  }

  lemma {:induction false} TotalLenPositive(l: seq<Interval>)
    requires Separated(l, 0)
    ensures TotalLen(l) >= |l|
    decreases |l|
  {
    if l != [] { TotalLenPositive(l[..|l| - 1]); }
  }

  predicate OnChunks(l: seq<Interval>) {
    forall i :: 0 <= i < |l| ==> l[i].lo % 64 == 0 && l[i].hi % 64 == 0
  }

  /** `l` is `m` cut into pieces: the same bytes, still ascending and on chunk boundaries. */
  ghost predicate Pieced(l: seq<Interval>, m: seq<Interval>) {
    && Separated(l, 0) && OnChunks(l)
    && TotalLen(l) == TotalLen(m)
    && forall x :: Covers(l, x) <==> Covers(m, x)
  }

  /** Cutting an interval in two. */
  lemma PiecedCut(a: seq<Interval>, cur: Interval, mid: nat, b: seq<Interval>, m: seq<Interval>)
    requires Pieced(a + [cur] + b, m) && cur.lo < mid < cur.hi && mid % 64 == 0
    ensures Pieced(a + [Interval(cur.lo, mid)] + ([Interval(mid, cur.hi)] + b), m)
  {
    var p, q := Interval(cur.lo, mid), Interval(mid, cur.hi);
    var l, l' := a + [cur] + b, a + [p] + ([q] + b);
    CutShape(a, cur, mid, b);
    TotalLenConcat(a + [cur], b);
    TotalLenConcat(a, [cur]);
    TotalLenConcat(a + [p], [q] + b);
    TotalLenConcat(a, [p]);
    TotalLenConcat([q], b);
    assert [cur][..0] == [] && [p][..0] == [] && [q][..0] == [];
    forall x ensures Covers(l', x) <==> Covers(m, x) {
      ConcatCovers(a + [cur], b, x);
      CoversAppend(a, cur, x);
      ConcatCovers(a + [p], [q] + b, x);
      CoversAppend(a, p, x);
      CoversCons(q, b, x);
    }
  }

  lemma CutShape(a: seq<Interval>, cur: Interval, mid: nat, b: seq<Interval>)
    requires Separated(a + [cur] + b, 0) && OnChunks(a + [cur] + b) && cur.lo < mid < cur.hi && mid % 64 == 0
    ensures var l' := a + [Interval(cur.lo, mid)] + ([Interval(mid, cur.hi)] + b); Separated(l', 0) && OnChunks(l')
  {
    var l, l' := a + [cur] + b, a + [Interval(cur.lo, mid)] + ([Interval(mid, cur.hi)] + b);
    assert l[|a|] == cur;
    assert forall i :: 0 <= i < |a| ==> l'[i] == l[i];
    assert forall i :: |a| + 2 <= i < |l'| ==> l'[i] == l[i - 1];
  }

  /** The part of a list below `limit`. */
  function Clip(l: seq<Interval>, limit: nat): seq<Interval> {
    if l == [] || l[0].lo >= limit then []
    else [Interval(l[0].lo, Min(l[0].hi, limit))] + Clip(l[1..], limit)
  }

  lemma {:induction false} ClipMeaning(l: seq<Interval>, limit: nat)
    requires Separated(l, 0) && OnChunks(l) && limit % 64 == 0
    ensures Separated(Clip(l, limit), 0) && OnChunks(Clip(l, limit))
    ensures forall x :: Covers(Clip(l, limit), x) <==> x < limit && Covers(l, x)
    ensures l != [] && Clip(l, limit) != [] ==> Clip(l, limit)[0].lo == l[0].lo
    decreases |l|
  {
    if l != [] {
      var rest := l[1..];
      ClipMeaning(rest, limit);
      var h, c := Interval(l[0].lo, Min(l[0].hi, limit)), Clip(rest, limit);
      if l[0].lo < limit { ClipShape(h, c, l, limit); }
      forall x ensures Covers(Clip(l, limit), x) <==> x < limit && Covers(l, x) {
        assert l == [l[0]] + rest;
        CoversCons(l[0], rest, x);
        CoversCons(h, c, x);
        if l[0].lo >= limit && Covers(rest, x) { var i :| 0 <= i < |rest| &&
                                                rest[i].Has(x); assert l[i + 1] == rest[i]; }
      }
    }
  }

  lemma ClipShape(h: Interval, c: seq<Interval>, l: seq<Interval>, limit: nat)
    requires Separated(l, 0) && OnChunks(l) && limit % 64 == 0 && l != [] && l[0].lo < limit
    requires h == Interval(l[0].lo, Min(l[0].hi, limit))
    requires Separated(c, 0) && OnChunks(c) && (c != [] ==> |l| > 1 && c[0].lo == l[1].lo)
    ensures Separated([h] + c, 0) && OnChunks([h] + c)
  {
    forall j | 0 <= j < |c| ensures h.hi <= c[j].lo {
      assert c[0].lo <= c[j].lo;
    }
  }

  // ---- Sharding ----

  /** What is still to be handed out: a leftover piece, then the untouched intervals. */
  function Rest(prev: Option<Interval>, l: seq<Interval>): seq<Interval> {
    match prev case None => l case Some(p) => [p] + l
  }

  /** Some damage reaches into the last, incomplete chunk. */
  ghost predicate TailDamaged(l: seq<Interval>, bufSize: nat) {
    exists x :: RoundDown(bufSize, 64) <= x < bufSize && Covers(l, x)
  }

  lemma {:induction false} ClipMore(l: seq<Interval>, n: Interval, limit: nat)
    requires Separated(l + [n], 0)
    ensures Clip(l + [n], limit) == if n.lo >= limit then Clip(l, limit)
      else Clip(l, limit) + [Interval(n.lo, Min(n.hi, limit))]
    decreases |l|
  {
    if l != [] {
      assert (l + [n])[0] == l[0] && (l + [n])[|l|] == n;
      assert (l + [n])[1..] == l[1..] + [n];
      assert l[0].lo < n.lo;
      ClipMore(l[1..], n, limit);
      hide Separated;
    } else {
      assert l + [n] == [n] && [n][1..] == [];
    }
  }

  lemma {:induction false} TotalLenBound(l: seq<Interval>)
    requires Separated(l, 0) && OnChunks(l)
    ensures 0 <= TotalLen(l) <= (if l == [] then 0 else l[|l| - 1].hi) && TotalLen(l) % 64 == 0
    decreases |l|
  {
    if l != [] {
      var init, last := l[..|l| - 1], l[|l| - 1];
      TotalLenBound(init);
      if |l| > 1 { assert init[|init| - 1].hi <= last.lo; }
      Multiples(TotalLen(init), last.hi, last.lo);
      hide OnChunks, Separated;
    }
  }

  lemma {:induction false} ClipBelow(l: seq<Interval>, limit: nat)
    ensures forall i :: 0 <= i < |Clip(l, limit)| ==> Clip(l, limit)[i].hi <= limit
    decreases |l|
  {
    if l != [] { ClipBelow(l[1..], limit); }
  }

  predicate ReachesTail(i: Interval, bufSize: nat) {
    i.hi > RoundDown(bufSize, 64) && i.lo < bufSize
  }

  lemma TailReached(l: seq<Interval>, bufSize: nat)
    requires Separated(l, 0) && OnChunks(l) && bufSize % 64 > 0
    ensures TailDamaged(l, bufSize) <==> exists i :: 0 <= i < |l| && ReachesTail(l[i], bufSize)
  {
    var f := RoundDown(bufSize, 64);
    if i :| 0 <= i < |l| && ReachesTail(l[i], bufSize) {
      assert l[i].Has(f);
      assert Covers(l, f);
    }
    if TailDamaged(l, bufSize) {
      var x :| f <= x < bufSize && Covers(l, x);
      var i :| 0 <= i < |l| && l[i].Has(x);
      assert ReachesTail(l[i], bufSize);
    }
  }

  /** The damaged whole chunks in bytes, and whether the incomplete chunk is damaged. */
  method MeasureDamage(l: seq<Interval>, bufSize: nat) returns (netLen: nat, hasTrailing: bool)
    requires Separated(l, 0) && OnChunks(l)
    ensures netLen == TotalLen(Clip(l, RoundDown(bufSize, 64))) && netLen % 64 == 0 && netLen <= bufSize
    ensures bufSize % 64 > 0 ==> (hasTrailing <==> TailDamaged(l, bufSize))
    ensures hasTrailing && netLen == 0 ==> bufSize % 64 > 0
  {
    hide TotalLen, Clip, TailDamaged;
    netLen, hasTrailing := 0, false;
    NothingClipped(l, RoundDown(bufSize, 64));
    var finalChunk := RoundDown(bufSize, 64);
    for k := 0 to |l|
      invariant netLen == TotalLen(Clip(l[..k], finalChunk))
      invariant hasTrailing <==> exists i :: 0 <= i < k && ReachesTail(l[i], bufSize)
      invariant hasTrailing && bufSize % 64 == 0 ==> netLen > 0
    {
      assert l[..k + 1] == l[..k] + [l[k]];
      MeasureOne(l[..k], l[k], finalChunk);
      if l[k].hi > finalChunk {
        if l[k].lo < bufSize {
          hasTrailing := true;
          netLen := netLen + (finalChunk - l[k].lo);
        }
      } else {
        netLen := netLen + (l[k].hi - l[k].lo);
      }
    }
    assert l[..|l|] == l;
    ClipMeaning(l, finalChunk);
    ClipBelow(l, finalChunk);
    TotalLenBound(Clip(l, finalChunk));
    if bufSize % 64 > 0 { TailReached(l, bufSize); }
  }

  lemma NothingClipped(l: seq<Interval>, limit: nat)
    ensures TotalLen(Clip(l[..0], limit)) == 0
  {
  }

  lemma MeasureOne(l: seq<Interval>, n: Interval, limit: nat)
    requires Separated(l + [n], 0) && OnChunks(l + [n])
    ensures TotalLen(Clip(l + [n], limit)) ==
      TotalLen(Clip(l, limit)) + (if n.lo >= limit then 0 else Min(n.hi, limit) - n.lo)
    ensures TotalLen(Clip(l, limit)) >= 0
    ensures n.lo < n.hi && n.lo % 64 == 0
  {
    assert (l + [n])[|l|] == n;
    assert forall i :: 0 <= i < |l| ==> (l + [n])[i] == l[i];
    ClipMore(l, n, limit);
    ClipNonnegative(l, limit);
    if n.lo < limit {
      TotalLenConcat(Clip(l, limit), [Interval(n.lo, Min(n.hi, limit))]);
      assert [Interval(n.lo, Min(n.hi, limit))][..0] == [];
    }
  }

  lemma {:induction false} ClipNonnegative(l: seq<Interval>, limit: nat)
    requires Separated(l, 0)
    ensures TotalLen(Clip(l, limit)) >= 0
    decreases |l|
  {
    if l != [] && l[0].lo < limit {
      ClipNonnegative(l[1..], limit);
      TotalLenConcat([Interval(l[0].lo, Min(l[0].hi, limit))], Clip(l[1..], limit));
      assert [Interval(l[0].lo, Min(l[0].hi, limit))][..0] == [];
    }
  }

  /** The state of handing out damage: `given` handed out, `rest` (below the limit) still to come. */
  ghost predicate Handing(rest: seq<Interval>, limit: nat, given: seq<Interval>, all: seq<Interval>) {
    && limit % 64 == 0
    && Separated(rest, 0) && OnChunks(rest)
    && Pieced(given + Clip(rest, limit), all)
  }

  ghost function LeftLen(rest: seq<Interval>, limit: nat): int {
    TotalLen(Clip(rest, limit))
  }

  /** As long as bytes are left there is a next interval, and it starts below the limit. */
  lemma NextExists(rest: seq<Interval>, limit: nat, given: seq<Interval>, all: seq<Interval>)
    requires Handing(rest, limit, given, all) && LeftLen(rest, limit) > 0
    ensures rest != [] && rest[0].lo < limit && rest[0].lo < rest[0].hi
    ensures rest[0].lo % 64 == 0 && rest[0].hi % 64 == 0 && limit % 64 == 0
  {
  }

  lemma TakeWhole(rest: seq<Interval>, limit: nat, given: seq<Interval>, all: seq<Interval>)
    requires Handing(rest, limit, given, all) && rest != [] && rest[0].lo < limit
    ensures var c := Interval(rest[0].lo, Min(rest[0].hi, limit));
      && Handing(rest[1..], limit, given + [c], all)
      && LeftLen(rest[1..], limit) == LeftLen(rest, limit) - (c.hi - c.lo)
  {
    var c := Interval(rest[0].lo, Min(rest[0].hi, limit));
    hide Pieced, TotalLen;
    TotalLenConcat([c], Clip(rest[1..], limit));
    OneLen(c);
    assert given + ([c] + Clip(rest[1..], limit)) == given + [c] + Clip(rest[1..], limit);
  }

  lemma TakeSome(rest: seq<Interval>, limit: nat, given: seq<Interval>, all: seq<Interval>, mid: nat)
    requires Handing(rest, limit, given, all) && rest != []
    requires rest[0].lo < mid < Min(rest[0].hi, limit) && mid % 64 == 0
    ensures var b := Interval(mid, Min(rest[0].hi, limit));
      && Handing([b] + rest[1..], limit, given + [Interval(rest[0].lo, mid)], all)
      && LeftLen([b] + rest[1..], limit) == LeftLen(rest, limit) - (mid - rest[0].lo)
  {
    var c, b := Interval(rest[0].lo, Min(rest[0].hi, limit)), Interval(mid, Min(rest[0].hi, limit));
    var k, rest' := Clip(rest[1..], limit), [b] + rest[1..];
    SplitRest(rest, rest', b, mid, limit);
    hide Pieced, TotalLen, Separated, OnChunks;
    assert rest'[1..] == rest[1..];
    assert given + ([c] + k) == given + [c] + k;
    PiecedCut(given, c, mid, k, all);
    TotalLenConcat([c], k);
    TotalLenConcat([b], k);
    OneLen(c);
    OneLen(b);
  }

  lemma OneLen(c: Interval)
    ensures TotalLen([c]) == c.hi - c.lo
  {
    assert [c][..0] == [];
  }

  lemma SplitRest(r: seq<Interval>, r': seq<Interval>, b: Interval, mid: nat, limit: nat)
    requires Separated(r, 0) && OnChunks(r) && r != [] && r' == [b] + r[1..] && limit % 64 == 0
    requires b == Interval(mid, Min(r[0].hi, limit)) && r[0].lo < mid < b.hi && mid % 64 == 0
    ensures Separated(r', 0) && OnChunks(r')
  {
    assert forall i :: 1 <= i < |r| ==> r'[i] == r[i];
  }

  /** Hand out the next `size` bytes. */
  method TakePart(l: seq<Interval>, pos: nat, prev: Option<Interval>, limit: nat, size: nat,
                  ghost given: seq<Interval>, ghost all: seq<Interval>)
    returns (output: seq<Interval>, pos': nat, prev': Option<Interval>)
    requires pos <= |l| && Handing(Rest(prev, l[pos..]), limit, given, all)
    requires size % 64 == 0 && LeftLen(Rest(prev, l[pos..]), limit) >= size
    ensures pos' <= |l| && Handing(Rest(prev', l[pos'..]), limit, given + output, all)
    ensures LeftLen(Rest(prev', l[pos'..]), limit) == LeftLen(Rest(prev, l[pos..]), limit) - size
    ensures TotalLen(output) == size
  {
    hide Handing, LeftLen, TotalLen;
    output, pos', prev' := [], pos, prev;
    var remaining := size;
    EmptyLen();
    assert given + [] == given;
    while remaining > 0
      invariant pos' <= |l| && remaining % 64 == 0 && 0 <= remaining <= size
      invariant Handing(Rest(prev', l[pos'..]), limit, given + output, all)
      invariant LeftLen(Rest(prev', l[pos'..]), limit) == LeftLen(Rest(prev, l[pos..]), limit) - size + remaining
      invariant TotalLen(output) == size - remaining
      decreases remaining
    {
      ghost var rest := Rest(prev', l[pos'..]);
      NextExists(rest, limit, given + output, all);
      var cur;
      match prev' {
        case Some(p) => cur, prev' := p, None;
        case None => cur, pos' := l[pos'], pos' + 1;
      }
      assert cur == rest[0] && Rest(prev', l[pos'..]) == rest[1..] && prev'.None?;
      if cur.hi > limit {
        cur := Interval(cur.lo, limit);
      }
      Multiples(remaining, cur.lo, cur.hi);
      if cur.hi - cur.lo <= remaining {
        TakeWhole(rest, limit, given + output, all);
        AppendLen(output, cur);
        assert given + (output + [cur]) == given + output + [cur];
        remaining := remaining - (cur.hi - cur.lo);
        output := output + [cur];
      } else {
        TakeSome(rest, limit, given + output, all, cur.lo + remaining);
        var piece := Interval(cur.lo, cur.lo + remaining);
        AppendLen(output, piece);
        assert given + (output + [piece]) == given + output + [piece];
        output := output + [piece];
        prev' := Some(Interval(cur.lo + remaining, cur.hi));
        remaining := 0;
      }
    }
  }

  lemma Multiples(a: int, b: int, c: int)
    requires a % 64 == 0 && b % 64 == 0 && c % 64 == 0
    ensures (a - (c - b)) % 64 == 0 && (b + a) % 64 == 0
  {
  }

  lemma ChunksApart(a: nat, b: nat)
    ensures (64 * b - 64 * a) % 64 == 0
  {
    assert 64 * b - 64 * a == 64 * (b - a);
  }

  lemma EmptyLen()
    ensures TotalLen([]) == 0
  {
  }

  lemma AppendLen(l: seq<Interval>, n: Interval)
    ensures TotalLen(l + [n]) == TotalLen(l) + (n.hi - n.lo)
  {
    assert (l + [n])[..|l|] == l;
  }

  /** What dividing damage over parts promises. */
  ghost predicate Sharded(l: seq<Interval>, bufSize: nat, trail: nat, parts: seq<seq<Interval>>) {
    var whole := Clip(l, RoundDown(bufSize, 64));
    && Pieced(Flat(parts), whole)
    && (forall i :: 0 <= i < |parts| ==> TotalLen(parts[i]) <= 262144)
    && trail == (if bufSize % 64 > 0 && TailDamaged(l, bufSize) then bufSize % 64 else 0)
    && if TotalLen(whole) > 0 then
         |parts| == CeilDiv(TotalLen(whole) / 64, CHUNKS_PER_SHARD) && forall i :: 0 <= i < |parts| ==> parts[i] != []
       else parts == if trail > 0 then [[]] else []
  }

  /**
   * Divide damage into parts of at most 256 KiB. The result pairs the number of
   * trailing bytes to send with the interval list of each part.
   */
  method SplitDamage(l: seq<Interval>, bufSize: nat) returns (trail: nat, parts: seq<seq<Interval>>)
    requires Separated(l, 0) && OnChunks(l) && bufSize < U32_LIMIT
    ensures Sharded(l, bufSize, trail, parts)
    ensures |parts| < 0x8000
  {
    hide Handing, LeftLen, TotalLen, Clip, Sharded, SplitInterval, CeilDiv, Flat, Rest, TailDamaged, Separated,
      OnChunks, Pieced;
    var finalChunk := RoundDown(bufSize, 64);
    ghost var whole := Clip(l, finalChunk);
    var netLen, hasTrailing := MeasureDamage(l, bufSize);
    if netLen == 0 {
      trail, parts := if hasTrailing then bufSize % 64 else 0, if hasTrailing then [[]] else [];
      NothingSharded(l, bufSize, trail, parts);
      return;
    }
    var chunks := netLen / 64;
    var nshards := CeilDiv(chunks, CHUNKS_PER_SHARD);
    ShardSize(chunks, 0);
    SplitEven(0, chunks, nshards, 0);
    parts := [];
    var pos: nat, prev: Option<Interval> := 0, None;
    HandingStart(l, finalChunk);
    for i := 0 to nshards
      invariant pos <= |l| && |parts| == i
      invariant Handing(Rest(prev, l[pos..]), finalChunk, Flat(parts), whole)
      invariant LeftLen(Rest(prev, l[pos..]), finalChunk) == netLen - 64 * SplitInterval(0, chunks, nshards, i)
      invariant forall k :: 0 <= k < i ==> 0 < TotalLen(parts[k]) <= 262144
    {
      var start := 64 * SplitInterval(0, chunks, nshards, i);
      var end := 64 * SplitInterval(0, chunks, nshards, i + 1);
      ShardSize(chunks, i);
      SplitMonotone(0, chunks, nshards, i + 1, nshards);
      SplitEven(0, chunks, nshards, i);
      ChunksApart(SplitInterval(0, chunks, nshards, i), SplitInterval(0, chunks, nshards, i + 1));
      var output;
      output, pos, prev := TakePart(l, pos, prev, finalChunk, end - start, Flat(parts), whole);
      FlatMore(parts, output);
      parts := parts + [output];
    }
    AllHanded(Rest(prev, l[pos..]), finalChunk, Flat(parts), whole);
    trail := if hasTrailing then bufSize % 64 else 0;
    AllSharded(l, bufSize, trail, parts);
  }

  lemma HandingStart(l: seq<Interval>, limit: nat)
    requires Separated(l, 0) && OnChunks(l) && limit % 64 == 0
    ensures Handing(Rest(None, l[0..]), limit, Flat([]), Clip(l, limit))
    ensures LeftLen(Rest(None, l[0..]), limit) == TotalLen(Clip(l, limit))
  {
    ClipMeaning(l, limit);
    assert Rest(None, l[0..]) == l && Flat([]) + Clip(l, limit) == Clip(l, limit);
  }

  lemma NothingSharded(l: seq<Interval>, bufSize: nat, trail: nat, parts: seq<seq<Interval>>)
    requires Separated(l, 0) && OnChunks(l) && TotalLen(Clip(l, RoundDown(bufSize, 64))) == 0
    requires trail == (if bufSize % 64 > 0 && TailDamaged(l, bufSize) then bufSize % 64 else 0)
    requires parts == if trail > 0 then [[]] else []
    ensures Sharded(l, bufSize, trail, parts)
  {
    var whole := Clip(l, RoundDown(bufSize, 64));
    ClipMeaning(l, RoundDown(bufSize, 64));
    NothingWhole(whole);
    hide TailDamaged;
    assert Flat(parts) == [] == whole;
    if parts != [] { EmptyLen(); }
  }

  lemma AllSharded(l: seq<Interval>, bufSize: nat, trail: nat, parts: seq<seq<Interval>>)
    requires var whole := Clip(l, RoundDown(bufSize, 64));
      && Pieced(Flat(parts), whole) && TotalLen(whole) > 0
      && |parts| == CeilDiv(TotalLen(whole) / 64, CHUNKS_PER_SHARD)
      && forall k :: 0 <= k < |parts| ==> 0 < TotalLen(parts[k]) <= 262144
    requires trail == (if bufSize % 64 > 0 && TailDamaged(l, bufSize) then bufSize % 64 else 0)
    ensures Sharded(l, bufSize, trail, parts)
  {
    EmptyLen();
    hide Clip, TailDamaged, Pieced, CeilDiv;
  }

  lemma NothingWhole(whole: seq<Interval>)
    requires Separated(whole, 0) && TotalLen(whole) == 0
    ensures whole == []
  {
    TotalLenPositive(whole);
  }

  lemma AllHanded(rest: seq<Interval>, limit: nat, given: seq<Interval>, all: seq<Interval>)
    requires Handing(rest, limit, given, all) && LeftLen(rest, limit) == 0
    ensures Pieced(given, all)
  {
    ClipMeaning(rest, limit);
    NothingWhole(Clip(rest, limit));
    assert given + Clip(rest, limit) == given;
  }

  /** The spans of different parts do not overlap; they ascend. */
  lemma {:induction false} PartsAscend(parts: seq<seq<Interval>>, i: nat, j: nat, a: Interval, b: Interval)
    requires Separated(Flat(parts), 0) && i < j < |parts| && a in parts[i] && b in parts[j]
    ensures a.hi <= b.lo
    decreases |parts|
  {
    var init, last := parts[..|parts| - 1], parts[|parts| - 1];
    FlatMore(init, last);
    assert parts == init + [last];
    assert forall k :: 0 <= k < |Flat(init)| ==> Flat(parts)[k] == Flat(init)[k];
    if j == |parts| - 1 {
      InFlat(init, i, a);
      var k :| 0 <= k < |Flat(init)| && Flat(init)[k] == a;
      var m :| 0 <= m < |last| && last[m] == b;
      assert Flat(parts)[k] == a && Flat(parts)[|Flat(init)| + m] == b;
    } else {
      PartsAscend(init, i, j, a, b);
    }
  }

  lemma {:induction false} InFlat(parts: seq<seq<Interval>>, i: nat, a: Interval)
    requires i < |parts| && a in parts[i]
    ensures a in Flat(parts)
    decreases |parts|
  {
    var init, last := parts[..|parts| - 1], parts[|parts| - 1];
    if i < |init| { InFlat(init, i, a); }
  }
}

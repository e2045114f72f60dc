/** The portable kernel of the C implementation, which compares 64-bit words and looks one word ahead. */
module CKernel {
  import opened Bytes
  import opened Replay
  import opened DiffFormat
  import opened DiffKernel
  import opened DiffApply
  import opened Intervals
  import opened DiffTask

  function WordAt(s: seq<Byte>, i: nat): seq<Byte>
    requires 8 * i + 8 <= |s|
  {
    s[8 * i..8 * i + 8]
  }

  lemma WordIs(s: seq<Byte>, i: nat)
    requires 8 * i + 8 <= |s|
    ensures s[8 * i..8 * i + 8] == WordAt(s, i)
  {
  }

  /** What is known once words `i0..u` are dealt with. */
  ghost predicate Scanned(diff: seq<Byte>, diff0: seq<Byte>, d0: nat, dc: nat, mod: seq<Byte>, base: seq<Byte>,
                          base0: seq<Byte>, i0: nat, u: nat, iEnd: nat, rs: seq<ByteRecord>) {
    && i0 <= u <= iEnd && 8 * iEnd <= |mod| && 8 * iEnd <= |base0|
    && |diff| == |diff0| && d0 + 8 * dc <= |diff| && diff[..d0] == diff0[..d0]
    && AllEncodable(rs) && diff[d0..d0 + 8 * dc] == Encode(rs)
    && Explains(rs, base0[8 * i0..8 * iEnd], mod[8 * i0..8 * iEnd], 8 * i0, 8 * (u - i0))
    && base == Patched(base0, 8 * i0, mod[8 * i0..8 * u])
  }

  lemma ScannedNothing(diff0: seq<Byte>, d0: nat, mod: seq<Byte>, base0: seq<Byte>, i0: nat, iEnd: nat)
    requires i0 <= iEnd && 8 * iEnd <= |mod| && 8 * iEnd <= |base0| && d0 <= |diff0|
    ensures Scanned(diff0, diff0, d0, 0, mod, base0, base0, i0, i0, iEnd, [])
  {
    DecodeNothing();
    assert base0[8 * i0..8 * iEnd][..0] == mod[8 * i0..8 * iEnd][..0];
  }

  /** Words not dealt with yet still have their old contents. */
  lemma WordBefore(diff: seq<Byte>, diff0: seq<Byte>, d0: nat, dc: nat, mod: seq<Byte>, base: seq<Byte>,
                   base0: seq<Byte>, i0: nat, u: nat, iEnd: nat, rs: seq<ByteRecord>, i: nat)
    requires Scanned(diff, diff0, d0, dc, mod, base, base0, i0, u, iEnd, rs) && u <= i < iEnd
    ensures |base| == |base0| && WordAt(base, i) == WordAt(base0, i)
  {
  }

  /** Slices of a part are slices of the whole. */
  lemma PartSlice(s: seq<Byte>, a: nat, b: nat, lo: nat, hi: nat)
    requires a <= lo <= hi <= b <= |s|
    ensures s[a..b][lo - a..hi - a] == s[lo..hi]
  {
    var u, v := s[a..b][lo - a..hi - a], s[lo..hi];
    assert forall i :: 0 <= i < |v| ==> u[i] == v[i];
  }

  /** A word that did not change. */
  lemma ScannedEqual(diff: seq<Byte>, diff0: seq<Byte>, d0: nat, dc: nat, mod: seq<Byte>, base: seq<Byte>,
                     base0: seq<Byte>, i0: nat, u: nat, iEnd: nat, rs: seq<ByteRecord>)
    requires Scanned(diff, diff0, d0, dc, mod, base, base0, i0, u, iEnd, rs) && u < iEnd &&
      WordAt(base0, u) == WordAt(mod, u)
    ensures Scanned(diff, diff0, d0, dc, mod, base, base0, i0, u + 1, iEnd, rs)
  {
    hide Explains, Encode, AllEncodable;
    PartSlice(base0, 8 * i0, 8 * iEnd, 8 * u, 8 * u + 8);
    PartSlice(mod, 8 * i0, 8 * iEnd, 8 * u, 8 * u + 8);
    ExplainsUnchanged(rs, base0[8 * i0..8 * iEnd], mod[8 * i0..8 * iEnd], 8 * i0, 8 * (u - i0), 8 * (u + 1 - i0));
    PatchSame(base0, mod, 8 * i0, 8 * u, 8 * u + 8);
  }

  lemma PatchSame(s: seq<Byte>, t: seq<Byte>, a: nat, b: nat, c: nat)
    requires a <= b <= c <= |s| && c <= |t| && s[b..c] == t[b..c]
    ensures Patched(s, a, t[a..b]) == Patched(s, a, t[a..c])
  {
    assert t[a..c] == t[a..b] + t[b..c];
    assert s[b..] == s[b..c] + s[c..];
  }

  /** What is known while a record that starts at word `st` is being written, up to word `i`. */
  ghost predicate Running(diff: seq<Byte>, diff1: seq<Byte>, p: nat, mod: seq<Byte>, base: seq<Byte>, base1: seq<Byte>,
                          st: nat, i: nat, nskip: nat) {
    && st + nskip < i && 2 * i < U32_LIMIT && 8 * i <= |mod| && 8 * i <= |base1|
    && p + 4 <= |diff1| && Copied(diff, diff1, p + 8, mod, st, i)
    && diff[p..p + 4] == LE32(2 * st)
    && base == Patched(base1, 8 * st, mod[8 * st..8 * i])
    && base1[8 * (i - nskip)..8 * i] == mod[8 * (i - nskip)..8 * i]
  }

  /** Words `st..i` stand at `q`, and nothing before the record's control words was touched. */
  ghost predicate Copied(diff: seq<Byte>, diff1: seq<Byte>, q: nat, mod: seq<Byte>, st: nat, i: nat) {
    && 8 <= q && st <= i && 8 * i <= |mod| && q + 8 * (i - st) <= |diff| == |diff1|
    && diff[..q - 8] == diff1[..q - 8]
    && diff[q..q + 8 * (i - st)] == mod[8 * st..8 * i]
  }

  lemma CopiedMore(diff: seq<Byte>, diff1: seq<Byte>, q: nat, mod: seq<Byte>, st: nat, i: nat)
    requires Copied(diff, diff1, q, mod, st, i) && 8 * i + 8 <= |mod| && q + 8 * (i - st) + 8 <= |diff|
    ensures Copied(Patched(diff, q + 8 * (i - st), WordAt(mod, i)), diff1, q, mod, st, i + 1)
    ensures Patched(diff, q + 8 * (i - st), WordAt(mod, i))[q - 8..q - 4] == diff[q - 8..q - 4]
  {
    var diff' := Patched(diff, q + 8 * (i - st), WordAt(mod, i));
    assert diff'[..q - 8] == diff[..q - 8];
    assert diff'[q..q + 8 * (i - st) + 8] == diff[q..q + 8 * (i - st)] + WordAt(mod, i);
    assert mod[8 * st..8 * i + 8] == mod[8 * st..8 * i] + WordAt(mod, i);
  }

  lemma PatchMore(s: seq<Byte>, t: seq<Byte>, a: nat, b: nat, c: nat)
    requires a <= b <= c <= |s| && c <= |t|
    ensures |Patched(s, a, t[a..b])| == |s| && Patched(Patched(s, a, t[a..b]), b, t[b..c]) == Patched(s, a, t[a..c])
    ensures Patched(s, a, t[a..b])[b..c] == s[b..c]
  {
    assert t[a..c] == t[a..b] + t[b..c];
  }

  lemma RunningMore(diff: seq<Byte>, diff1: seq<Byte>, p: nat, mod: seq<Byte>, base: seq<Byte>, base1: seq<Byte>,
                    st: nat, i: nat, nskip: nat)
    requires Running(diff, diff1, p, mod, base, base1, st, i, nskip)
    requires 8 * i + 8 <= |mod| && 8 * i + 8 <= |base1| && p + 8 + 8 * (i - st) + 8 <= |diff| && 2 * i + 2 < U32_LIMIT
    ensures |base| == |base1| && WordAt(base, i) == WordAt(base1, i)
    ensures Running(Patched(diff, p + 8 + 8 * (i - st), WordAt(mod, i)), diff1, p, mod,
                    Patched(base, 8 * i, WordAt(mod, i)), base1, st, i + 1,
                    if WordAt(base1, i) == WordAt(mod, i) then nskip + 1 else 0)
  {
    hide Copied, Patched, LE32;
    CopiedMore(diff, diff1, p + 8, mod, st, i);
    CopiedLength(diff, diff1, p + 8, mod, st, i);
    PatchMore(base1, mod, 8 * st, 8 * i, 8 * i + 8);
    if WordAt(base1, i) == WordAt(mod, i) {
      SameMore(base1, mod, 8 * (i - nskip), 8 * i, 8 * i + 8);
    }
  }

  lemma CopiedLength(diff: seq<Byte>, diff1: seq<Byte>, q: nat, mod: seq<Byte>, st: nat, i: nat)
    requires Copied(diff, diff1, q, mod, st, i)
    ensures |diff| == |diff1| && q <= |diff|
  {
  }

  lemma SameMore(s: seq<Byte>, t: seq<Byte>, a: nat, b: nat, c: nat)
    requires a <= b <= c <= |s| && c <= |t| && s[a..b] == t[a..b] && s[b..c] == t[b..c]
    ensures s[a..c] == t[a..c]
  {
    assert s[a..c] == s[a..b] + s[b..c];
    assert t[a..c] == t[a..b] + t[b..c];
  }

  lemma RunningStart(diff1: seq<Byte>, p: nat, mod: seq<Byte>, base1: seq<Byte>, st: nat)
    requires p + 16 <= |diff1| && 2 * st + 2 < U32_LIMIT && 8 * st + 8 <= |mod| && 8 * st + 8 <= |base1|
    ensures Running(Patched(Patched(diff1, p, LE32(2 * st)), p + 8, WordAt(mod, st)), diff1, p, mod,
                    Patched(base1, 8 * st, WordAt(mod, st)), base1, st, st + 1, 0)
  {
    hide LE32;
    var diff' := Patched(Patched(diff1, p, LE32(2 * st)), p + 8, WordAt(mod, st));
    assert diff'[..p] == diff1[..p];
  }

  lemma RunEnds(diff: seq<Byte>, diff1: seq<Byte>, diff': seq<Byte>, p: nat, mod: seq<Byte>, st: nat, e: nat, i: nat)
    requires Copied(diff, diff1, p + 8, mod, st, i) && st < e <= i && 2 * i < U32_LIMIT
    requires diff[p..p + 4] == LE32(2 * st) && diff' == Patched(diff, p + 4, LE32(2 * e))
    ensures |diff'| == |diff1| && p + 8 + 8 * (e - st) <= |diff'| && diff'[..p] == diff1[..p]
    ensures diff'[p..p + 8 + 8 * (e - st)] == (LE32(2 * st) + LE32(2 * e)) + mod[8 * st..8 * e]
  {
    hide LE32;
    var h := LE32(2 * st) + LE32(2 * e);
    assert diff'[p..p + 8] == diff[p..p + 4] + LE32(2 * e) == h;
    SubEqual(diff, p + 8, mod, 8 * st, 8 * (i - st), 0, 8 * (e - st));
    assert diff'[p + 8..p + 8 + 8 * (e - st)] == diff[p + 8..p + 8 + 8 * (e - st)];
    assert diff'[p..p + 8 + 8 * (e - st)] == diff'[p..p + 8] + diff'[p + 8..p + 8 + 8 * (e - st)];
    assert diff'[..p] == diff[..p];
  }

  lemma RecordShape(mod: seq<Byte>, st: nat, e: nat)
    requires st < e && 8 * e <= |mod| && 2 * e < U32_LIMIT
    ensures var r := Record(8 * st, mod[8 * st..8 * e]);
      Encodable(r) && EncodeOne(r) == (LE32(2 * st) + LE32(2 * e)) + r.data
  {
    hide LE32;
    Words(2 * st);
    Words(2 * e);
    Words(2 * (e - st));
  }

  /** The record is finished: words `st..e` are in it, words `e..i` did not change. */
  lemma ScannedRecord(diff: seq<Byte>, diff1: seq<Byte>, diff': seq<Byte>, diff0: seq<Byte>, d0: nat, dc: nat,
                      mod: seq<Byte>, base: seq<Byte>,
                      base1: seq<Byte>, base0: seq<Byte>, i0: nat, st: nat, e: nat, i: nat, iEnd: nat,
                      rs: seq<ByteRecord>)
    requires Scanned(diff1, diff0, d0, dc, mod, base1, base0, i0, st, iEnd, rs) && st < e <= i <= iEnd
    requires Running(diff, diff1, d0 + 8 * dc, mod, base, base1, st, i, i - e) &&
      diff' == Patched(diff, d0 + 8 * dc + 4, LE32(2 * e))
    ensures Scanned(diff', diff0, d0, dc + 1 + (e - st), mod, base, base0, i0, i, iEnd,
                    rs + [Record(8 * st, mod[8 * st..8 * e])])
  {
    hide Explains, Encode, AllEncodable, Encodable, EncodeOne, LE32, Patched, Copied;
    var r, p := Record(8 * st, mod[8 * st..8 * e]), d0 + 8 * dc;
    RunEnds(diff, diff1, diff', p, mod, st, e, i);
    RecordShape(mod, st, e);
    ScannedBytes(diff', diff1, diff0, d0, p, rs, r);
    ScannedChange(mod, base, base1, base0, i0, st, e, i, iEnd, rs, r);
  }

  lemma Adjacent(s: seq<Byte>, a: nat, b: nat, c: nat)
    requires a <= b <= c <= |s|
    ensures s[a..c] == s[a..b] + s[b..c]
  {
  }

  lemma ScannedBytes(diff': seq<Byte>, diff1: seq<Byte>, diff0: seq<Byte>, d0: nat, p: nat, rs: seq<ByteRecord>,
                     r: ByteRecord)
    requires d0 <= p && AllEncodable(rs) && Encodable(r) && p + 8 + |r.data| <= |diff'| == |diff1|
    requires |diff1| == |diff0| && diff1[..d0] == diff0[..d0] && diff1[d0..p] == Encode(rs)
    requires diff'[..p] == diff1[..p] && diff'[p..p + 8 + |r.data|] == EncodeOne(r)
    ensures diff'[..d0] == diff0[..d0]
    ensures AllEncodable(rs + [r]) && diff'[d0..p + 8 + |r.data|] == Encode(rs + [r])
  {
    hide *;
    EncodeLast(rs, r);
    SubEqual(diff', 0, diff1, 0, p, 0, d0);
    SubEqual(diff', 0, diff1, 0, p, d0, p);
    Adjacent(diff', d0, p, p + 8 + |r.data|);
  }

  lemma ScannedChange(mod: seq<Byte>, base: seq<Byte>, base1: seq<Byte>, base0: seq<Byte>, i0: nat, st: nat, e: nat,
                      i: nat, iEnd: nat, rs: seq<ByteRecord>, r: ByteRecord)
    requires i0 <= st < e <= i <= iEnd && 8 * iEnd <= |mod| && 8 * iEnd <= |base0| &&
      r == Record(8 * st, mod[8 * st..8 * e])
    requires Explains(rs, base0[8 * i0..8 * iEnd], mod[8 * i0..8 * iEnd], 8 * i0, 8 * (st - i0))
    requires base1 == Patched(base0, 8 * i0, mod[8 * i0..8 * st]) && base == Patched(base1, 8 * st, mod[8 * st..8 * i])
    requires base1[8 * e..8 * i] == mod[8 * e..8 * i]
    ensures Explains(rs + [r], base0[8 * i0..8 * iEnd], mod[8 * i0..8 * iEnd], 8 * i0, 8 * (i - i0))
    ensures base == Patched(base0, 8 * i0, mod[8 * i0..8 * i])
  {
    hide Explains;
    var a, b := 8 * i0, 8 * iEnd;
    PatchMore(base0, mod, a, 8 * st, 8 * i);
    assert base1[8 * e..8 * i] == base0[8 * e..8 * i];
    PartSlice(base0, a, b, 8 * e, 8 * i);
    PartSlice(mod, a, b, 8 * e, 8 * i);
    PartSlice(mod, a, b, 8 * st, 8 * e);
    ExplainsMore(rs, r, base0[a..b], mod[a..b], a, 8 * (st - i0), 8 * (e - i0), 8 * (i - i0));
  }

  /** A record whose first word changed is needed. */
  lemma WordDiffers(mod: seq<Byte>, base0: seq<Byte>, i0: nat, iEnd: nat, st: nat, e: nat)
    requires i0 <= st < e <= iEnd && 8 * iEnd <= |mod| && 8 * iEnd <= |base0| && WordAt(mod, st) != WordAt(base0, st)
    ensures Differs(Record(8 * st, mod[8 * st..8 * e]), base0[8 * i0..8 * iEnd], 8 * i0)
  {
    PartSlice(base0, 8 * i0, 8 * iEnd, 8 * st, 8 * e);
    if mod[8 * st..8 * e] == base0[8 * st..8 * e] {
      SubEqual(mod, 8 * st, base0, 8 * st, 8 * (e - st), 0, 8);
    }
  }

  /** Records are far enough apart and all needed. */
  ghost predicate Sparse(rs: seq<ByteRecord>, window: nat, was: seq<Byte>, base: nat) {
    Spread(rs, 8 * (window / 2)) && Needed(rs, was, base)
  }

  lemma NothingSparse(window: nat, was: seq<Byte>, base: nat, next: nat)
    ensures Sparse([], window, was, base) && Clear<Byte>([], 8 * (window / 2), next)
  {
  }

  lemma ClearLater(rs: seq<ByteRecord>, gap: nat, a: nat, b: nat)
    requires Clear(rs, gap, a) && a <= b
    ensures Clear(rs, gap, b)
  {
  }

  lemma SparseMore(rs: seq<ByteRecord>, window: nat, mod: seq<Byte>, base0: seq<Byte>, i0: nat, iEnd: nat, st: nat,
                   e: nat, i: nat)
    requires i0 <= st < e <= iEnd && 8 * iEnd <= |mod| && 8 * iEnd <= |base0| && WordAt(mod, st) != WordAt(base0, st)
    requires Sparse(rs, window, base0[8 * i0..8 * iEnd], 8 * i0) && Clear(rs, 8 * (window / 2), 8 * st)
    ensures Sparse(rs + [Record(8 * st, mod[8 * st..8 * e])], window, base0[8 * i0..8 * iEnd], 8 * i0)
    ensures e + window / 2 < i ==> Clear(rs + [Record(8 * st, mod[8 * st..8 * e])], 8 * (window / 2), 8 * i)
  {
    hide Spread, Needed, Differs, WordAt;
    var r := Record(8 * st, mod[8 * st..8 * e]);
    WordDiffers(mod, base0, i0, iEnd, st, e);
    SpreadMore(rs, r, 8 * (window / 2));
    NeededMore(rs, r, base0[8 * i0..8 * iEnd], 8 * i0);
  }

  // ---- Where records begin and end ----

  ghost predicate WordChanged(was: seq<Byte>, now: seq<Byte>, x: nat)
    requires 8 * x + 8 <= |was| && 8 * x + 8 <= |now|
  {
    WordAt(was, x) != WordAt(now, x)
  }

  ghost predicate SameWords(was: seq<Byte>, now: seq<Byte>, i: nat, j: nat)
    requires 8 * j <= |was| && 8 * j <= |now|
  {
    forall x :: i <= x < j ==> !WordChanged(was, now, x)
  }

  /**
   * Words `st..i` are in a record so far, the last `nskip` of them unchanged; its
   * first word and the one before those changed, and no stretch of more than
   * `half` words between them is unchanged.
   */
  ghost predicate DenseRun(was: seq<Byte>, now: seq<Byte>, half: nat, st: nat, i: nat, nskip: nat) {
    && st + nskip < i && 8 * i <= |was| && 8 * i <= |now|
    && WordChanged(was, now, st) && WordChanged(was, now, i - nskip - 1) && SameWords(was, now, i - nskip, i)
    && (forall a: nat, b: nat :: st <= a < b <= i - nskip && SameWords(was, now, a, b) ==> b - a <= half)
  }

  ghost predicate Dense(r: ByteRecord, was: seq<Byte>, now: seq<Byte>, base: nat, half: nat) {
    exists st: nat, e: nat ::
      r.at == base + 8 * st && r.at + |r.data| == base + 8 * e && DenseRun(was, now, half, st, e, 0)
  }

  ghost predicate AllDense(rs: seq<ByteRecord>, was: seq<Byte>, now: seq<Byte>, base: nat, half: nat) {
    forall r :: r in rs ==> Dense(r, was, now, base, half)
  }

  lemma DenseFirst(was: seq<Byte>, now: seq<Byte>, half: nat, st: nat)
    requires 8 * st + 8 <= |was| && 8 * st + 8 <= |now| && WordAt(now, st) != WordAt(was, st)
    ensures DenseRun(was, now, half, st, st + 1, 0)
  {
    forall a: nat, b: nat | st <= a < b <= st + 1 ensures !SameWords(was, now, a, b) {
      assert a == st && WordChanged(was, now, a);
    }
  }

  lemma DenseNext(was: seq<Byte>, now: seq<Byte>, half: nat, st: nat, i: nat, nskip: nat)
    requires DenseRun(was, now, half, st, i, nskip) && nskip <= half && 8 * i + 8 <= |was| && 8 * i + 8 <= |now|
    ensures DenseRun(was, now, half, st, i + 1, if WordAt(was, i) == WordAt(now, i) then nskip + 1 else 0)
  {
    if WordAt(was, i) != WordAt(now, i) {
      assert WordChanged(was, now, i) && WordChanged(was, now, i - nskip - 1);
      hide WordAt, WordChanged;
      forall a: nat, b: nat | st <= a < b <= i + 1 && SameWords(was, now, a, b) ensures b - a <= half {}
    }
  }

  lemma DensePart(was: seq<Byte>, now: seq<Byte>, half: nat, i0: nat, iEnd: nat, st: nat, i: nat, nskip: nat)
    requires DenseRun(was, now, half, st, i, nskip) && i0 <= st && i <= iEnd && 8 * iEnd <= |was| && 8 * iEnd <= |now|
    ensures DenseRun(was[8 * i0..8 * iEnd], now[8 * i0..8 * iEnd], half, st - i0, i - nskip - i0, 0)
  {
    var w, n := was[8 * i0..8 * iEnd], now[8 * i0..8 * iEnd];
    forall x | 0 <= x < iEnd - i0 ensures WordChanged(w, n, x) <==> WordChanged(was, now, x + i0) {
      PartSlice(was, 8 * i0, 8 * iEnd, 8 * (x + i0), 8 * (x + i0) + 8);
      PartSlice(now, 8 * i0, 8 * iEnd, 8 * (x + i0), 8 * (x + i0) + 8);
    }
    assert WordChanged(w, n, st - i0) && WordChanged(w, n, i - nskip - 1 - i0);
    hide WordAt, WordChanged;
    forall a: nat, b: nat | st - i0 <= a < b <= i - nskip - i0 && SameWords(w, n, a, b) ensures b - a <= half {
      forall x | a + i0 <= x < b + i0 ensures !WordChanged(was, now, x) { assert !WordChanged(w, n, x - i0); }
      assert SameWords(was, now, a + i0, b + i0);
    }
  }

  lemma DenseMore(rs: seq<ByteRecord>, mod: seq<Byte>, base0: seq<Byte>, half: nat, i0: nat, iEnd: nat, st: nat, i: nat,
                  nskip: nat)
    requires i0 <= st && i <= iEnd && 8 * iEnd <= |base0| && 8 * iEnd <= |mod| &&
      DenseRun(base0, mod, half, st, i, nskip)
    requires AllDense(rs, base0[8 * i0..8 * iEnd], mod[8 * i0..8 * iEnd], 8 * i0, half)
    ensures st + nskip < i && AllDense(rs + [Record(8 * st, mod[8 * st..8 * (i - nskip)])], base0[8 * i0..8 * iEnd],
                                       mod[8 * i0..8 * iEnd], 8 * i0, half)
  {
    DensePart(base0, mod, half, i0, iEnd, st, i, nskip);
    assert st + nskip < i;
    hide DenseRun;
    var r, was, now := Record(8 * st, mod[8 * st..8 * (i - nskip)]), base0[8 * i0..8 * iEnd], mod[8 * i0..8 * iEnd];
    assert r.at == 8 * i0 + 8 * (st - i0) && r.at + |r.data| == 8 * i0 + 8 * (i - nskip - i0);
    assert Dense(r, was, now, 8 * i0, half);
    hide Dense;
  }

  lemma NothingDense(was: seq<Byte>, now: seq<Byte>, base: nat, half: nat)
    ensures AllDense([], was, now, base, half)
  {
  }

  lemma DenseBefore(diff1: seq<Byte>, diff0: seq<Byte>, d0: nat, dc: nat, mod: seq<Byte>, base1: seq<Byte>,
                    base0: seq<Byte>, i0: nat, st: nat, iEnd: nat, rs: seq<ByteRecord>, half: nat, i: nat, nskip: nat)
    requires Scanned(diff1, diff0, d0, dc, mod, base1, base0, i0, st, iEnd, rs) && i <= iEnd
    requires DenseRun(base1, mod, half, st, i, nskip)
    ensures |base1| == |base0| && DenseRun(base0, mod, half, st, i, nskip)
  {
    hide Scanned;
    assert st < i;
    forall x: nat | st <= x < i ensures |base1| == |base0| && WordAt(base1, x) == WordAt(base0, x) {
      WordBefore(diff1, diff0, d0, dc, mod, base1, base0, i0, st, iEnd, rs, x);
    }
    WordBefore(diff1, diff0, d0, dc, mod, base1, base0, i0, st, iEnd, rs, st);
    DenseSame(base1, base0, mod, half, st, i, nskip);
  }

  lemma DenseSame(was1: seq<Byte>, was: seq<Byte>, now: seq<Byte>, half: nat, st: nat, i: nat, nskip: nat)
    requires DenseRun(was1, now, half, st, i, nskip) && |was1| == |was|
    requires forall x: nat :: st <= x < i ==> WordAt(was1, x) == WordAt(was, x)
    ensures DenseRun(was, now, half, st, i, nskip)
  {
    assert forall x: nat :: st <= x < i ==> (WordChanged(was, now, x) <==> WordChanged(was1, now, x));
    hide WordAt, WordChanged;
    forall a: nat, b: nat | st <= a < b <= i - nskip && SameWords(was, now, a, b) ensures b - a <= half {
      assert SameWords(was1, now, a, b);
    }
  }

  /** Copy words on from `st + 1` until more than half the window did not change. */
  method CopyRun(window: nat, mod: seq<Byte>, base: array<Byte>, diff: array<Byte>, p: nat, st: nat, iEnd: nat,
                 ghost diff1: seq<Byte>, ghost base1: seq<Byte>)
    returns (i: nat, nskip: nat, changed: seq<Byte>, baseVal: seq<Byte>)
    requires base != diff && 2 * iEnd < U32_LIMIT && st < iEnd && p + 8 + 8 * (iEnd - st) <= diff.Length
    requires 8 * iEnd <= |mod| && 8 * iEnd <= base.Length == |base1|
    requires Running(diff[..], diff1, p, mod, base[..], base1, st, st + 1, 0) && WordAt(mod, st) != WordAt(base1, st)
    modifies base, diff
    ensures st + nskip < i <= iEnd && (i < iEnd ==> nskip > window / 2 && changed == baseVal)
    ensures Running(diff[..], diff1, p, mod, base[..], base1, st, i, nskip)
    ensures DenseRun(base1, mod, window / 2, st, i, nskip)
  {
    hide *;
    var half := window / 2;
    DenseFirst(base1, mod, half, st);
    i, nskip, changed, baseVal := st + 1, 0, [], [];
    while i < iEnd && nskip <= half
      invariant st + nskip < i <= iEnd && (nskip > 0 ==> changed == baseVal)
      invariant Running(diff[..], diff1, p, mod, base[..], base1, st, i, nskip)
      invariant DenseRun(base1, mod, half, st, i, nskip)
      decreases iEnd - i
    {
      RunningMore(diff[..], diff1, p, mod, base[..], base1, st, i, nskip);
      DenseNext(base1, mod, half, st, i, nskip);
      baseVal, changed := base[8 * i..8 * i + 8], mod[8 * i..8 * i + 8];
      WordIs(base[..], i);
      WordIs(mod, i);
      CopyInto(base, 8 * i, changed);
      CopyInto(diff, p + 8 + 8 * (i - st), changed);
      i := i + 1;
      nskip := if baseVal == changed then nskip + 1 else 0;
    }
  }

  /** Write one record that starts at word `st`, which changed; gaps of up to half the window are papered over. */
  method EmitRun(window: nat, mod: seq<Byte>, base: array<Byte>, diff: array<Byte>, d0: nat, dc: nat, st: nat,
                 iEnd: nat, ghost diff0: seq<Byte>, ghost base0: seq<Byte>, ghost i0: nat, ghost rs: seq<ByteRecord>)
    returns (i: nat, nskip: nat, changed: seq<Byte>, baseVal: seq<Byte>)
    requires base != diff && 2 * iEnd < U32_LIMIT && i0 <= st < iEnd
    requires Scanned(diff[..], diff0, d0, dc, mod, base[..], base0, i0, st, iEnd, rs)
    requires d0 + 8 * dc + 8 + 8 * (iEnd - st) <= diff.Length && 8 * iEnd <= |mod| && 8 * iEnd <= base.Length &&
      8 * iEnd <= |base0|
    requires WordAt(mod, st) != WordAt(base0, st)
    requires Sparse(rs, window, base0[8 * i0..8 * iEnd], 8 * i0) && Clear(rs, 8 * (window / 2), 8 * st)
    requires AllDense(rs, base0[8 * i0..8 * iEnd], mod[8 * i0..8 * iEnd], 8 * i0, window / 2)
    modifies base, diff
    ensures st + nskip < i <= iEnd && (i < iEnd ==> nskip > window / 2 && changed == baseVal)
    ensures var rs' := rs + [Record(8 * st, mod[8 * st..8 * (i - nskip)])];
      Sparse(rs', window, base0[8 * i0..8 * iEnd], 8 * i0) && (i < iEnd ==> Clear(rs', 8 * (window / 2), 8 * i))
    ensures AllDense(rs + [Record(8 * st, mod[8 * st..8 * (i - nskip)])], base0[8 * i0..8 * iEnd],
                     mod[8 * i0..8 * iEnd], 8 * i0, window / 2)
    ensures Scanned(diff[..], diff0, d0, dc + 1 + (i - nskip - st), mod, base[..], base0, i0, i, iEnd,
                    rs + [Record(8 * st, mod[8 * st..8 * (i - nskip)])])
  {
    hide Scanned, Running, LE32, Patched, Sparse, Clear, AllDense, DenseRun;
    var p := d0 + 8 * dc;
    ghost var diff1, base1 := diff[..], base[..];
    CopyInto(diff, p, LE32(2 * st));
    CopyInto(diff, p + 8, mod[8 * st..8 * st + 8]);
    CopyInto(base, 8 * st, mod[8 * st..8 * st + 8]);
    RunningStart(diff1, p, mod, base1, st);
    WordBefore(diff1, diff0, d0, dc, mod, base1, base0, i0, st, iEnd, rs, st);
    i, nskip, changed, baseVal := CopyRun(window, mod, base, diff, p, st, iEnd, diff1, base1);
    ghost var diff2 := diff[..];
    CopyInto(diff, p + 4, LE32(2 * (i - nskip)));
    ScannedRecord(diff2, diff1, diff[..], diff0, d0, dc, mod, base[..], base1, base0, i0, st, i - nskip, i, iEnd, rs);
    SparseMore(rs, window, mod, base0, i0, iEnd, st, i - nskip, i);
    DenseBefore(diff1, diff0, d0, dc, mod, base1, base0, i0, st, iEnd, rs, window / 2, i, nskip);
    DenseMore(rs, mod, base0, window / 2, i0, iEnd, st, i, nskip);
  }

  /** Write a record for the last word only. */
  method EmitLast(mod: seq<Byte>, base: array<Byte>, diff: array<Byte>, d0: nat, dc: nat, changed: seq<Byte>, iEnd: nat,
                  ghost diff0: seq<Byte>, ghost base0: seq<Byte>, ghost i0: nat, ghost rs: seq<ByteRecord>)
    requires base != diff && 2 * iEnd < U32_LIMIT && i0 < iEnd && 8 * iEnd <= |mod| && 8 * iEnd <= base.Length
    requires Scanned(diff[..], diff0, d0, dc, mod, base[..], base0, i0, iEnd - 1, iEnd, rs)
    requires d0 + 8 * dc + 16 <= diff.Length && changed == WordAt(mod, iEnd - 1)
    modifies base, diff
    ensures Scanned(diff[..], diff0, d0, dc + 2, mod, base[..], base0, i0, iEnd, iEnd,
                    rs + [Record(8 * (iEnd - 1), mod[8 * (iEnd - 1)..8 * iEnd])])
  {
    hide Scanned, Patched, LE32;
    ghost var diff1, base1 := diff[..], base[..];
    var p := d0 + 8 * dc;
    CopyInto(diff, p, LE32(2 * (iEnd - 1)));
    CopyInto(diff, p + 4, LE32(2 * iEnd));
    CopyInto(diff, p + 8, changed);
    CopyInto(base, 8 * (iEnd - 1), changed);
    LastWord(diff1, diff[..], diff0, d0, dc, mod, base1, base0, i0, iEnd, rs);
  }

  /** Pass over words that did not change. */
  method SkipEqual(mod: seq<Byte>, base: array<Byte>, diff: array<Byte>, i0: nat, iEnd: nat, changed0: seq<Byte>,
                   baseVal0: seq<Byte>,
                   ghost d0: nat, ghost dc: nat, ghost diff0: seq<Byte>, ghost base0: seq<Byte>, ghost iStart: nat,
                   ghost u0: nat, ghost rs: seq<ByteRecord>)
    returns (i: nat, changed: seq<Byte>, baseVal: seq<Byte>, ghost u: nat)
    requires iStart <= u0 < iEnd && 8 * iEnd <= |mod| && 8 * iEnd <= base.Length && i0 < iEnd
    requires Scanned(diff[..], diff0, d0, dc, mod, base[..], base0, iStart, u0, iEnd, rs)
    requires Ahead(mod, base0, changed0, baseVal0, u0, i0, iEnd)
    ensures u0 <= u < iEnd && i0 <= i <= iEnd && u == i - 1 && (i < iEnd ==> changed != baseVal)
    ensures Scanned(diff[..], diff0, d0, dc, mod, base[..], base0, iStart, u, iEnd, rs)
    ensures Ahead(mod, base0, changed, baseVal, u, i, iEnd)
  {
    hide Scanned;
    i, changed, baseVal, u := i0, changed0, baseVal0, u0;
    while changed == baseVal && i < iEnd
      invariant u0 <= u < iEnd && i0 <= i <= iEnd
      invariant Scanned(diff[..], diff0, d0, dc, mod, base[..], base0, iStart, u, iEnd, rs)
      invariant Ahead(mod, base0, changed, baseVal, u, i, iEnd)
      decreases iEnd - i
    {
      if u == i - 1 {
        ScannedEqual(diff[..], diff0, d0, dc, mod, base[..], base0, iStart, u, iEnd, rs);
        u := i;
      }
      WordBefore(diff[..], diff0, d0, dc, mod, base[..], base0, iStart, u, iEnd, rs, i);
      assert base[8 * i..8 * i + 8] == WordAt(base[..], i);
      changed, baseVal := mod[8 * i..8 * i + 8], base[8 * i..8 * i + 8];
      i := i + 1;
    }
  }

  /** Alternate between passing over words that did not change and writing records. */
  method ScanRuns(window: nat, mod: seq<Byte>, base: array<Byte>, diff: array<Byte>, d0: nat, iStart: nat, iEnd: nat)
    returns (dc: nat, changed: seq<Byte>, baseVal: seq<Byte>, clearExit: bool, ghost u: nat, ghost rs: seq<ByteRecord>)
    requires base != diff && iStart < iEnd && 8 * iEnd <= |mod| && 8 * iEnd <= base.Length && 2 * iEnd < U32_LIMIT
    requires d0 + 8 * (iEnd - iStart) + 8 <= diff.Length
    modifies base, diff
    ensures Scanned(diff[..], old(diff[..]), d0, dc, mod, base[..], old(base[..]), iStart, u, iEnd, rs)
    ensures if clearExit || iStart + 1 == iEnd
      then u == iEnd - 1 && dc <= u - iStart && changed == WordAt(mod, u) && baseVal == WordAt(old(base[..]), u)
      else u == iEnd && dc <= u - iStart + 1
    ensures Sparse(rs, window, old(base[..])[8 * iStart..8 * iEnd], 8 * iStart) &&
      (u < iEnd ==> Clear(rs, 8 * (window / 2), 8 * u))
    ensures AllDense(rs, old(base[..])[8 * iStart..8 * iEnd], mod[8 * iStart..8 * iEnd], 8 * iStart, window / 2)
  {
    hide Scanned, Sparse, Clear, Ahead, AllDense;
    NothingDense(base[..][8 * iStart..8 * iEnd], mod[8 * iStart..8 * iEnd], 8 * iStart, window / 2);
    NothingSparse(window, base[..][8 * iStart..8 * iEnd], 8 * iStart, 8 * iStart);
    ghost var diff0, base0 := diff[..], base[..];
    u, dc, rs, clearExit := iStart, 0, [], false;
    ScannedNothing(diff0, d0, mod, base0, iStart, iEnd);
    var i := iStart + 1;
    changed, baseVal := mod[8 * iStart..8 * iStart + 8], base[8 * iStart..8 * iStart + 8];
    assert baseVal == WordAt(base0, iStart) && changed == WordAt(mod, iStart);
    AheadFirst(mod, base0, iStart, iEnd);
    hide WordAt;
    while i < iEnd
      invariant iStart < i <= iEnd && iStart <= u <= iEnd && (if i == iStart + 1 then u == iStart else u == i)
      invariant Scanned(diff[..], diff0, d0, dc, mod, base[..], base0, iStart, u, iEnd, rs)
      invariant dc <= u - iStart + (if u == iEnd then 1 else 0)
      invariant Sparse(rs, window, base0[8 * iStart..8 * iEnd], 8 * iStart) &&
        (u < iEnd ==> Clear(rs, 8 * (window / 2), 8 * u))
      invariant AllDense(rs, base0[8 * iStart..8 * iEnd], mod[8 * iStart..8 * iEnd], 8 * iStart, window / 2)
      invariant Ahead(mod, base0, changed, baseVal, u, i, iEnd)
      decreases iEnd - i
    {
      ghost var u0 := u;
      i, changed, baseVal, u :=
        SkipEqual(mod, base, diff, i, iEnd, changed, baseVal, d0, dc, diff0, base0, iStart, u, rs);
      ClearLater(rs, 8 * (window / 2), 8 * u0, 8 * u);
      AheadIs(mod, base0, changed, baseVal, u, i, iEnd);
      if i == iEnd {
        clearExit := true;
        return;
      }
      var start, nskip := i - 1, 0;
      i, nskip, changed, baseVal := EmitRun(window, mod, base, diff, d0, dc, start, iEnd, diff0, base0, iStart, rs);
      rs := rs + [Record(8 * start, mod[8 * start..8 * (i - nskip)])];
      dc := dc + 1 + (i - nskip - start);
      u := i;
      AheadDone(mod, base0, changed, baseVal, i, iEnd);
    }
    if i == iStart + 1 { AheadIs(mod, base0, changed, baseVal, u, i, iEnd); }
  }

  /**
   * Diff words `iStart..iEnd`. The scan compares the word before `i`; a last word
   * that differs on its own is written after the scan.
   */
  method RunIntervalDiff(window: nat, mod: seq<Byte>, base: array<Byte>, diff: array<Byte>, d0: nat, iStart: nat,
                         iEnd: nat)
    returns (dc: nat, ghost rs: seq<ByteRecord>)
    requires base != diff && iStart <= iEnd && 8 * iEnd <= |mod| && 8 * iEnd <= base.Length && 2 * iEnd < U32_LIMIT
    requires d0 + 8 * (iEnd - iStart) + 8 <= diff.Length
    modifies base, diff
    ensures dc <= iEnd - iStart + 1
    ensures diff[..][..d0] == old(diff[..])[..d0]
    ensures AllEncodable(rs) && diff[..][d0..d0 + 8 * dc] == Encode(rs)
    ensures Explains(rs, old(base[..])[8 * iStart..8 * iEnd], mod[8 * iStart..8 * iEnd], 8 * iStart,
                     8 * (iEnd - iStart))
    ensures base[..] == Patched(old(base[..]), 8 * iStart, mod[8 * iStart..8 * iEnd])
    ensures Spread(rs, 8 * (window / 2)) && Needed(rs, old(base[..])[8 * iStart..8 * iEnd], 8 * iStart)
    ensures AllDense(rs, old(base[..])[8 * iStart..8 * iEnd], mod[8 * iStart..8 * iEnd], 8 * iStart, window / 2)
  {
    hide Scanned, Patched, Explains, Encode, AllEncodable, Spread, Needed, Clear, AllDense, DenseRun;
    NothingDense(base[..][8 * iStart..8 * iEnd], mod[8 * iStart..8 * iEnd], 8 * iStart, window / 2);
    NothingSparse(window, base[..][8 * iStart..8 * iEnd], 8 * iStart, 0);
    ghost var diff0, base0 := diff[..], base[..];
    dc, rs := 0, [];
    ScannedNothing(diff0, d0, mod, base0, iStart, iEnd);
    if iStart < iEnd {
      var changed, baseVal, clearExit;
      ghost var u;
      dc, changed, baseVal, clearExit, u, rs := ScanRuns(window, mod, base, diff, d0, iStart, iEnd);
      if (clearExit || iStart + 1 == iEnd) && changed != baseVal {
        EmitLast(mod, base, diff, d0, dc, changed, iEnd, diff0, base0, iStart, rs);
        SparseMore(rs, window, mod, base0, iStart, iEnd, iEnd - 1, iEnd, iEnd);
        DenseFirst(base0, mod, window / 2, iEnd - 1);
        DenseMore(rs, mod, base0, window / 2, iStart, iEnd, iEnd - 1, iEnd, 0);
        rs := rs + [Record(8 * (iEnd - 1), mod[8 * (iEnd - 1)..8 * iEnd])];
        dc := dc + 2;
      } else if u < iEnd {
        ScannedEqual(diff[..], diff0, d0, dc, mod, base[..], base0, iStart, u, iEnd, rs);
      }
    }
    ScannedAll(diff[..], diff0, d0, dc, mod, base[..], base0, iStart, iEnd, rs);
  }

  lemma AheadFirst(mod: seq<Byte>, base0: seq<Byte>, i: nat, iEnd: nat)
    requires i < iEnd && 8 * iEnd <= |mod| && 8 * iEnd <= |base0|
    ensures Ahead(mod, base0, WordAt(mod, i), WordAt(base0, i), i, i + 1, iEnd)
  {
  }

  lemma AheadIs(mod: seq<Byte>, base0: seq<Byte>, changed: seq<Byte>, baseVal: seq<Byte>, u: nat, i: nat, iEnd: nat)
    requires Ahead(mod, base0, changed, baseVal, u, i, iEnd) && u + 1 == i
    ensures 8 * i <= |mod| && 8 * i <= |base0| && changed == WordAt(mod, u) && baseVal == WordAt(base0, u)
  {
  }

  lemma AheadDone(mod: seq<Byte>, base0: seq<Byte>, changed: seq<Byte>, baseVal: seq<Byte>, i: nat, iEnd: nat)
    requires 0 < i <= iEnd && 8 * iEnd <= |mod| && 8 * iEnd <= |base0| && (i < iEnd ==> changed == baseVal)
    ensures Ahead(mod, base0, changed, baseVal, i, i, iEnd)
  {
  }

  lemma ScannedAll(diff: seq<Byte>, diff0: seq<Byte>, d0: nat, dc: nat, mod: seq<Byte>, base: seq<Byte>,
                   base0: seq<Byte>, i0: nat, iEnd: nat, rs: seq<ByteRecord>)
    requires Scanned(diff, diff0, d0, dc, mod, base, base0, i0, iEnd, iEnd, rs)
    ensures d0 + 8 * dc <= |diff| == |diff0| && diff[..d0] == diff0[..d0] && AllEncodable(rs) &&
      diff[d0..d0 + 8 * dc] == Encode(rs)
    ensures 8 * iEnd <= |mod| && 8 * iEnd <= |base0| && i0 <= iEnd &&
      base == Patched(base0, 8 * i0, mod[8 * i0..8 * iEnd])
    ensures Explains(rs, base0[8 * i0..8 * iEnd], mod[8 * i0..8 * iEnd], 8 * i0, 8 * (iEnd - i0))
  {
  }

  /** Only the last word is left, and it changed. */
  lemma LastWord(diff1: seq<Byte>, diff': seq<Byte>, diff0: seq<Byte>, d0: nat, dc: nat, mod: seq<Byte>,
                 base1: seq<Byte>, base0: seq<Byte>, i0: nat, iEnd: nat, rs: seq<ByteRecord>)
    requires i0 < iEnd && 2 * iEnd < U32_LIMIT && d0 + 8 * dc + 16 <= |diff1|
    requires Scanned(diff1, diff0, d0, dc, mod, base1, base0, i0, iEnd - 1, iEnd, rs)
    requires 8 * iEnd <= |mod| && 8 * iEnd <= |base1|
    requires diff' == Patched(Patched(Patched(diff1, d0 + 8 * dc, LE32(2 * (iEnd - 1))), d0 + 8 * dc + 4,
                                      LE32(2 * iEnd)),
                              d0 + 8 * dc + 8, WordAt(mod, iEnd - 1))
    ensures Scanned(diff', diff0, d0, dc + 2, mod, Patched(base1, 8 * (iEnd - 1), WordAt(mod, iEnd - 1)), base0, i0,
                    iEnd, iEnd, rs + [Record(8 * (iEnd - 1), mod[8 * (iEnd - 1)..8 * iEnd])])
  {
    hide Scanned, Running, LE32;
    var p, st := d0 + 8 * dc, iEnd - 1;
    RunningStart(diff1, p, mod, base1, st);
    var diff := Patched(Patched(diff1, p, LE32(2 * st)), p + 8, WordAt(mod, st));
    assert diff' == Patched(diff, p + 4, LE32(2 * iEnd));
    ScannedRecord(diff, diff1, diff', diff0, d0, dc, mod, Patched(base1, 8 * st, WordAt(mod, st)), base1, base0, i0,
                  st, iEnd, iEnd, iEnd, rs);
  }

  /** What the look-ahead holds: the word before `i`, unless that is dealt with and did not change. */
  ghost predicate Ahead(mod: seq<Byte>, base0: seq<Byte>, changed: seq<Byte>, baseVal: seq<Byte>, u: nat, i: nat,
                        iEnd: nat) {
    && 0 < i <= iEnd && 8 * iEnd <= |mod| && 8 * iEnd <= |base0|
    && (if u == i - 1 then changed == WordAt(mod, i - 1) && baseVal == WordAt(base0, i - 1)
        else u == i && (i < iEnd ==> changed == baseVal))
  }

  /** Intervals made of whole words, inside a buffer. */
  predicate WholeWords(l: seq<Interval>, size: nat) {
    forall i :: 0 <= i < |l| ==> l[i].lo % 8 == 0 && l[i].hi % 8 == 0 && l[i].lo <= l[i].hi <= size
  }

  lemma WordsOf(l: seq<Interval>, size: nat, i: nat)
    requires WholeWords(l, size) && i < |l|
    ensures l[i].lo == 8 * (l[i].lo / 8) && l[i].hi == 8 * (l[i].hi / 8) && l[i].lo <= l[i].hi <= size
  {
  }

  /** Every record lies in one of the intervals, starts and ends with a changed word and spans no long gap. */
  ghost predicate AllDenseIn(rs: seq<ByteRecord>, was: seq<Byte>, now: seq<Byte>, l: seq<Interval>, half: nat) {
    forall r :: r in rs ==> exists n :: n in l && DenseIn(r, was, now, n, half)
  }

  ghost predicate DenseIn(r: ByteRecord, was: seq<Byte>, now: seq<Byte>, n: Interval, half: nat) {
    n.lo <= n.hi <= |was| && n.hi <= |now| && Dense(r, was[n.lo..n.hi], now[n.lo..n.hi], n.lo, half)
  }

  lemma NoneDenseIn(was: seq<Byte>, now: seq<Byte>, half: nat)
    ensures AllDenseIn([], was, now, [], half)
  {
  }

  lemma DenseInMore(rs: seq<ByteRecord>, more: seq<ByteRecord>, was: seq<Byte>, now: seq<Byte>, l: seq<Interval>,
                    n: Interval, half: nat)
    requires AllDenseIn(rs, was, now, l, half) && n.lo <= n.hi <= |was| && n.hi <= |now|
    requires AllDense(more, was[n.lo..n.hi], now[n.lo..n.hi], n.lo, half)
    ensures AllDenseIn(rs + more, was, now, l + [n], half)
  {
    hide Dense;
    forall r | r in rs + more ensures exists n' :: n' in l + [n] && DenseIn(r, was, now, n', half) {
      if r in rs {
        var n' :| n' in l && DenseIn(r, was, now, n', half);
        assert n' in l + [n];
      } else {
        assert n in l + [n] && DenseIn(r, was, now, n, half);
      }
    }
  }

  /** Diff a list of intervals with the window of 24 that the program uses. */
  method ConstructDiffCore(intervals: seq<Interval>, base: array<Byte>, changed: seq<Byte>, diff: array<Byte>)
    returns (len: nat, ghost rs: seq<ByteRecord>)
    requires base != diff && |changed| == base.Length && |changed| < U32_LIMIT
    requires WholeWords(intervals, |changed|) && Space(intervals) <= diff.Length
    modifies base, diff
    ensures len <= Space(intervals) && AllEncodable(rs) && diff[..][..len] == Encode(rs)
    ensures Diffed(rs, old(base[..]), base[..], changed, intervals)
    ensures Ascending(intervals) ==> AllDenseIn(rs, old(base[..]), changed, intervals, 12)
  {
    hide Diffed, Encode, AllEncodable, Space, Explains, Patched, WholeWords, AllDense, AllDenseIn, Ascending;
    NoneDenseIn(base[..], changed, 12);
    ghost var was := base[..];
    len, rs := 0, [];
    DiffedNothing(was, changed);
    DecodeNothing();
    assert intervals[..0] == [];
    SpaceNothing();
    forall i | 0 <= i < |intervals| ensures intervals[i].lo <= intervals[i].hi { WordsOf(intervals, |changed|, i); }
    SpacePrefix(intervals, 0);
    for i := 0 to |intervals|
      invariant len <= Space(intervals[..i]) <= Space(intervals)
      invariant AllEncodable(rs) && diff[..][..len] == Encode(rs)
      invariant Diffed(rs, was, base[..], changed, intervals[..i])
      invariant Ascending(intervals) ==> AllDenseIn(rs, was, changed, intervals[..i], 12)
    {
      var e := intervals[i];
      WordsOf(intervals, |changed|, i);
      SpaceMore(intervals, i);
      SpacePrefix(intervals, i + 1);
      ghost var m := base[..];
      var dc, rs' := RunIntervalDiff(24, changed, base, diff, len, e.lo / 8, e.hi / 8);
      DiffedMore(rs, rs', was, m, changed, intervals[..i], e);
      if Ascending(intervals) {
        NotYetDiffed(rs, was, m, changed, intervals, i);
        DenseInMore(rs, rs', was, changed, intervals[..i], e, 12);
      }
      assert intervals[..i] + [e] == intervals[..i + 1];
      EncodeConcat(rs, rs');
      PrefixSplit(diff[..], len, 8 * dc);
      rs := rs + rs';
      len := len + 8 * dc;
    }
    assert intervals[..|intervals|] == intervals;
  }

  lemma TailShort(size: nat, unit: nat)
    requires unit > 0
    ensures size % unit <= size
  {
    assert RoundDown(size, unit) == size - size % unit;
  }

  lemma TailsDiffer(s: seq<Byte>, t: seq<Byte>, offset: nat)
    requires |s| == |t| && offset <= |s|
    ensures (forall x :: offset <= x < |s| ==> s[x] == t[x]) <==> s[offset..] == t[offset..]
  {
    if s[offset..] == t[offset..] {
      forall x | offset <= x < |s| ensures s[x] == t[x] { assert s[offset..][x - offset] == t[offset..][x - offset]; }
    }
  }

  /** How many bytes lie after the last whole unit of `Pow2(alignmentBits)` bytes. */
  function TrailingSize(size: nat, alignmentBits: nat): (n: nat)
    ensures n <= size
  {
    TailShort(size, Pow2(alignmentBits));
    size % Pow2(alignmentBits)
  }

  /** Copy the bytes after the last whole unit if any of them changed. */
  method ConstructDiffTrailing(alignmentBits: nat, base: array<Byte>, changed: seq<Byte>, diff: array<Byte>, at: nat)
    returns (n: nat)
    requires base != diff && |changed| == base.Length && at + TrailingSize(|changed|, alignmentBits) <= diff.Length
    modifies base, diff
    ensures var t := TrailingSize(|changed|, alignmentBits);
      && n == (if old(base[..])[|changed| - t..] == changed[|changed| - t..] then 0 else t)
      && base[|changed| - t..] == changed[|changed| - t..]
    ensures diff[..][..at] == old(diff[..])[..at] && diff[..][at..at + n] == changed[|changed| - n..]
    ensures base[..] == Patched(old(base[..]), |changed| - n, changed[|changed| - n..])
  {
    hide TrailingSize;
    var ntrailing := TrailingSize(|changed|, alignmentBits);
    var offset := |changed| - ntrailing;
    var tailChange := false;
    for i := 0 to ntrailing
      invariant tailChange <==> !forall x :: offset <= x < offset + i ==> base[x] == changed[x]
    {
      tailChange := tailChange || base[offset + i] != changed[offset + i];
    }
    n := 0;
    TailsDiffer(base[..], changed, offset);
    if tailChange {
      CopyInto(diff, at, changed[offset..]);
      CopyInto(base, offset, changed[offset..]);
      n := ntrailing;
    }
  }

  lemma FoursApart(a: nat, b: nat)
    requires a % 4 == 0 && b % 4 == 0
    ensures a >= b <==> a + 8 > b + 4
  {
    assert a == 4 * (a / 4) && b == 4 * (b / 4);
  }

  lemma BlocksFit(nto: nat, size: nat)
    ensures nto <= size / 4 <==> 4 * nto <= RoundDown(size, 4)
    ensures RoundDown(size, 4) <= size
  {
  }

  lemma PosOnWords(diff: seq<Byte>, pos: nat, done: seq<ByteRecord>, lo: nat, hi: nat)
    requires ReadUpTo(diff, pos, done, lo, hi)
    ensures pos % 4 == 0 && pos <= |diff|
  {
    hide Encode, AllEncodable;
    EncodedWords(done);
  }

  /**
   * Replay a diff on two targets of the same size. The range test lets the last
   * record run up to four bytes on into the trailing bytes: these diffs, and no
   * others, are accepted as well.
   */
  method ApplyDiffBoth(target1: array<Byte>, target2: array<Byte>, diff: seq<Byte>, ntrailing: nat) returns (r: Outcome)
    requires target1 != target2 && target1.Length == target2.Length && Shaped(diff, ntrailing)
    modifies target1, target2
    ensures r.Ok? <==>
      ntrailing <= target1.Length && Acceptable(diff, |diff| - ntrailing, 4, 0, RoundDown(target1.Length, 4))
    ensures forall m: nat :: r.Ok? && Accepts(diff, |diff| - ntrailing, 4, 0, RoundDown(target1.Length, 4), m) ==>
      var e := FullEffect(Decode(diff[..m]).value, TailOf(diff, ntrailing), target1.Length);
      target1[..] == Override(old(target1[..]), 0, e) && target2[..] == Override(old(target2[..]), 0, e)
    ensures !r.Ok? ==> BothBrokenOff(target1[..], old(target1[..]), 0, target2[..], old(target2[..]), 0, diff,
                                     |diff| - ntrailing, 4, 0, RoundDown(target1.Length, 4), target1.Length / 4, r)
  {
    hide Decode, U32, Effect, Writes, Override, Patched, Accepts, Acceptable, ReadUpTo, FullEffect, RoundDown,
      BothBrokenOff, BrokenOff;
    var size, n := target1.Length, |diff| - ntrailing;
    var nblocks := size / 4;
    ghost var a0, b0, hi := target1[..], target2[..], RoundDown(size, 4);
    ghost var done: seq<ByteRecord> := [];
    var pos := 0;
    ReadUpToStart(diff, 0, hi);
    ReplayNothing(a0, 0);
    ReplayNothing(b0, 0);
    while pos < n
      invariant pos <= n + 4 && ReadUpTo(diff, pos, done, 0, hi)
      invariant target1[..] == Override(a0, 0, Effect(done)) && target2[..] == Override(b0, 0, Effect(done))
      decreases n - pos
    {
      ghost var good := Acceptable(diff, n, 4, 0, hi);
      if good { MustHold(diff, n, 4, 0, hi, pos, done); }
      if pos + 8 > |diff| {
        BothBreak(target1[..], a0, 0, target2[..], b0, 0, diff, n, 4, 0, hi, nblocks, Panic, pos, done);
        return Panic;
      }
      var nfrom, nto := U32(diff[pos..]), U32(diff[pos + 4..]);
      PosOnWords(diff, pos, done, 0, hi);
      BlocksFit(nto, size);
      FoursApart(pos + 4 * (if nfrom < nto then nto - nfrom else 0), n);
      if nto > nblocks || nfrom >= nto || pos + 4 * (nto - nfrom) >= n {
        BothBreak(target1[..], a0, 0, target2[..], b0, 0, diff, n, 4, 0, hi, nblocks, Err, pos, done);
        return Err;
      }
      var span := 4 * (nto - nfrom);
      if pos + 8 + span > |diff| {
        BothBreak(target1[..], a0, 0, target2[..], b0, 0, diff, n, 4, 0, hi, nblocks, Panic, pos, done);
        return Panic;
      }
      ReadUpToNext(diff, pos, done, 0, hi);
      ghost var a, b, rec := target1[..], target2[..], Record(4 * nfrom, diff[pos + 8..pos + 8 + span]);
      CopyInto(target1, 4 * nfrom, diff[pos + 8..pos + 8 + span]);
      CopyInto(target2, 4 * nfrom, diff[pos + 8..pos + 8 + span]);
      ReplayMore(a0, a, 0, done, rec);
      ReplayMore(b0, b, 0, done, rec);
      done := done + [rec];
      pos := pos + 8 + span;
    }
    StopsThere(diff, n, 4, 0, hi, pos, done, pos);
    AcceptableAt(diff, n, 4, 0, hi, pos);
    forall m: nat | Accepts(diff, n, 4, 0, hi, m) ensures m == pos {
      StopsThere(diff, n, 4, 0, hi, pos, done, m);
    }
    if ntrailing > 0 {
      if ntrailing > size {
        BothBreak(target1[..], a0, 0, target2[..], b0, 0, diff, n, 4, 0, hi, nblocks, Panic, pos, done);
        return Panic;
      }
      ghost var a, b := target1[..], target2[..];
      CopyInto(target1, size - ntrailing, diff[n..n + ntrailing]);
      CopyInto(target2, size - ntrailing, diff[n..n + ntrailing]);
      assert diff[n..n + ntrailing] == TailOf(diff, ntrailing);
      TailReplay(a0, a, 0, done, TailOf(diff, ntrailing), size);
      TailReplay(b0, b, 0, done, TailOf(diff, ntrailing), size);
    } else {
      NoTailReplay(a0, target1[..], 0, done, TailOf(diff, ntrailing), size);
      NoTailReplay(b0, target2[..], 0, done, TailOf(diff, ntrailing), size);
    }
    return Ok;
  }

  /** A diff that is not well formed and passes the test of `ApplyDiffBoth`, for targets of four bytes. */
  lemma OverrunAcceptedBoth()
    ensures var diff := OneRecordDiff();
      && Shaped(diff, 4) && Acceptable(diff, |diff| - 4, 4, 0, RoundDown(4, 4))
      && !Applicable(Core(diff, 4), 0, RoundDown(4, 4))
  {
    hide *;
    BlocksFit(1, 4);
    OverrunAccepted(4);
    AcceptableAt(OneRecordDiff(), 8, 4, 0, 4, 12);
  }

  lemma WordsBelow(l: seq<Interval>, size: nat, x: nat)
    requires WholeWords(l, size) && Covers(l, x)
    ensures x < RoundDown(size, 4) && x < size - size % 8
  {
    var j :| 0 <= j < |l| && l[j].Has(x);
    WordsOf(l, size, j);
    hide RoundDown;
    EightsBelow(l[j].hi / 8, size);
  }

  lemma EightsBelow(q: nat, size: nat)
    requires 8 * q <= size
    ensures 8 * q <= size - size % 8 && 8 * q <= RoundDown(size, 4)
  {
    var r := RoundDown(size, 4);
    assert r == 4 * (size / 4);
    assert 2 * q <= size / 4;
  }

  lemma RecordsInWords(rs: seq<ByteRecord>, l: seq<Interval>, size: nat)
    requires AllEncodable(rs) && WholeWords(l, size) && forall x :: x in Effect(rs) ==> Covers(l, x)
    ensures RecordsWithin(rs, 0, RoundDown(size, 4))
  {
    hide Effect, Covers, WholeWords;
    forall i | 0 <= i < |rs| ensures rs[i].at + |rs[i].data| <= RoundDown(size, 4) {
      assert Encodable(rs[i]);
      var x := rs[i].at + |rs[i].data| - 1;
      EffectHas(rs, i, x);
      WordsBelow(l, size, x);
    }
  }

  lemma DiffedCore(rs: seq<ByteRecord>, was: seq<Byte>, now: seq<Byte>, target: seq<Byte>, l: seq<Interval>)
    requires AllEncodable(rs) && Diffed(rs, was, now, target, l) && WholeWords(l, |target|) && |was| == |target|
    ensures now == Override(was, 0, Effect(rs)) && Decode(Encode(rs)) == Some(rs) &&
      Applicable(Encode(rs), 0, RoundDown(|target|, 4))
    ensures forall x :: 0 <= x < |target| ==> now[x] == if Covers(l, x) then target[x] else was[x]
  {
    DecodeEncode(rs);
    hide Encode, Decode, Effect, Covers, AllEncodable, WholeWords;
    RecordsInWords(rs, l, |target|);
  }

  lemma BothAgree(rs: seq<ByteRecord>, was: seq<Byte>, now: seq<Byte>, target: seq<Byte>, n: nat)
    requires |was| == |target| && now == Override(was, 0, Effect(rs)) && n <= |target|
    ensures Patched(now, |target| - n, target[|target| - n..]) ==
      Override(was, 0, FullEffect(rs, target[|target| - n..], |target|))
  {
    hide Effect;
    if n == 0 {
      assert target[|target|..] == [];
      NoTailReplay(was, now, 0, rs, [], |target|);
      assert Patched(now, |target|, []) == now;
    } else {
      TailReplay(was, now, 0, rs, target[|target| - n..], |target|);
    }
  }

  lemma SpaceAll(l: seq<Interval>, size: nat)
    requires WholeWords(l, size)
    ensures Space(l) >= 0
  {
    SpaceNothing();
    assert l[..0] == [];
    SpacePrefix(l, 0);
  }

  lemma DiffParts(diff: seq<Byte>, len: nat, n: nat)
    requires len + n <= |diff| && len % 4 == 0
    ensures Shaped(diff[..len + n], n) && Core(diff[..len + n], n) == diff[..len] &&
      TailOf(diff[..len + n], n) == diff[len..len + n]
  {
  }

  lemma TailedAt(was: seq<Byte>, now: seq<Byte>, after: seq<Byte>, target: seq<Byte>, n: nat, l: seq<Interval>)
    requires |was| == |now| == |target| && n <= |target| % 8 && WholeWords(l, |target|)
    requires forall x :: 0 <= x < |target| ==> now[x] == if Covers(l, x) then target[x] else was[x]
    requires after == Patched(now, |target| - n, target[|target| - n..])
    requires after[|target| - |target| % 8..] == target[|target| - |target| % 8..]
    ensures forall x :: 0 <= x < |target| ==>
      after[x] == if Covers(l, x) || x >= |target| - |target| % 8 then target[x] else was[x]
  {
    var t := |target| - |target| % 8;
    forall x | 0 <= x < |target| ensures after[x] == if Covers(l, x) || x >= t then target[x] else was[x] {
      if x >= t {
        assert after[t..][x - t] == target[t..][x - t];
      } else {
        assert after[x] == now[x];
      }
    }
  }

  /**
   * Diff a buffer on one side and replay the diff on both copies of the other:
   * all three agree, have the new contents on the damaged intervals and after the
   * last whole word, and are otherwise as before.
   */
  method ReplicateBuffer(intervals: seq<Interval>, base: array<Byte>, changed: seq<Byte>, target1: array<Byte>,
                         target2: array<Byte>)
    requires base != target1 && base != target2 && target1 != target2
    requires |changed| == base.Length && |changed| < U32_LIMIT && WholeWords(intervals, |changed|)
    requires target1[..] == base[..] && target2[..] == base[..]
    modifies base, target1, target2
    ensures target1[..] == base[..] && target2[..] == base[..]
    ensures forall x :: 0 <= x < |changed| ==>
      base[x] == if Covers(intervals, x) || x >= |changed| - |changed| % 8 then changed[x] else old(base[x])
  {
    hide Encode, Decode, Diffed, Override, FullEffect, Effect, Applicable, AllEncodable, Covers, WholeWords, Patched,
      Accepts, Acceptable;
    ghost var was := base[..];
    assert TrailingSize(|changed|, 3) == |changed| % 8 by { assert Pow2(3) == 8; }
    SpaceAll(intervals, |changed|);
    var diff := new Byte[Space(intervals) + |changed| % 8];
    var len, rs := ConstructDiffCore(intervals, base, changed, diff);
    ghost var now := base[..];
    DiffedCore(rs, was, now, changed, intervals);
    EncodedWords(rs);
    ghost var core := diff[..][..len];
    var n := ConstructDiffTrailing(3, base, changed, diff, len);
    BothAgree(rs, was, now, changed, n);
    DiffParts(diff[..], len, n);
    AcceptsWellFormed(diff[..len + n], len, 4, 0, RoundDown(|changed|, 4));
    var r := ApplyDiffBoth(target1, target2, diff[..len + n], n);
    TailedAt(was, now, base[..], changed, n, intervals);
  }
}

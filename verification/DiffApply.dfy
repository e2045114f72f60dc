/** Replaying a diff onto a mirror and, for shared memory, onto the mapped file. */
module DiffApply {
  import opened Bytes
  import opened Replay
  import opened DiffFormat
  import opened Intervals

  /** How a replay ends: done, refused with an error, or stopped by an out-of-range access. */
  datatype Outcome = Ok | Err | Panic

  predicate Shaped(diff: seq<Byte>, ntrailing: nat) {
    ntrailing <= |diff| && (|diff| - ntrailing) % 4 == 0
  }

  function Core(diff: seq<Byte>, ntrailing: nat): seq<Byte>
    requires Shaped(diff, ntrailing)
  {
    diff[..|diff| - ntrailing]
  }

  function TailOf(diff: seq<Byte>, ntrailing: nat): seq<Byte>
    requires Shaped(diff, ntrailing)
  {
    diff[|diff| - ntrailing..]
  }

  /** Every record lies in `lo..hi`. */
  predicate RecordsWithin(rs: seq<ByteRecord>, lo: nat, hi: nat) {
    forall i :: 0 <= i < |rs| ==> lo <= rs[i].at && rs[i].at + |rs[i].data| <= hi
  }

  /** Records up to `pos` are `done`; the rest of the diff still has to be read. */
  ghost predicate Reading(core: seq<Byte>, pos: nat, done: seq<ByteRecord>) {
    pos <= |core| && pos % 4 == 0 && Decode(core) == Prepend(done, Decode(core[pos..]))
  }

  lemma ReadingStart(core: seq<Byte>)
    ensures Reading(core, 0, [])
  {
    assert core[0..] == core;
    if Decode(core).Some? { assert [] + Decode(core).value == Decode(core).value; }
  }

  lemma DecodeUnfold(d: seq<Byte>)
    requires d != [] && FirstRecord(d).Some?
    ensures var r := FirstRecord(d).value;
      8 + |r.data| <= |d| && Decode(d) == Prepend([r], Decode(d[8 + |r.data|..]))
  {
  }

  lemma ReadOn(core: seq<Byte>, pos: nat, done: seq<ByteRecord>, r: ByteRecord)
    requires pos < |core| && FirstRecord(core[pos..]) == Some(r) && pos + 8 + |r.data| <= |core|
    requires Decode(core) == Prepend(done, Decode(core[pos..]))
    ensures Decode(core) == Prepend(done + [r], Decode(core[pos + 8 + |r.data|..]))
  {
    hide *;
    DecodeUnfold(core[pos..]);
    DropTwice(core, pos, 8 + |r.data|);
    PrependAgain(done, r, Decode(core[pos + 8 + |r.data|..]));
  }

  lemma ReadingNext(core: seq<Byte>, pos: nat, done: seq<ByteRecord>, r: ByteRecord)
    requires Reading(core, pos, done) && pos < |core| && FirstRecord(core[pos..]) == Some(r)
    ensures |r.data| % 4 == 0 && |r.data| > 0 && r.at % 4 == 0
    ensures Reading(core, pos + 8 + |r.data|, done + [r])
  {
    hide Decode, FirstRecord, Prepend;
    FirstShape(core[pos..], r);
    ReadOn(core, pos, done, r);
  }

  lemma DropTwice(s: seq<Byte>, a: nat, b: nat)
    requires a + b <= |s|
    ensures s[a..][b..] == s[a + b..]
  {
  }

  lemma FirstShape(d: seq<Byte>, r: ByteRecord)
    requires FirstRecord(d) == Some(r)
    ensures |r.data| % 4 == 0 && |r.data| > 0 && r.at % 4 == 0 && 8 + |r.data| <= |d|
  {
    var start, end := U32(d), U32(d[4..]);
    hide U32;
    Words(start);
    Words(end - start);
    assert |r.data| == 4 * (end - start);
  }

  lemma PrependAgain(done: seq<ByteRecord>, r: ByteRecord, rest: Option<seq<ByteRecord>>)
    ensures Prepend(done, Prepend([r], rest)) == Prepend(done + [r], rest)
  {
    match rest {
      case None =>
      case Some(rs) => assert done + ([r] + rs) == done + [r] + rs;
    }
  }

  lemma ReadingEnd(core: seq<Byte>, done: seq<ByteRecord>)
    requires Reading(core, |core|, done)
    ensures Decode(core) == Some(done)
  {
    assert core[|core|..] == [] && done + [] == done;
  }

  lemma ReadingStuck(core: seq<Byte>, pos: nat, done: seq<ByteRecord>)
    requires Reading(core, pos, done) && pos < |core| && FirstRecord(core[pos..]).None?
    ensures Decode(core).None?
  {
  }

  /** The record just read is one of those the diff decodes to. */
  lemma ReadingHas(core: seq<Byte>, pos: nat, done: seq<ByteRecord>, r: ByteRecord)
    requires Reading(core, pos, done) && pos < |core| && FirstRecord(core[pos..]) == Some(r)
    ensures Decode(core).Some? ==> |done| < |Decode(core).value| && Decode(core).value[|done|] == r
  {
  }

  /** The words at `pos` are those of the record that starts there. */
  lemma WordsAt(diff: seq<Byte>, n: nat, pos: nat)
    requires pos + 8 <= |diff| && pos <= n <= |diff|
    ensures var start, end := U32(diff[pos..]), U32(diff[pos + 4..]);
      FirstRecord(diff[..n][pos..]) ==
      if start < end && pos + 8 + 4 * (end - start) <= n
        then Some(Record(4 * start, diff[pos + 8..pos + 8 + 4 * (end - start)])) else None
  {
    var d := diff[..n][pos..];
    var start, end := U32(diff[pos..]), U32(diff[pos + 4..]);
    if pos + 8 <= n {
      assert U32(d) == start && U32(d[4..]) == end;
      if start < end && pos + 8 + 4 * (end - start) <= n {
        var u, v := d[8..8 + 4 * (end - start)], diff[pos + 8..pos + 8 + 4 * (end - start)];
        forall i | 0 <= i < |u| ensures u[i] == v[i] { assert u[i] == d[8 + i] == diff[pos + 8 + i]; }
        assert u == v;
      }
    }
  }

  /** Storing a record in a slice of the buffer. */
  lemma RecordOverrides(m: seq<Byte>, base: nat, r: ByteRecord)
    requires base <= r.at && r.at + |r.data| <= base + |m|
    ensures Patched(m, r.at - base, r.data) == Override(m, base, Writes(r))
  {
    var a, b := Patched(m, r.at - base, r.data), Override(m, base, Writes(r));
    forall i | 0 <= i < |m| ensures a[i] == b[i] {
      if r.at <= base + i < r.at + |r.data| { assert a[i] == r.data[base + i - r.at]; }
    }
  }

  lemma ReplayMore(m0: seq<Byte>, m: seq<Byte>, base: nat, done: seq<ByteRecord>, r: ByteRecord)
    requires |m| == |m0| && m == Override(m0, base, Effect(done)) && base <= r.at && r.at + |r.data| <= base + |m|
    ensures Patched(m, r.at - base, r.data) == Override(m0, base, Effect(done + [r]))
  {
    RecordOverrides(m, base, r);
    EffectMore(done, r);
    OverrideTwice(m0, base, Effect(done), Writes(r));
  }

  // ---- The appliers ----

  /** The diff decodes into records inside `lo..hi`. */
  ghost predicate Applicable(core: seq<Byte>, lo: nat, hi: nat) {
    Decode(core).Some? && RecordsWithin(Decode(core).value, lo, hi)
  }

  lemma StepOrNot(core: seq<Byte>, pos: nat, done: seq<ByteRecord>, lo: nat, hi: nat)
    requires Reading(core, pos, done) && pos < |core|
    ensures match FirstRecord(core[pos..])
      case None => !Applicable(core, lo, hi)
      case Some(r) =>
        8 + |r.data| <= |core| - pos &&
        if lo <= r.at && r.at + |r.data| <= hi then Reading(core, pos + 8 + |r.data|, done + [r])
          else !Applicable(core, lo, hi)
  {
    hide Reading, Decode, FirstRecord;
    match FirstRecord(core[pos..]) {
      case None =>
        ReadingStuck(core, pos, done);
      case Some(r) =>
        FirstShape(core[pos..], r);
        ReadingHas(core, pos, done, r);
        ReadingNext(core, pos, done, r);
    }
  }

  /** The record at `pos`, if the diff is well formed there and the record lies in `lo..hi`. */
  lemma RecordOrNot(diff: seq<Byte>, n: nat, pos: nat, done: seq<ByteRecord>, lo: nat, hi: nat)
    requires n <= |diff| && Reading(diff[..n], pos, done) && pos < n
    ensures pos + 8 > |diff| ==> !Applicable(diff[..n], lo, hi)
    ensures pos + 8 <= |diff| ==>
      var start, end := U32(diff[pos..]), U32(diff[pos + 4..]);
      if start < end && pos + 8 + 4 * (end - start) <= n && lo <= 4 * start && 4 * end <= hi then
        Reading(diff[..n], pos + 8 + 4 * (end - start),
                done + [Record(4 * start, diff[pos + 8..pos + 8 + 4 * (end - start)])])
      else !Applicable(diff[..n], lo, hi)
  {
    hide *;
    StepOrNot(diff[..n], pos, done, lo, hi);
    if pos + 8 <= |diff| {
      WordsAt(diff, n, pos);
    }
  }

  // ---- A range test that is too lenient by a few bytes ----

  /**
   * The first `m` bytes of the diff are well formed and in range; `m` exceeds the records' part `n`
   * by at most `slack`.
   */
  ghost predicate Accepts(diff: seq<Byte>, n: nat, slack: nat, lo: nat, hi: nat, m: nat) {
    n <= m <= n + slack && m <= |diff| && Applicable(diff[..m], lo, hi)
  }

  ghost predicate Acceptable(diff: seq<Byte>, n: nat, slack: nat, lo: nat, hi: nat) {
    exists m: nat :: Accepts(diff, n, slack, lo, hi, m)
  }

  /** The bytes before `pos` are the records `done`, all in range. */
  ghost predicate ReadUpTo(diff: seq<Byte>, pos: nat, done: seq<ByteRecord>, lo: nat, hi: nat) {
    pos <= |diff| && AllEncodable(done) && Encode(done) == diff[..pos] && RecordsWithin(done, lo, hi)
  }

  lemma ReadUpToStart(diff: seq<Byte>, lo: nat, hi: nat)
    ensures ReadUpTo(diff, 0, [], lo, hi)
  {
  }

  lemma ReadUpToReading(diff: seq<Byte>, pos: nat, done: seq<ByteRecord>, lo: nat, hi: nat, m: nat)
    requires ReadUpTo(diff, pos, done, lo, hi) && pos <= m <= |diff|
    ensures Reading(diff[..m], pos, done)
  {
    hide Decode, AllEncodable, Encode, RecordsWithin;
    EncodedWords(done);
    DecodeAfter(done, diff[..m][pos..]);
    assert diff[..m] == diff[..pos] + diff[..m][pos..];
  }

  lemma ReadUpToNext(diff: seq<Byte>, pos: nat, done: seq<ByteRecord>, lo: nat, hi: nat)
    requires ReadUpTo(diff, pos, done, lo, hi) && pos + 8 <= |diff|
    requires var start, end := U32(diff[pos..]), U32(diff[pos + 4..]);
      start < end && pos + 8 + 4 * (end - start) <= |diff| && lo <= 4 * start && 4 * end <= hi
    ensures var start, len := U32(diff[pos..]), 4 * (U32(diff[pos + 4..]) - U32(diff[pos..]));
      ReadUpTo(diff, pos + 8 + len, done + [Record(4 * start, diff[pos + 8..pos + 8 + len])], lo, hi)
  {
    hide U32, AllEncodable, Encode, Encodable, EncodeOne;
    var start, len := U32(diff[pos..]), 4 * (U32(diff[pos + 4..]) - U32(diff[pos..]));
    var rec := Record(4 * start, diff[pos + 8..pos + 8 + len]);
    FirstIs(diff, pos);
    FirstRecordWriteBack(diff[pos..]);
    EncodeLast(done, rec);
    assert diff[..pos + 8 + len] == diff[..pos] + diff[pos..][..8 + len];
  }

  lemma FirstIs(diff: seq<Byte>, pos: nat)
    requires pos + 8 <= |diff|
    requires var start, end := U32(diff[pos..]), U32(diff[pos + 4..]);
      start < end && pos + 8 + 4 * (end - start) <= |diff|
    ensures var start, len := U32(diff[pos..]), 4 * (U32(diff[pos + 4..]) - U32(diff[pos..]));
      FirstRecord(diff[pos..]) == Some(Record(4 * start, diff[pos + 8..pos + 8 + len]))
  {
    WordsAt(diff, |diff|, pos);
    assert diff[..|diff|] == diff;
  }

  /** What the bytes at `pos` must be for the diff to be acceptable at all. */
  lemma MustHold(diff: seq<Byte>, n: nat, slack: nat, lo: nat, hi: nat, pos: nat, done: seq<ByteRecord>)
    requires ReadUpTo(diff, pos, done, lo, hi) && pos < n && Acceptable(diff, n, slack, lo, hi)
    ensures pos + 8 <= |diff|
    ensures var start, end := U32(diff[pos..]), U32(diff[pos + 4..]);
      start < end && pos + 8 + 4 * (end - start) <= Min(n + slack, |diff|) && lo <= 4 * start && 4 * end <= hi
  {
    hide ReadUpTo, Applicable, U32, Reading;
    var m: nat :| Accepts(diff, n, slack, lo, hi, m);
    ReadUpToReading(diff, pos, done, lo, hi, m);
    RecordOrNot(diff, m, pos, done, lo, hi);
  }

  /** There is a record at `pos` that the range test lets through and that lies in `lo..hi`. */
  ghost predicate Fits(diff: seq<Byte>, n: nat, slack: nat, lo: nat, hi: nat, pos: nat) {
    && pos + 8 <= |diff|
    && var start, end := U32(diff[pos..]), U32(diff[pos + 4..]);
       start < end && pos + 8 + 4 * (end - start) <= Min(n + slack, |diff|) && lo <= 4 * start && 4 * end <= hi
  }

  /** A replay that is not completed has stored the records `done` before `pos`, and what is there does not fit. */
  ghost predicate BreaksOff(diff: seq<Byte>, n: nat, slack: nat, lo: nat, hi: nat, pos: nat, done: seq<ByteRecord>) {
    ReadUpTo(diff, pos, done, lo, hi) && (pos >= n || !Fits(diff, n, slack, lo, hi, pos))
  }

  /**
   * The header at `pos` is there and fails the range test, which counts `head` of its bytes and
   * allows `words` words.
   */
  ghost predicate Refused(diff: seq<Byte>, n: nat, head: nat, words: nat, pos: nat) {
    && pos < n && pos + 8 <= |diff|
    && var start, end := U32(diff[pos..]), U32(diff[pos + 4..]);
       end <= start || end > words || pos + head + 4 * (end - start) > n
  }

  /**
   * A replay onto one target that broke off: with an error if the range test failed, else by an
   * access out of range.
   */
  ghost predicate BrokenOff(s: seq<Byte>, s0: seq<Byte>, base: nat, diff: seq<Byte>, n: nat, slack: nat,
                            lo: nat, hi: nat, words: nat, r: Outcome)
    requires slack <= 8
  {
    exists pos: nat, done :: BreaksOff(diff, n, slack, lo, hi, pos, done) && s == Override(s0, base, Effect(done)) &&
      r == if Refused(diff, n, 8 - slack, words, pos) then Err else Panic
  }

  /** A replay onto two targets that broke off, at the same record. */
  ghost predicate BothBrokenOff(s: seq<Byte>, s0: seq<Byte>, base: nat, t: seq<Byte>, t0: seq<Byte>, tBase: nat,
                                diff: seq<Byte>, n: nat, slack: nat, lo: nat, hi: nat, words: nat, r: Outcome)
    requires slack <= 8
  {
    exists pos: nat, done :: BreaksOff(diff, n, slack, lo, hi, pos, done) && s == Override(s0, base, Effect(done)) &&
      t == Override(t0, tBase, Effect(done)) &&
      r == if Refused(diff, n, 8 - slack, words, pos) then Err else Panic
  }

  lemma BothBreak(s: seq<Byte>, s0: seq<Byte>, base: nat, t: seq<Byte>, t0: seq<Byte>, tBase: nat, diff: seq<Byte>,
                  n: nat, slack: nat, lo: nat, hi: nat, words: nat, r: Outcome, pos: nat, done: seq<ByteRecord>)
    requires ReadUpTo(diff, pos, done, lo, hi) && (pos < n ==> !Fits(diff, n, slack, lo, hi, pos)) && slack <= 8
    requires r == if Refused(diff, n, 8 - slack, words, pos) then Err else Panic
    requires s == Override(s0, base, Effect(done)) && t == Override(t0, tBase, Effect(done))
    ensures BothBrokenOff(s, s0, base, t, t0, tBase, diff, n, slack, lo, hi, words, r)
    ensures BrokenOff(s, s0, base, diff, n, slack, lo, hi, words, r)
  {
    hide ReadUpTo, Fits, Override, Effect, Refused;
    assert BreaksOff(diff, n, slack, lo, hi, pos, done);
  }

  /** The loop stops where the accepted bytes end. */
  lemma StopsThere(diff: seq<Byte>, n: nat, slack: nat, lo: nat, hi: nat, pos: nat, done: seq<ByteRecord>, m: nat)
    requires ReadUpTo(diff, pos, done, lo, hi) && n <= pos <= n + slack && slack <= 8
    ensures pos <= |diff| && Accepts(diff, n, slack, lo, hi, pos) && Decode(diff[..pos]) == Some(done)
    ensures Accepts(diff, n, slack, lo, hi, m) ==> m == pos
  {
    hide RecordsWithin, AllEncodable, Encode, Decode;
    DecodeEncode(done);
    if Accepts(diff, n, slack, lo, hi, m) {
      if pos <= m {
        ReadUpToReading(diff, pos, done, lo, hi, m);
        FewLeft(diff[..m][pos..]);
      } else {
        TooShort(diff, m, pos, done, lo, hi);
      }
    }
  }

  lemma AcceptableAt(diff: seq<Byte>, n: nat, slack: nat, lo: nat, hi: nat, m: nat)
    requires Accepts(diff, n, slack, lo, hi, m)
    ensures Acceptable(diff, n, slack, lo, hi)
  {
  }

  /** A diff cannot be cut short by a few bytes and still decode. */
  lemma TooShort(diff: seq<Byte>, m: nat, pos: nat, done: seq<ByteRecord>, lo: nat, hi: nat)
    requires ReadUpTo(diff, pos, done, lo, hi) && m <= pos <= m + 8 && Decode(diff[..m]).Some?
    ensures m == pos
  {
    hide AllEncodable, Encode, RecordsWithin, Decode;
    var rs := Decode(diff[..m]).value;
    EncodeDecode(diff[..m]);
    DecodeAfter(rs, diff[m..pos]);
    assert diff[..pos] == diff[..m] + diff[m..pos];
    DecodeEncode(done);
    FewLeft(diff[m..pos]);
  }

  /**
   * Replay onto a mirror slice that starts at `mirStart`; the trailing bytes go to
   * its end. The range test lets the last record run up to eight bytes on into
   * the trailing bytes: these diffs, and no others, are accepted as well.
   */
  method ApplyDiffOne(diff: seq<Byte>, ntrailing: nat, mirStart: nat, mirror: array<Byte>) returns (r: Outcome)
    requires Shaped(diff, ntrailing)
    modifies mirror
    ensures r.Ok? <==>
      ntrailing <= mirror.Length && Acceptable(diff, |diff| - ntrailing, 8, mirStart, mirStart + mirror.Length)
    ensures forall m: nat :: r.Ok? && Accepts(diff, |diff| - ntrailing, 8, mirStart, mirStart + mirror.Length, m) ==>
      mirror[..] == Override(old(mirror[..]), mirStart,
        FullEffect(Decode(diff[..m]).value, TailOf(diff, ntrailing), mirStart + mirror.Length))
    ensures !r.Ok? ==> BrokenOff(mirror[..], old(mirror[..]), mirStart, diff, |diff| - ntrailing, 8, mirStart,
                                 mirStart + mirror.Length, mirStart + mirror.Length, r)
  {
    hide Decode, U32, Effect, Writes, Override, Patched, Accepts, Acceptable, ReadUpTo, FullEffect, BrokenOff,
      BothBrokenOff;
    var mlen, n := mirror.Length, |diff| - ntrailing;
    ghost var m0, lo, hi := mirror[..], mirStart, mirStart + mlen;
    ghost var done: seq<ByteRecord> := [];
    var bufEnd := mirStart + mlen;
    var pos := 0;
    ReadUpToStart(diff, lo, hi);
    ReplayNothing(m0, mirStart);
    while pos < n
      invariant pos <= n + 8 && ReadUpTo(diff, pos, done, lo, hi) && mirror[..] == Override(m0, mirStart, Effect(done))
      decreases n - pos
    {
      ghost var good := Acceptable(diff, n, 8, lo, hi);
      if good { MustHold(diff, n, 8, lo, hi, pos, done); }
      if pos + 8 > |diff| {
        BothBreak(mirror[..], m0, mirStart, mirror[..], m0, mirStart, diff, n, 8, lo, hi, bufEnd, Panic, pos, done);
        return Panic;
      }
      var start, end := U32(diff[pos..]), U32(diff[pos + 4..]);
      if end <= start || end > bufEnd || pos + 4 * (end - start) > n {
        BothBreak(mirror[..], m0, mirStart, mirror[..], m0, mirStart, diff, n, 8, lo, hi, bufEnd, Err, pos, done);
        return Err;
      }
      pos := pos + 8;
      var len := 4 * (end - start);
      if 4 * start < mirStart || 4 * end - mirStart > mlen || pos + len > |diff| {
        BothBreak(mirror[..], m0, mirStart, mirror[..], m0, mirStart, diff, n, 8, lo, hi, bufEnd, Panic, pos - 8, done);
        return Panic;
      }
      ReadUpToNext(diff, pos - 8, done, lo, hi);
      ghost var m, rec := mirror[..], Record(4 * start, diff[pos..pos + len]);
      CopyInto(mirror, 4 * start - mirStart, diff[pos..pos + len]);
      ReplayMore(m0, m, mirStart, done, rec);
      done := done + [rec];
      pos := pos + len;
    }
    StopsThere(diff, n, 8, lo, hi, pos, done, pos);
    AcceptableAt(diff, n, 8, lo, hi, pos);
    forall m: nat | Accepts(diff, n, 8, lo, hi, m) ensures m == pos {
      StopsThere(diff, n, 8, lo, hi, pos, done, m);
    }
    if ntrailing > 0 {
      if ntrailing > mlen {
        BothBreak(mirror[..], m0, mirStart, mirror[..], m0, mirStart, diff, n, 8, lo, hi, bufEnd, Panic, pos, done);
        return Panic;
      }
      ghost var m := mirror[..];
      CopyInto(mirror, mlen - ntrailing, diff[n..n + ntrailing]);
      assert diff[n..n + ntrailing] == TailOf(diff, ntrailing);
      TailReplay(m0, m, mirStart, done, TailOf(diff, ntrailing), mirStart + mlen);
    } else {
      NoTailReplay(m0, mirror[..], mirStart, done, TailOf(diff, ntrailing), mirStart + mlen);
    }
    return Ok;
  }

  /** Well-formed diffs are accepted; without trailing bytes nothing else is. */
  lemma AcceptsWellFormed(diff: seq<Byte>, n: nat, slack: nat, lo: nat, hi: nat)
    requires n <= |diff|
    ensures Applicable(diff[..n], lo, hi) <==> Accepts(diff, n, slack, lo, hi, n)
    ensures Applicable(diff[..n], lo, hi) ==> Acceptable(diff, n, slack, lo, hi)
    ensures n == |diff| && Acceptable(diff, n, slack, lo, hi) ==> Applicable(diff[..n], lo, hi)
  {
  }

  /** A diff of one record that stores four bytes at the start of the buffer. */
  function OneRecordDiff(): (d: seq<Byte>)
    ensures |d| == 12
  {
    LE32(0) + LE32(1) + [1, 2, 3, 4]
  }

  lemma OneRecordDecodes()
    ensures Decode(OneRecordDiff()) == Some([Record(0, [1, 2, 3, 4])])
  {
    var r: ByteRecord := Record(0, [1, 2, 3, 4]);
    assert Encodable(r) && EncodeOne(r) == OneRecordDiff() && [r][..0] == [];
    assert Encode([r]) == OneRecordDiff();
    DecodeEncode([r]);
  }

  /** A record that overruns its part by up to eight bytes is accepted, given as much slack. */
  lemma OverrunAccepted(ntrailing: nat)
    requires ntrailing == 4 || ntrailing == 8
    ensures var diff := OneRecordDiff();
      && Shaped(diff, ntrailing) && Accepts(diff, |diff| - ntrailing, ntrailing, 0, ntrailing, 12)
      && !Applicable(Core(diff, ntrailing), 0, ntrailing)
  {
    var diff := OneRecordDiff();
    OneRecordDecodes();
    hide OneRecordDiff;
    assert diff[..12] == diff;
    if Decode(Core(diff, ntrailing)).Some? { FewLeft(Core(diff, ntrailing)); }
  }

  lemma ReadingDone(core: seq<Byte>, pos: nat, done: seq<ByteRecord>)
    requires Reading(core, pos, done) && pos >= |core|
    ensures Decode(core) == Some(done)
  {
    ReadingEnd(core, done);
  }

  lemma ReplayNothing(m: seq<Byte>, base: nat)
    ensures m == Override(m, base, Effect([]))
  {
  }

  /** Where a diff may write: the mirror slice and the whole words of the file. */
  function Limit(mirStart: nat, mirLen: nat, fileLen: nat): nat {
    Min(mirStart + mirLen, RoundDown(fileLen, 4))
  }

  predicate TailFits(ntrailing: nat, mirStart: nat, mirLen: nat, fileLen: nat) {
    ntrailing == 0 || (ntrailing <= fileLen && mirStart <= fileLen - ntrailing && fileLen <= mirStart + mirLen)
  }

  /** Put the trailing bytes at the end of the file and at the same place in the mirror slice. */
  method StoreTail(tail: seq<Byte>, file: array<Byte>, mirStart: nat, mirror: array<Byte>, ghost f0: seq<Byte>,
                   ghost m0: seq<Byte>, ghost done: seq<ByteRecord>) returns (r: Outcome)
    requires file != mirror && |f0| == file.Length && |m0| == mirror.Length
    requires file[..] == Override(f0, 0, Effect(done)) && mirror[..] == Override(m0, mirStart, Effect(done))
    modifies file, mirror
    ensures r == if TailFits(|tail|, mirStart, mirror.Length, file.Length) then Ok else Panic
    ensures r.Ok? ==> |tail| <= file.Length
    ensures r.Ok? ==> file[..] == Override(f0, 0, FullEffect(done, tail, file.Length))
    ensures r.Ok? ==> mirror[..] == Override(m0, mirStart, FullEffect(done, tail, file.Length))
    ensures !r.Ok? ==> file[..] == old(file[..]) && mirror[..] == old(mirror[..])
  {
    hide Effect, Override, Patched, FullEffect;
    if |tail| > 0 {
      if |tail| > file.Length || file.Length - |tail| < mirStart || file.Length - mirStart > mirror.Length {
        return Panic;
      }
      ghost var m, f := mirror[..], file[..];
      CopyInto(file, file.Length - |tail|, tail);
      CopyInto(mirror, file.Length - |tail| - mirStart, tail);
      TailReplay(f0, f, 0, done, tail, file.Length);
      TailReplay(m0, m, mirStart, done, tail, file.Length);
    } else {
      NoTailReplay(f0, file[..], 0, done, tail, file.Length);
      NoTailReplay(m0, mirror[..], mirStart, done, tail, file.Length);
    }
    return Ok;
  }

  /**
   * Replay onto the mapped file and onto the mirror slice that starts at
   * `mirStart`. Succeeds exactly when the diff is well formed and in range.
   */
  method ApplyDiff(diff: seq<Byte>, ntrailing: nat, file: array<Byte>, mirStart: nat, mirror: array<Byte>)
    returns (r: Outcome)
    requires Shaped(diff, ntrailing) && file != mirror
    modifies file, mirror
    ensures r.Ok? <==> Applicable(Core(diff, ntrailing), mirStart, Limit(mirStart, mirror.Length, file.Length))
                       && TailFits(ntrailing, mirStart, mirror.Length, file.Length)
    ensures r.Ok? ==> ntrailing <= file.Length
    ensures r.Ok? ==>
      var e := FullEffect(Decode(Core(diff, ntrailing)).value, TailOf(diff, ntrailing), file.Length);
      file[..] == Override(old(file[..]), 0, e) && mirror[..] == Override(old(mirror[..]), mirStart, e)
    ensures !r.Ok? ==> BothBrokenOff(file[..], old(file[..]), 0, mirror[..], old(mirror[..]), mirStart, diff,
                                     |diff| - ntrailing, 0, mirStart, Limit(mirStart, mirror.Length, file.Length),
                                     file.Length / 4, r)
  {
    hide Decode, U32, Effect, Writes, Override, Patched, Applicable, FullEffect, Limit, ReadUpTo, Accepts, Acceptable,
      BothBrokenOff, BrokenOff;
    var mlen, n := mirror.Length, |diff| - ntrailing;
    ghost var m0, f0 := mirror[..], file[..];
    ghost var hi := Limit(mirStart, mlen, file.Length);
    ghost var done: seq<ByteRecord> := [];
    var bufEnd := file.Length / 4;
    var pos := 0;
    ReplayNothing(m0, mirStart);
    ReplayNothing(f0, 0);
    NoSlack(diff, n, mirStart, hi);
    ReadUpToStart(diff, mirStart, hi);
    while pos < n
      invariant pos <= n && ReadUpTo(diff, pos, done, mirStart, hi)
      invariant mirror[..] == Override(m0, mirStart, Effect(done))
      invariant file[..] == Override(f0, 0, Effect(done))
      decreases n - pos
    {
      ghost var good := Acceptable(diff, n, 0, mirStart, hi);
      if good { MustHold(diff, n, 0, mirStart, hi, pos, done); }
      LimitIs(mirStart, mlen, file.Length);
      if pos + 8 > |diff| {
        BothBreak(file[..], f0, 0, mirror[..], m0, mirStart, diff, n, 0, mirStart, hi, bufEnd, Panic, pos, done);
        return Panic;
      }
      var start, end := U32(diff[pos..]), U32(diff[pos + 4..]);
      if end <= start || end > bufEnd || pos + 8 + 4 * (end - start) > n {
        BothBreak(file[..], f0, 0, mirror[..], m0, mirStart, diff, n, 0, mirStart, hi, bufEnd, Err, pos, done);
        return Err;
      }
      pos := pos + 8;
      var len := 4 * (end - start);
      if 4 * start < mirStart || 4 * end - mirStart > mlen {
        BothBreak(file[..], f0, 0, mirror[..], m0, mirStart, diff, n, 0, mirStart, hi, bufEnd, Panic, pos - 8, done);
        return Panic;
      }
      ReadUpToNext(diff, pos - 8, done, mirStart, hi);
      ghost var m, f, rec := mirror[..], file[..], Record(4 * start, diff[pos..pos + len]);
      CopyInto(mirror, 4 * start - mirStart, diff[pos..pos + len]);
      CopyInto(file, 4 * start, diff[pos..pos + len]);
      ReplayMore(m0, m, mirStart, done, rec);
      ReplayMore(f0, f, 0, done, rec);
      done := done + [rec];
      pos := pos + len;
    }
    StopsThere(diff, n, 0, mirStart, hi, pos, done, pos);
    AcceptableAt(diff, n, 0, mirStart, hi, pos);
    assert diff[n..] == TailOf(diff, ntrailing);
    r := StoreTail(diff[n..], file, mirStart, mirror, f0, m0, done);
    if !r.Ok? {
      BothBreak(file[..], f0, 0, mirror[..], m0, mirStart, diff, n, 0, mirStart, hi, bufEnd, Panic, pos, done);
    }
  }

  lemma NoSlack(diff: seq<Byte>, n: nat, lo: nat, hi: nat)
    requires n <= |diff|
    ensures Acceptable(diff, n, 0, lo, hi) <==> Applicable(diff[..n], lo, hi)
  {
    AcceptsWellFormed(diff, n, 0, lo, hi);
  }

  lemma LimitIs(mirStart: nat, mirLen: nat, fileLen: nat)
    ensures forall end: int :: 4 * end <= Limit(mirStart, mirLen, fileLen) <==>
      4 * end <= mirStart + mirLen && end <= fileLen / 4
  {
  }

  lemma TailReplay(m0: seq<Byte>, m: seq<Byte>, base: nat, done: seq<ByteRecord>, tail: seq<Byte>, end: nat)
    requires |m| == |m0| && m == Override(m0, base, Effect(done)) && |tail| <= end && base <= end - |tail| &&
      end <= base + |m|
    ensures Patched(m, end - |tail| - base, tail) == Override(m0, base, FullEffect(done, tail, end))
  {
    hide Effect, Override, Patched, Writes;
    ReplayMore(m0, m, base, done, Record(end - |tail|, tail));
    EffectMore(done, Record(end - |tail|, tail));
  }

  lemma NoTailReplay(m0: seq<Byte>, m: seq<Byte>, base: nat, done: seq<ByteRecord>, tail: seq<Byte>, end: nat)
    requires |m| == |m0| && m == Override(m0, base, Effect(done)) && tail == []
    ensures m == Override(m0, base, FullEffect(done, tail, end))
  {
    assert Writes(Record(end, tail)) == map[];
    assert Effect(done) + map[] == Effect(done);
  }

  // ---- The footprint of a diff ----

  datatype SpanResult = Span(span: Interval) | SpanErr | SpanPanic

  /** The tight span of what a diff writes: every byte in it, both ends reached. */
  ghost predicate IsSpan(s: Interval, rs: seq<ByteRecord>, ntrailing: nat, bufLen: nat) {
    && s.lo < s.hi <= bufLen
    && (forall i :: 0 <= i < |rs| ==> s.lo <= rs[i].at && rs[i].at + |rs[i].data| <= s.hi)
    && (ntrailing > 0 ==> s.lo <= bufLen - ntrailing && s.hi == bufLen)
    && (if rs == [] then s.lo == bufLen - ntrailing else exists i :: 0 <= i < |rs| && rs[i].at == s.lo)
    && (ntrailing == 0 ==> exists i :: 0 <= i < |rs| && rs[i].at + |rs[i].data| == s.hi)
  }

  /** Smallest start and largest end of the records so far, in words. */
  ghost predicate Extremes(rs: seq<ByteRecord>, start: nat, end: nat) {
    && (forall i :: 0 <= i < |rs| ==> 4 * start <= rs[i].at && rs[i].at + |rs[i].data| <= 4 * end)
    && (rs != [] ==> exists i :: 0 <= i < |rs| && rs[i].at == 4 * start)
    && (rs != [] ==> exists i :: 0 <= i < |rs| && rs[i].at + |rs[i].data| == 4 * end)
  }

  lemma ExtremesMore(rs: seq<ByteRecord>, start: nat, end: nat, s: nat, e: nat, r: ByteRecord, first: bool)
    requires (first && rs == []) || (!first && rs != [] && Extremes(rs, start, end))
    requires r.at == 4 * s && r.at + |r.data| == 4 * e
    ensures Extremes(rs + [r], if first then s else Min(start, s), if first then e else Max(end, e))
  {
    var rs' := rs + [r];
    assert rs'[|rs|] == r;
    assert forall i :: 0 <= i < |rs| ==> rs'[i] == rs[i];
    if !first {
      var i :| 0 <= i < |rs| && rs[i].at == 4 * start;
      var j :| 0 <= j < |rs| && rs[j].at + |rs[j].data| == 4 * end;
      assert rs'[i].at == 4 * start && rs'[j].at + |rs'[j].data| == 4 * end;
    }
  }

  /** The word ranges named from `pos` on, record by record; `None` if one is not all there or runs backwards. */
  ghost function Named(diff: seq<Byte>, n: nat, pos: nat): Option<seq<(nat, nat)>>
    decreases n - pos
  {
    if pos >= n then Some([])
    else if pos + 8 > |diff| || U32(diff[pos + 4..]) < U32(diff[pos..]) then None
    else
      var s, e := U32(diff[pos..]), U32(diff[pos + 4..]);
      match Named(diff, n, pos + 8 + 4 * (e - s))
      case None => None
      case Some(h) => Some([(s, e)] + h)
  }

  /** `lo` is the least start, or `most` if that is less; `hi` is the greatest end. */
  ghost predicate Reach(h: seq<(nat, nat)>, most: nat, lo: nat, hi: nat) {
    && lo <= most && (forall i :: 0 <= i < |h| ==> lo <= h[i].0 && h[i].1 <= hi)
    && (lo < most ==> exists i :: 0 <= i < |h| && h[i].0 == lo) && (hi > 0 ==> exists i :: 0 <= i < |h| && h[i].1 == hi)
  }

  /** From `pos` on, what is named comes after the ranges `seen`. */
  ghost predicate NamedSoFar(diff: seq<Byte>, n: nat, pos: nat, seen: seq<(nat, nat)>) {
    Named(diff, n, 0) == match Named(diff, n, pos) case None => None case Some(h) => Some(seen + h)
  }

  lemma NamedNext(diff: seq<Byte>, n: nat, pos: nat, seen: seq<(nat, nat)>)
    requires NamedSoFar(diff, n, pos, seen) && pos < n
    ensures pos + 8 > |diff| ==> Named(diff, n, 0).None?
    ensures pos + 8 <= |diff| ==>
      var s, e := U32(diff[pos..]), U32(diff[pos + 4..]);
      if e < s then Named(diff, n, 0).None? else NamedSoFar(diff, n, pos + 8 + 4 * (e - s), seen + [(s, e)])
  {
    hide U32;
    if pos + 8 <= |diff| && U32(diff[pos..]) <= U32(diff[pos + 4..]) {
      var s, e := U32(diff[pos..]), U32(diff[pos + 4..]);
      match Named(diff, n, pos + 8 + 4 * (e - s)) {
        case None =>
        case Some(h) => assert seen + ([(s, e)] + h) == seen + [(s, e)] + h;
      }
    }
  }

  lemma NamedEnd(diff: seq<Byte>, n: nat, pos: nat, seen: seq<(nat, nat)>)
    requires NamedSoFar(diff, n, pos, seen) && pos >= n
    ensures Named(diff, n, 0) == Some(seen)
  {
    assert seen + [] == seen;
  }

  lemma NamedStart(diff: seq<Byte>, n: nat)
    ensures NamedSoFar(diff, n, 0, [])
  {
    if Named(diff, n, 0).Some? { assert [] + Named(diff, n, 0).value == Named(diff, n, 0).value; }
  }

  lemma ReachMore(h: seq<(nat, nat)>, most: nat, lo: nat, hi: nat, s: nat, e: nat)
    requires Reach(h, most, lo, hi)
    ensures Reach(h + [(s, e)], most, Min(lo, s), Max(hi, e))
  {
    var h' := h + [(s, e)];
    assert h'[|h|] == (s, e);
    if Min(lo, s) < most && lo < s { var i :| 0 <= i < |h| && h[i].0 == lo; assert h'[i].0 == lo; }
    if Max(hi, e) > 0 && hi > e { var i :| 0 <= i < |h| && h[i].1 == hi; assert h'[i].1 == hi; }
  }

  /**
   * The interval in which a diff updates a buffer of `bufLen` bytes. For a diff that is not well formed it is
   * computed from the ranges its headers name, as far as these can be read.
   */
  method ComputeDiffSpan(diff: seq<Byte>, ntrailing: nat, bufLen: nat) returns (r: SpanResult)
    requires Shaped(diff, ntrailing)
    ensures ntrailing <= bufLen && Applicable(Core(diff, ntrailing), 0, bufLen - ntrailing) ==>
      if |diff| == 0 then r.SpanErr?
        else r.Span? && IsSpan(r.span, Decode(Core(diff, ntrailing)).value, ntrailing, bufLen)
    ensures |diff| == ntrailing ==>
      r == (if ntrailing == 0 then SpanErr
            else if ntrailing > bufLen then SpanPanic else Span(Interval(bufLen - ntrailing, bufLen)))
    ensures |diff| > ntrailing && Named(diff, |diff| - ntrailing, 0).None? ==> r == SpanPanic
    ensures |diff| > ntrailing && Named(diff, |diff| - ntrailing, 0).Some? ==>
      forall lo: nat, hi: nat :: Reach(Named(diff, |diff| - ntrailing, 0).value, bufLen, lo, hi) ==>
        r == if lo >= hi then SpanPanic else Span(Interval(4 * lo, if ntrailing > 0 then bufLen else 4 * hi))
  {
    hide Decode, U32, Reading, Applicable, Extremes, Named, NamedSoFar, Reach, IsSpan;
    var start, end := bufLen, 0;
    var n := |diff| - ntrailing;
    ghost var core, done: seq<ByteRecord> := diff[..n], [];
    ghost var good := ntrailing <= bufLen && Applicable(core, 0, bufLen - ntrailing);
    if n == 0 {
      if ntrailing == 0 {
        return SpanErr;
      } else if ntrailing > bufLen {
        return SpanPanic;
      } else {
        NothingSpans(core, ntrailing, bufLen);
        return Span(Interval(bufLen - ntrailing, bufLen));
      }
    }
    var pos := 0;
    ghost var seen: seq<(nat, nat)> := [];
    ReadingStart(core);
    NamedStart(diff, n);
    ReachNothing(bufLen);
    while pos < n
      invariant start >= 0 && end >= 0 && (pos == 0 <==> done == [])
      invariant done == [] ==> start == bufLen && end == 0
      invariant good ==> Reading(core, pos, done) && RecordsWithin(done, 0, bufLen - ntrailing)
      invariant good && done != [] ==> Extremes(done, start, end) && |done[0].data| > 0
      invariant NamedSoFar(diff, n, pos, seen) && Reach(seen, bufLen, start, end)
      decreases n - pos
    {
      if good { RecordOrNot(diff, n, pos, done, 0, bufLen - ntrailing); }
      NamedNext(diff, n, pos, seen);
      if pos + 8 > |diff| {
        return SpanPanic;
      }
      var s, e := U32(diff[pos..]), U32(diff[pos + 4..]);
      if e < s {
        return SpanPanic;
      }
      ReachMore(seen, bufLen, start, end, s, e);
      ghost var rec := Record(4 * s, if good then diff[pos + 8..pos + 8 + 4 * (e - s)] else []);
      if good { ExtremesMore(done, start, end, s, e, rec, done == []); }
      pos := pos + 8;
      pos := pos + (e - s) * 4;
      start := Min(start, s);
      end := Max(end, e);
      done, seen := done + [rec], seen + [(s, e)];
    }
    NamedEnd(diff, n, pos, seen);
    OneReach(seen, bufLen, start, end);
    if good {
      ReadingDone(core, pos, done);
      SpanFits(done, start, end, bufLen, ntrailing);
    }
    if start >= end {
      return SpanPanic;
    }
    if ntrailing > 0 {
      return Span(Interval(start * 4, bufLen));
    } else {
      return Span(Interval(start * 4, end * 4));
    }
  }

  lemma ReachNothing(most: nat)
    ensures Reach([], most, most, 0)
  {
  }

  /** There is only one such pair of ends. */
  lemma OneReach(h: seq<(nat, nat)>, most: nat, lo: nat, hi: nat)
    requires Reach(h, most, lo, hi)
    ensures forall lo': nat, hi': nat :: Reach(h, most, lo', hi') ==> lo' == lo && hi' == hi
  {
  }

  lemma NothingSpans(core: seq<Byte>, ntrailing: nat, bufLen: nat)
    requires core == [] && 0 < ntrailing <= bufLen
    ensures Decode(core) == Some([]) && IsSpan(Interval(bufLen - ntrailing, bufLen), [], ntrailing, bufLen)
  {
    DecodeNothing();
  }

  lemma SpanFits(rs: seq<ByteRecord>, start: nat, end: nat, bufLen: nat, ntrailing: nat)
    requires ntrailing <= bufLen && rs != [] && RecordsWithin(rs, 0, bufLen - ntrailing) && Extremes(rs, start, end)
    requires exists i :: 0 <= i < |rs| && |rs[i].data| > 0
    ensures start < end && IsSpan(Interval(4 * start, if ntrailing > 0 then bufLen else 4 * end), rs, ntrailing, bufLen)
  {
    var s := Interval(4 * start, if ntrailing > 0 then bufLen else 4 * end);
    var i :| 0 <= i < |rs| && rs[i].at == 4 * start;
    var j :| 0 <= j < |rs| && rs[j].at + |rs[j].data| == 4 * end;
    assert rs[i].at == s.lo;
    assert ntrailing == 0 ==> rs[j].at + |rs[j].data| == s.hi;
  }

  lemma {:induction false} EffectWithin(rs: seq<ByteRecord>, lo: nat, hi: nat)
    requires RecordsWithin(rs, lo, hi)
    ensures Within(Effect(rs), lo, hi)
    decreases |rs|
  {
    if rs != [] { EffectWithin(rs[..|rs| - 1], lo, hi); }
  }

  /**
   * Everything a diff writes lies in its span, so replaying it on that slice of
   * the mirror is replaying it on the whole mirror, and the replay is in range.
   */
  lemma FootprintSound(s: Interval, rs: seq<ByteRecord>, tail: seq<Byte>, mem: seq<Byte>)
    requires |tail| <= |mem| && IsSpan(s, rs, |tail|, |mem|)
    ensures Within(FullEffect(rs, tail, |mem|), s.lo, s.hi)
    ensures Override(mem, 0, FullEffect(rs, tail, |mem|)) ==
      mem[..s.lo] + Override(mem[s.lo..s.hi], s.lo, FullEffect(rs, tail, |mem|)) + mem[s.hi..]
    ensures RecordsWithin(rs, s.lo, s.hi) && |tail| <= s.hi - s.lo
    ensures FullEffect(rs, tail, s.hi) == FullEffect(rs, tail, |mem|)
  {
    EffectWithin(rs, s.lo, s.hi);
    TailWithin(s, rs, tail, |mem|);
    hide Effect, Writes, Override;
    WithinBoth(Effect(rs), Writes(Record(|mem| - |tail|, tail)), s.lo, s.hi);
    hide Within;
    OverrideSlice(mem, 0, FullEffect(rs, tail, |mem|), s.lo, s.hi);
  }

  lemma WithinBoth(m: map<nat, Byte>, n: map<nat, Byte>, lo: nat, hi: nat)
    requires Within(m, lo, hi) && Within(n, lo, hi)
    ensures Within(m + n, lo, hi)
  {
  }

  lemma TailWithin(s: Interval, rs: seq<ByteRecord>, tail: seq<Byte>, bufLen: nat)
    requires |tail| <= bufLen && IsSpan(s, rs, |tail|, bufLen)
    ensures |tail| <= s.hi && Within(Writes(Record(bufLen - |tail|, tail)), s.lo, s.hi)
    ensures Writes(Record(bufLen - |tail|, tail)) == Writes(Record(s.hi - |tail|, tail))
  {
    if tail == [] {
      assert Writes(Record(bufLen, tail)) == map[] == Writes(Record(s.hi, tail));
    }
  }

  lemma {:induction false} ExtremesExist(rs: seq<ByteRecord>) returns (start: nat, end: nat)
    requires rs != [] && AllEncodable(rs)
    ensures Extremes(rs, start, end)
    decreases |rs|
  {
    var init, r := rs[..|rs| - 1], rs[|rs| - 1];
    assert rs == init + [r] && Encodable(r);
    var s, e := r.at / 4, (r.at + |r.data|) / 4;
    if init == [] {
      ExtremesMore(init, 0, 0, s, e, r, true);
      start, end := s, e;
    } else {
      start, end := ExtremesExist(init);
      ExtremesMore(init, start, end, s, e, r, false);
      start, end := Min(start, s), Max(end, e);
    }
  }

  /** A diff that stores anything has a span. */
  lemma SpanExists(rs: seq<ByteRecord>, ntrailing: nat, bufLen: nat) returns (s: Interval)
    requires AllEncodable(rs) && ntrailing <= bufLen && RecordsWithin(rs, 0, bufLen - ntrailing) &&
      (rs != [] || ntrailing > 0)
    ensures IsSpan(s, rs, ntrailing, bufLen)
  {
    if rs == [] {
      s := Interval(bufLen - ntrailing, bufLen);
    } else {
      var start, end := ExtremesExist(rs);
      assert Encodable(rs[0]);
      SpanFits(rs, start, end, bufLen, ntrailing);
      s := Interval(4 * start, if ntrailing > 0 then bufLen else 4 * end);
    }
  }
}

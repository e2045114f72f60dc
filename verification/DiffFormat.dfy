/** The byte format of a diff: records `[start, end, data...]`, start and end counted in 32-bit words. */
module DiffFormat {
  import opened Bytes
  import opened Replay

  type ByteRecord = Record<Byte>

  /** Records that the format can express. */
  predicate Encodable(r: ByteRecord) {
    r.at % 4 == 0 && |r.data| % 4 == 0 && |r.data| > 0 && (r.at + |r.data|) / 4 < U32_LIMIT
  }

  predicate AllEncodable(rs: seq<ByteRecord>) {
    forall i :: 0 <= i < |rs| ==> Encodable(rs[i])
  }

  function Header(r: ByteRecord): (s: seq<Byte>)
    requires Encodable(r)
    ensures |s| == 8
  {
    LE32(r.at / 4) + LE32((r.at + |r.data|) / 4)
  }

  function EncodeOne(r: ByteRecord): (s: seq<Byte>)
    requires Encodable(r)
    ensures |s| == 8 + |r.data|
  {
    Header(r) + r.data
  }

  function Encode(rs: seq<ByteRecord>): seq<Byte>
    requires AllEncodable(rs)
  {
    if rs == [] then [] else Encode(rs[..|rs| - 1]) + EncodeOne(rs[|rs| - 1])
  }

  /** The first record of a diff, when its header and data are all there. */
  function FirstRecord(d: seq<Byte>): Option<ByteRecord> {
    if |d| < 8 then None
    else
      var start, end := U32(d), U32(d[4..]);
      if end <= start || 8 + 4 * (end - start) > |d| then None
      else Some(Record(4 * start, d[8..8 + 4 * (end - start)]))
  }

  /** Split a diff into records; `None` when it is malformed. */
  function Decode(d: seq<Byte>): Option<seq<ByteRecord>>
    decreases |d|
  {
    if d == [] then Some([])
    else
      match FirstRecord(d)
      case None => None
      case Some(r) => Prepend([r], Decode(d[8 + |r.data|..]))
  }

  function Prepend(front: seq<ByteRecord>, rest: Option<seq<ByteRecord>>): Option<seq<ByteRecord>> {
    match rest
    case None => None
    case Some(rs) => Some(front + rs)
  }

  lemma HeaderSplit(a: seq<Byte>, b: seq<Byte>, data: seq<Byte>, tail: seq<Byte>)
    requires |a| == |b| == 4
    ensures var d := a + (b + data + tail);
      d[4..] == b + (data + tail) && d[8..8 + |data|] == data
  {
  }

  lemma FirstRecordRoundTrip(r: ByteRecord, tail: seq<Byte>)
    requires Encodable(r)
    ensures FirstRecord(EncodeOne(r) + tail) == Some(r)
  {
    var d := EncodeOne(r) + tail;
    var start, end := r.at / 4, (r.at + |r.data|) / 4;
    var a, b := LE32(start), LE32(end);
    ReadBack(start, b + r.data + tail);
    ReadBack(end, r.data + tail);
    hide LE32, U32;
    assert r.at == 4 * start && |r.data| == 4 * (end - start);
    assert d == a + (b + r.data + tail);
    HeaderSplit(a, b, r.data, tail);
  }

  lemma EncodeLast(rs: seq<ByteRecord>, r: ByteRecord)
    requires AllEncodable(rs) && Encodable(r)
    ensures AllEncodable(rs + [r]) && Encode(rs + [r]) == Encode(rs) + EncodeOne(r)
  {
    assert (rs + [r])[..|rs|] == rs;
    hide EncodeOne;
  }

  lemma {:induction false} EncodeConcat(a: seq<ByteRecord>, b: seq<ByteRecord>)
    requires AllEncodable(a) && AllEncodable(b)
    ensures AllEncodable(a + b)
    ensures Encode(a + b) == Encode(a) + Encode(b)
    decreases |b|
  {
    assert AllEncodable(a + b);
    if b == [] {
      assert a + b == a;
    } else {
      var init, last := b[..|b| - 1], b[|b| - 1];
      assert AllEncodable(init) && Encodable(last) && b == init + [last];
      hide *;
      EncodeConcat(a, init);
      EncodeLast(init, last);
      EncodeLast(a + init, last);
      Associate(a, init, [last]);
      Associate(Encode(a), Encode(init), EncodeOne(last));
    }
  }

  lemma EncodeCons(r: ByteRecord, rs: seq<ByteRecord>)
    requires Encodable(r) && AllEncodable(rs)
    ensures AllEncodable([r] + rs)
    ensures Encode([r] + rs) == EncodeOne(r) + Encode(rs)
  {
    EncodeConcat([r], rs);
    assert [r][..0] == [];
    hide EncodeOne, Encodable;
    assert Encode([r]) == EncodeOne(r);
  }

  /** Decoding an encoded list of records gives the list back. */
  lemma {:induction false} DecodeEncode(rs: seq<ByteRecord>)
    requires AllEncodable(rs)
    ensures Decode(Encode(rs)) == Some(rs)
    decreases |rs|
  {
    if rs != [] {
      var r, rest := rs[0], rs[1..];
      assert rs == [r] + rest;
      EncodeCons(r, rest);
      DecodeEncode(rest);
      FirstRecordRoundTrip(r, Encode(rest));
      assert Encode(rs)[8 + |r.data|..] == Encode(rest);
    }
  }

  lemma FirstRecordWriteBack(d: seq<Byte>)
    requires FirstRecord(d).Some?
    ensures var r := FirstRecord(d).value;
      Encodable(r) && 8 + |r.data| <= |d| && EncodeOne(r) == d[..8 + |r.data|]
  {
    var r := FirstRecord(d).value;
    var start, end := U32(d), U32(d[4..]);
    WriteBack(d);
    WriteBack(d[4..]);
    hide U32, LE32;
    Words(start);
    Words(end);
    Words(end - start);
    assert r.at == 4 * start && r.at + |r.data| == 4 * end;
    assert d[..8 + |r.data|] == d[..4] + d[4..][..4] + r.data;
  }

  lemma DecodeNothing()
    ensures Decode([]) == Some([]) && AllEncodable([]) && Encode([]) == []
  {
  }

  lemma DecodeStep(d: seq<Byte>)
    requires Decode(d).Some? && d != []
    ensures FirstRecord(d).Some?
    ensures var r := FirstRecord(d).value;
      && 8 + |r.data| <= |d| && Encodable(r) && EncodeOne(r) == d[..8 + |r.data|]
      && Decode(d[8 + |r.data|..]).Some?
      && Decode(d).value == [r] + Decode(d[8 + |r.data|..]).value
  {
    FirstRecordWriteBack(d);
  }

  /** A diff that decodes is the encoding of what it decodes to. */
  lemma {:induction false} EncodeDecode(d: seq<Byte>)
    requires Decode(d).Some?
    ensures AllEncodable(Decode(d).value)
    ensures Encode(Decode(d).value) == d
    decreases |d|
  {
    hide *;
    if d == [] {
      DecodeNothing();
    } else {
      DecodeStep(d);
      var r := FirstRecord(d).value;
      var rest := d[8 + |r.data|..];
      EncodeDecode(rest);
      EncodeCons(r, Decode(rest).value);
      assert d == d[..8 + |r.data|] + rest;
    }
  }

  lemma {:induction false} EncodedWords(rs: seq<ByteRecord>)
    requires AllEncodable(rs)
    ensures |Encode(rs)| % 4 == 0
    decreases |rs|
  {
    if rs != [] {
      var init, r := rs[..|rs| - 1], rs[|rs| - 1];
      EncodedWords(init);
      assert Encodable(r);
      hide EncodeOne, Encodable;
      Words(|Encode(init)| / 4 + 2 + |r.data| / 4);
      assert |Encode(rs)| == 4 * (|Encode(init)| / 4 + 2 + |r.data| / 4) by { assert |EncodeOne(r)| == 8 + |r.data|; }
    }
  }

  /** Decoding goes on after the records that are encoded first. */
  lemma {:induction false} DecodeAfter(rs: seq<ByteRecord>, d: seq<Byte>)
    requires AllEncodable(rs)
    ensures Decode(Encode(rs) + d) == Prepend(rs, Decode(d))
    decreases |rs|
  {
    hide *;
    if rs == [] {
      DecodeNothing();
      assert [] + d == d;
      PrependTwice([], [], Decode(d));
    } else {
      var r, rest := rs[0], rs[1..];
      EncodableParts(rs);
      EncodeCons(r, rest);
      DecodeAfter(rest, d);
      FirstRecordRoundTrip(r, Encode(rest) + d);
      DecodeOne(r, Encode(rest) + d);
      Associate(EncodeOne(r), Encode(rest), d);
      PrependTwice([r], rest, Decode(d));
    }
  }

  lemma EncodableParts(rs: seq<ByteRecord>)
    requires AllEncodable(rs) && rs != []
    ensures Encodable(rs[0]) && AllEncodable(rs[1..]) && rs == [rs[0]] + rs[1..]
  {
  }

  lemma PrependTwice(a: seq<ByteRecord>, b: seq<ByteRecord>, rest: Option<seq<ByteRecord>>)
    ensures Prepend(a, Prepend(b, rest)) == Prepend(a + b, rest)
    ensures Prepend([], rest) == rest
  {
    match rest {
      case None =>
      case Some(rs) => assert a + (b + rs) == a + b + rs && [] + rs == rs;
    }
  }

  /** A record takes at least twelve bytes. */
  lemma FewLeft(d: seq<Byte>)
    requires |d| < 12 && Decode(d).Some?
    ensures d == []
  {
  }

  lemma DecodeOne(r: ByteRecord, d: seq<Byte>)
    requires Encodable(r) && FirstRecord(EncodeOne(r) + d) == Some(r)
    ensures Decode(EncodeOne(r) + d) == Prepend([r], Decode(d))
  {
    assert (EncodeOne(r) + d)[8 + |r.data|..] == d;
  }

  /** Everything a diff message does: its records, then the bytes at the end of the buffer. */
  function FullEffect(rs: seq<ByteRecord>, tail: seq<Byte>, bufLen: nat): map<nat, Byte>
    requires |tail| <= bufLen
  {
    Effect(rs) + Writes(Record(bufLen - |tail|, tail))
  }
}

/** The message that carries a diff: sixteen header bytes, the records, the trailing bytes, padding. */
module DiffMessage {
  import opened Bytes
  import opened WireMsg

  datatype Body = Body(rid: nat, core: seq<Byte>, tail: seq<Byte>)

  predicate Sendable(b: Body) {
    b.rid < U32_LIMIT && 16 + |b.core| + |b.tail| < 0x800_0000
  }

  function Head(b: Body): (h: seq<Byte>)
    requires Sendable(b)
    ensures |h| == 16
  {
    LE32(BuildHeader(BUFFER_DIFF, 16 + |b.core| + |b.tail|)) + LE32(b.rid) + LE32(|b.core|) + LE32(|b.tail|)
  }

  function Build(b: Body): seq<Byte>
    requires Sendable(b)
  {
    var n := 16 + |b.core| + |b.tail|;
    Head(b) + b.core + b.tail + Zeros(Align4(n) - n)
  }

  /** Read a diff message (sent without compression). */
  function Parse(msg: seq<Byte>): Option<Body> {
    if |msg| < 16 then None
    else
      match ParseHeader(U32(msg))
      case None => None
      case Some((len, typ)) =>
        var diffSize, ntrailing := U32(msg[8..]), U32(msg[12..]);
        if typ != BUFFER_DIFF || len < 16 || len > |msg| || len - 16 != diffSize + ntrailing then None
        else Some(Body(U32(msg[4..]), msg[16..16 + diffSize], msg[16 + diffSize..len]))
  }

  lemma HeadWords(b: Body, tail: seq<Byte>)
    requires Sendable(b)
    ensures var m := Head(b) + tail;
      && U32(m) == BuildHeader(BUFFER_DIFF, 16 + |b.core| + |b.tail|)
      && U32(m[4..]) == b.rid && U32(m[8..]) == |b.core| && U32(m[12..]) == |b.tail|
  {
    var w0, w1, w2, w3 := BuildHeader(BUFFER_DIFF, 16 + |b.core| + |b.tail|), b.rid, |b.core|, |b.tail|;
    var m := Head(b) + tail;
    hide LE32, U32;
    assert m == LE32(w0) + (LE32(w1) + LE32(w2) + LE32(w3) + tail);
    assert m[4..] == LE32(w1) + (LE32(w2) + LE32(w3) + tail);
    assert m[8..] == LE32(w2) + (LE32(w3) + tail);
    assert m[12..] == LE32(w3) + tail;
    ReadBack(w0, LE32(w1) + LE32(w2) + LE32(w3) + tail);
    ReadBack(w1, LE32(w2) + LE32(w3) + tail);
    ReadBack(w2, LE32(w3) + tail);
    ReadBack(w3, tail);
  }

  /** A diff message is one frame of the stream and reads back as sent. */
  lemma ParseBuild(b: Body)
    requires Sendable(b)
    ensures Parse(Build(b)) == Some(b)
    ensures IsMessage(Build(b))
    ensures var m, n := Build(b), 16 + |b.core| + |b.tail|;
      && U32(m) == 32 * n + 6 && U32(m[4..]) == b.rid && U32(m[8..]) == |b.core| && U32(m[12..]) == |b.tail|
      && n <= |m| < n + 4 && m[16..n] == b.core + b.tail && m[n..] == Zeros(|m| - n)
  {
    var n := 16 + |b.core| + |b.tail|;
    var m := Build(b);
    var rest := b.core + b.tail + Zeros(Align4(n) - n);
    assert m == Head(b) + rest;
    HeadWords(b, rest);
    HeaderRoundTrip(BUFFER_DIFF, n);
    hide Head, U32;
    assert m[16..16 + |b.core|] == b.core;
    assert m[16 + |b.core|..n] == b.tail;
  }

  /** Whatever reads as a diff message is, up to its padding, what is sent for the parts read. */
  lemma BuildParse(msg: seq<Byte>)
    requires Parse(msg).Some?
    ensures var b := Parse(msg).value; Sendable(b) && var n := 16 + |b.core| + |b.tail|;
      n <= |msg| && Build(b)[..n] == msg[..n]
  {
    var b := Parse(msg).value;
    var n := 16 + |b.core| + |b.tail|;
    assert U32(msg) == 32 * n + 6;
    WriteBack(msg);
    WriteBack(msg[4..]);
    WriteBack(msg[8..]);
    WriteBack(msg[12..]);
    HeaderRoundTrip(BUFFER_DIFF, n);
    hide LE32, U32, Align4;
    assert Head(b) == msg[..16];
    hide Head;
    assert Build(b)[..n] == Head(b) + b.core + b.tail;
    assert msg[..n] == msg[..16] + msg[16..16 + |b.core|] + msg[16 + |b.core|..n];
  }
}

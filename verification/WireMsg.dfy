/** Messages between the two waypipe instances: header word, payload, padding to a multiple of four. */
module WireMsg {
  import opened Bytes

  const MSG_TYPES: nat := 24
  const BUFFER_DIFF: nat := 6

  /** Type in the low five bits, length above. */
  function BuildHeader(typ: nat, len: nat): (h: nat)
    requires typ < MSG_TYPES && len < 0x800_0000
    ensures h < U32_LIMIT
  {
    len * 32 + typ
  }

  /** Length (without padding) and type; `None` for an unknown type. */
  function ParseHeader(h: nat): Option<(nat, nat)> {
    if h % 32 < MSG_TYPES then Some((h / 32, h % 32)) else None
  }

  lemma HeaderRoundTrip(typ: nat, len: nat)
    requires typ < 24 && len < 0x800_0000
    ensures BuildHeader(typ, len) == 32 * len + typ
    ensures ParseHeader(BuildHeader(typ, len)) == Some((len, typ))
  {
  }

  function Align4(x: nat): (r: nat)
    ensures r % 4 == 0 && x <= r < x + 4
  {
    Align(x, 4)
  }

  /** The length of a message with its padding, from its first word; `None` when it cannot be one. */
  function PaddedLen(s: seq<Byte>): Option<nat>
    requires |s| >= 4
  {
    match ParseHeader(U32(s))
    case None => None
    case Some((len, typ)) => if len < 4 then None else Some(Align4(len))
  }

  /** Messages at the front of a stream, and what is left: an incomplete message or a bad header. */
  datatype Framing = Framing(msgs: seq<seq<Byte>>, rest: seq<Byte>)

  /** The first message of a stream when it is all there. */
  function FirstLen(s: seq<Byte>): Option<nat> {
    if |s| < 4 then None
    else
      match PaddedLen(s)
      case None => None
      case Some(n) => if n <= |s| then Some(n) else None
  }

  lemma FirstLenPositive(s: seq<Byte>)
    requires FirstLen(s).Some?
    ensures 4 <= FirstLen(s).value <= |s| && FirstLen(s).value % 4 == 0
  {
  }

  /** A stream cut into messages, the simple way. */
  function Frames(s: seq<Byte>): Framing
    decreases |s|
  {
    match FirstLen(s)
    case None => Framing([], s)
    case Some(n) =>
      FirstLenPositive(s);
      var f := Frames(s[n..]);
      Framing([s[..n]] + f.msgs, f.rest)
  }

  lemma {:induction false} ConcatCons(m: seq<Byte>, ms: seq<seq<Byte>>)
    ensures Flat([m] + ms) == m + Flat(ms)
    decreases |ms|
  {
    if ms == [] {
      assert [m] + ms == [m] && [m][..0] == [];
    } else {
      assert ([m] + ms)[..|ms|] == [m] + ms[..|ms| - 1];
      ConcatCons(m, ms[..|ms| - 1]);
    }
  }

  lemma FramesStep(s: seq<Byte>)
    ensures match FirstLen(s)
      case None => Frames(s) == Framing([], s)
      case Some(n) => 4 <= n <= |s| && Frames(s) == Framing([s[..n]] + Frames(s[n..]).msgs, Frames(s[n..]).rest)
  {
    if FirstLen(s).Some? { FirstLenPositive(s); }
  }

  /** A header word that cannot start a message. */
  predicate BadHeader(s: seq<Byte>) {
    |s| >= 4 && PaddedLen(s).None?
  }

  /**
   * The first frame in numbers. The first four bytes, least significant first,
   * are 32 times a length plus a type. With a type below 24 and a length of four
   * or more the frame is as long as the least multiple of four that is not below
   * that length; otherwise the header is bad.
   */
  lemma FirstFrame(s: seq<Byte>, len: nat, typ: nat, n: nat)
    requires |s| >= 4 && typ < 32
    requires s[0] as int + 256 * s[1] as int + 65536 * s[2] as int + 16777216 * s[3] as int == 32 * len + typ
    requires n % 4 == 0 && len <= n < len + 4
    ensures BadHeader(s) <==> typ >= 24 || len < 4
    ensures typ < 24 && len >= 4 && n <= |s| ==> |Frames(s).msgs| > 0 && Frames(s).msgs[0] == s[..n]
    ensures typ >= 24 || len < 4 || n > |s| ==> Frames(s) == Framing([], s)
  {
    Quotient(U32(s), 32, len, typ);
    assert Align4(len) == n by { OneMultiple(Align4(len), n, len); }
    hide Align4;
    FramesStep(s);
  }

  lemma OneMultiple(a: nat, b: nat, len: nat)
    requires a % 4 == 0 && b % 4 == 0 && len <= a < len + 4 && len <= b < len + 4
    ensures a == b
  {
  }

  /** Nothing is lost or reordered by framing. */
  lemma {:induction false} FramesConcat(s: seq<Byte>)
    ensures Flat(Frames(s).msgs) + Frames(s).rest == s
    ensures FirstLen(Frames(s).rest).None?
    decreases |s|
  {
    hide *;
    FramesStep(s);
    match FirstLen(s) {
      case None =>
        ConcatNothing();
        assert [] + s == s;
      case Some(n) =>
        FramesConcat(s[n..]);
        ConcatCons(s[..n], Frames(s[n..]).msgs);
        assert s == s[..n] + s[n..];
    }
  }

  lemma ConcatNothing()
    ensures Flat<Byte>([]) == []
  {
  }

  /** The first message does not depend on what follows it. */
  lemma FirstLenStable(s: seq<Byte>, more: seq<Byte>)
    requires FirstLen(s).Some?
    ensures FirstLen(s + more) == FirstLen(s)
  {
    assert U32(s + more) == U32(s);
  }

  /** Framing a stream piecewise is framing it at once. */
  lemma {:induction false} FramesMore(s: seq<Byte>, more: seq<Byte>)
    ensures Frames(s + more).msgs == Frames(s).msgs + Frames(Frames(s).rest + more).msgs
    ensures Frames(s + more).rest == Frames(Frames(s).rest + more).rest
    decreases |s|
  {
    hide *;
    FramesStep(s);
    match FirstLen(s) {
      case None =>
        assert [] + Frames(s + more).msgs == Frames(s + more).msgs;
      case Some(n) =>
        FirstLenStable(s, more);
        FramesStep(s + more);
        FramesMore(s[n..], more);
        assert (s + more)[..n] == s[..n] && (s + more)[n..] == s[n..] + more;
    }
  }

  /** A byte sequence that is exactly one message. */
  predicate IsMessage(m: seq<Byte>) {
    FirstLen(m) == Some(|m|)
  }

  lemma {:induction false} FramesAreMessages(s: seq<Byte>)
    ensures forall i :: 0 <= i < |Frames(s).msgs| ==> IsMessage(Frames(s).msgs[i])
    decreases |s|
  {
    if FirstLen(s).Some? {
      var n := FirstLen(s).value;
      FirstLenPositive(s);
      FramesAreMessages(s[n..]);
      assert U32(s[..n]) == U32(s);
    }
  }

  /** Sending whole messages and framing the stream gives the messages back. */
  lemma {:induction false} FramesOfConcat(msgs: seq<seq<Byte>>)
    requires forall i :: 0 <= i < |msgs| ==> IsMessage(msgs[i])
    ensures Frames(Flat(msgs)) == Framing(msgs, [])
    decreases |msgs|
  {
    if msgs != [] {
      var m, ms := msgs[0], msgs[1..];
      assert msgs == [m] + ms;
      ConcatCons(m, ms);
      FirstLenStable(m, Flat(ms));
      FramesOfConcat(ms);
      assert (m + Flat(ms))[..|m|] == m && (m + Flat(ms))[|m|..] == Flat(ms);
    }
  }

  /** Whatever part of a stream of messages has been read, it frames into the first of them. */
  lemma FramesOfPrefix(msgs: seq<seq<Byte>>, taken: nat)
    requires forall i :: 0 <= i < |msgs| ==> IsMessage(msgs[i])
    requires taken <= |Flat(msgs)|
    ensures Frames(Flat(msgs)[..taken]).msgs <= msgs
    ensures taken == |Flat(msgs)| ==> Frames(Flat(msgs)[..taken]).msgs == msgs
  {
    hide *;
    var stream := Flat(msgs);
    FramesOfConcat(msgs);
    FramesMore(stream[..taken], stream[taken..]);
    assert stream == stream[..taken] + stream[taken..];
    if taken == |stream| { assert stream[..taken] == stream; }
  }
}

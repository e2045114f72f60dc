/** Wayland messages, written and parsed by code generated from their signatures. */
module Codec {
  import opened Bytes

  /** Argument types of a method; `NewId` and `Object` have a known interface or are ids of existing objects. */
  datatype Arg = Object | NewId | GenericNewId | IntArg | Uint | Fixed | Text | Blob | Fd

  /** How a field is stored: an unsigned or signed word, a terminated string, an array. */
  datatype Field = Word | Signed | Str | Arr

  datatype Value = VWord(w: nat) | VSigned(i: int) | VStr(s: seq<Byte>) | VArr(a: seq<Byte>)

  /** The fields an argument is made of; file descriptors travel separately. */
  function Fields(a: Arg): seq<Field> {
    match a
    case Object | NewId | Uint => [Word]
    case GenericNewId => [Str, Word, Word]
    case IntArg | Fixed => [Signed]
    case Text => [Str]
    case Blob => [Arr]
    case Fd => []
  }

  predicate Fits(f: Field, v: Value) {
    match f
    case Word => v.VWord? && v.w < U32_LIMIT
    case Signed => v.VSigned? && -0x8000_0000 <= v.i < 0x8000_0000
    case Str => v.VStr? && |v.s| + 1 < U32_LIMIT
    case Arr => v.VArr? && |v.a| < U32_LIMIT
  }

  predicate AllFit(fs: seq<Field>, vs: seq<Value>) {
    |fs| == |vs| && forall i :: 0 <= i < |fs| ==> Fits(fs[i], vs[i])
  }

  /** One list of values for each argument. */
  predicate ArgsFit(args: seq<Arg>, vals: seq<seq<Value>>) {
    |args| == |vals| && forall i :: 0 <= i < |args| ==> AllFit(Fields(args[i]), vals[i])
  }

  // ---- Lengths, as the generator adds them up ----

  function LengthArray(n: nat): (l: nat)
    ensures l % 4 == 0 && l >= 4 + n
  {
    Align(n, 4) + 4
  }

  function LengthString(n: nat): nat { LengthArray(n + 1) }

  function ArgLength(a: Arg, vs: seq<Value>): nat
    requires AllFit(Fields(a), vs)
  {
    match a
    case Object | NewId | Uint | IntArg | Fixed => 4
    case GenericNewId => 8 + LengthString(|vs[0].s|)
    case Text => LengthString(|vs[0].s|)
    case Blob => LengthArray(|vs[0].a|)
    case Fd => 0
  }

  function ArgsLength(args: seq<Arg>, vals: seq<seq<Value>>): nat
    requires ArgsFit(args, vals)
  {
    if args == [] then 0 else ArgLength(args[0], vals[0]) + ArgsLength(args[1..], vals[1..])
  }

  function MessageLength(args: seq<Arg>, vals: seq<seq<Value>>): nat
    requires ArgsFit(args, vals)
  {
    8 + ArgsLength(args, vals)
  }

  // ---- Fields ----

  /** Two's complement. */
  function Unsigned(i: int): nat
    requires -0x8000_0000 <= i < 0x8000_0000
  {
    if i < 0 then i + U32_LIMIT else i
  }

  function ToSigned(w: nat): int { if w >= 0x8000_0000 then w - U32_LIMIT else w }

  /** Length word, contents, zeros up to a multiple of four. */
  function WriteArray(a: seq<Byte>): (s: seq<Byte>)
    requires |a| < U32_LIMIT
    ensures |s| == LengthArray(|a|)
  {
    LE32(|a|) + a + Zeros(LengthArray(|a|) - 4 - |a|)
  }

  /** A string counts its terminator; a null string is an empty array. */
  function WriteString(os: Option<seq<Byte>>): seq<Byte>
    requires os.Some? ==> |os.value| + 1 < U32_LIMIT
  {
    match os
    case None => LE32(0)
    case Some(s) => LE32(|s| + 1) + s + Zeros(LengthString(|s|) - 4 - |s|)
  }

  function WriteField(f: Field, v: Value): seq<Byte>
    requires Fits(f, v)
  {
    match f
    case Word => LE32(v.w)
    case Signed => LE32(Unsigned(v.i))
    case Str => WriteString(Some(v.s))
    case Arr => WriteArray(v.a)
  }

  function ParseWord(s: seq<Byte>): Option<(nat, seq<Byte>)> {
    if |s| < 4 then None else Some((U32(s), s[4..]))
  }

  function ParseArray(s: seq<Byte>): Option<(seq<Byte>, seq<Byte>)> {
    if |s| < 4 then None
    else
      var len := U32(s);
      var space := Align(len, 4);
      if space > |s| - 4 then None else Some((s[4..4 + len], s[4 + space..]))
  }

  function ParseString(s: seq<Byte>): Option<(Option<seq<Byte>>, seq<Byte>)> {
    match ParseArray(s)
    case None => None
    case Some((a, rest)) => if a == [] then Some((None, rest)) else Some((Some(a[..|a| - 1]), rest))
  }

  function ParseField(f: Field, s: seq<Byte>): Option<(Value, seq<Byte>)> {
    match f
    case Word => (match ParseWord(s) case None => None case Some((w, rest)) => Some((VWord(w), rest)))
    case Signed => (match ParseWord(s) case None => None case Some((w, rest)) => Some((VSigned(ToSigned(w)), rest)))
    case Str => (match ParseString(s) case Some((Some(t), rest)) => Some((VStr(t), rest)) case _ => None)
    case Arr => (match ParseArray(s) case None => None case Some((a, rest)) => Some((VArr(a), rest)))
  }

  lemma ArrayParts(len: nat, body: seq<Byte>, rest: seq<Byte>)
    requires len < U32_LIMIT && |body| == Align(len, 4)
    ensures ParseArray(LE32(len) + body + rest) == Some((body[..len], rest))
  {
    var s := LE32(len) + body + rest;
    ReadBack(len, body + rest);
    assert s == LE32(len) + (body + rest);
    hide LE32, U32, Align;
    Slices(LE32(len), body, rest, len);
  }

  lemma Slices(h: seq<Byte>, body: seq<Byte>, rest: seq<Byte>, len: nat)
    requires |h| == 4 && len <= |body|
    ensures var s := h + body + rest;
      s[4..4 + len] == body[..len] && s[4 + |body|..] == rest
  {
  }

  lemma WordRoundTrip(w: nat, rest: seq<Byte>)
    requires w < U32_LIMIT
    ensures ParseWord(LE32(w) + rest) == Some((w, rest))
  {
    ReadBack(w, rest);
    hide LE32, U32;
    assert (LE32(w) + rest)[4..] == rest;
  }

  lemma ArrayRoundTrip(a: seq<Byte>, rest: seq<Byte>)
    requires |a| < U32_LIMIT
    ensures ParseArray(WriteArray(a) + rest) == Some((a, rest))
  {
    var body := a + Zeros(LengthArray(|a|) - 4 - |a|);
    ArrayParts(|a|, body, rest);
    assert LE32(|a|) + body + rest == WriteArray(a) + rest && body[..|a|] == a;
  }

  /** Null and empty strings stay distinct. */
  lemma StringRoundTrip(os: Option<seq<Byte>>, rest: seq<Byte>)
    requires os.Some? ==> |os.value| + 1 < U32_LIMIT
    ensures ParseString(WriteString(os) + rest) == Some((os, rest))
  {
    match os {
      case None =>
        ArrayParts(0, [], rest);
        assert LE32(0) + [] + rest == LE32(0) + rest;
      case Some(s) =>
        var body := s + Zeros(LengthString(|s|) - 4 - |s|);
        ArrayParts(|s| + 1, body, rest);
        hide LE32, Align, ParseArray;
        assert LE32(|s| + 1) + body + rest == WriteString(os) + rest && body[..|s| + 1][..|s|] == s;
    }
  }

  lemma FieldRoundTrip(f: Field, v: Value, rest: seq<Byte>)
    requires Fits(f, v)
    ensures ParseField(f, WriteField(f, v) + rest) == Some((v, rest))
  {
    hide LE32, ParseWord, ParseArray, ParseString, WriteArray, WriteString;
    match f {
      case Word => WordRoundTrip(v.w, rest);
      case Signed => WordRoundTrip(Unsigned(v.i), rest);
      case Str => StringRoundTrip(Some(v.s), rest);
      case Arr => ArrayRoundTrip(v.a, rest);
    }
  }

  // ---- Arguments ----

  function WriteFields(fs: seq<Field>, vs: seq<Value>): seq<Byte>
    requires AllFit(fs, vs)
  {
    if fs == [] then [] else WriteField(fs[0], vs[0]) + WriteFields(fs[1..], vs[1..])
  }

  function ParseFields(fs: seq<Field>, s: seq<Byte>): Option<(seq<Value>, seq<Byte>)> {
    if fs == [] then Some(([], s))
    else
      match ParseField(fs[0], s)
      case None => None
      case Some((v, more)) =>
        match ParseFields(fs[1..], more)
        case None => None
        case Some((vs, rest)) => Some(([v] + vs, rest))
  }

  function WriteArgs(args: seq<Arg>, vals: seq<seq<Value>>): seq<Byte>
    requires ArgsFit(args, vals)
  {
    if args == [] then [] else WriteFields(Fields(args[0]), vals[0]) + WriteArgs(args[1..], vals[1..])
  }

  function ParseArgs(args: seq<Arg>, s: seq<Byte>): Option<(seq<seq<Value>>, seq<Byte>)> {
    if args == [] then Some(([], s))
    else
      match ParseFields(Fields(args[0]), s)
      case None => None
      case Some((vs, more)) =>
        match ParseArgs(args[1..], more)
        case None => None
        case Some((vals, rest)) => Some(([vs] + vals, rest))
  }

  lemma {:induction false} FieldsRoundTrip(fs: seq<Field>, vs: seq<Value>, rest: seq<Byte>)
    requires AllFit(fs, vs)
    ensures ParseFields(fs, WriteFields(fs, vs) + rest) == Some((vs, rest))
    decreases |fs|
  {
    hide WriteField, ParseField, Fits;
    if fs == [] {
      assert [] + rest == rest;
    } else {
      var more := WriteFields(fs[1..], vs[1..]) + rest;
      FieldRoundTrip(fs[0], vs[0], more);
      FieldsRoundTrip(fs[1..], vs[1..], rest);
      assert WriteFields(fs, vs) + rest == WriteField(fs[0], vs[0]) + more;
      assert [vs[0]] + vs[1..] == vs;
    }
  }

  lemma {:induction false} ArgsRoundTrip(args: seq<Arg>, vals: seq<seq<Value>>, rest: seq<Byte>)
    requires ArgsFit(args, vals)
    ensures ParseArgs(args, WriteArgs(args, vals) + rest) == Some((vals, rest))
    decreases |args|
  {
    hide WriteFields, ParseFields, AllFit, Fields;
    if args == [] {
      assert [] + rest == rest;
    } else {
      var more := WriteArgs(args[1..], vals[1..]) + rest;
      FieldsRoundTrip(Fields(args[0]), vals[0], more);
      ArgsRoundTrip(args[1..], vals[1..], rest);
      assert WriteArgs(args, vals) + rest == WriteFields(Fields(args[0]), vals[0]) + more;
      assert [vals[0]] + vals[1..] == vals;
    }
  }

  lemma TwoWords(vs: seq<Value>)
    requires AllFit([Word, Word], vs)
    ensures |WriteFields([Word, Word], vs)| == 8
  {
    assert [Word, Word][1..] == [Word] && [Word][1..] == [];
    assert |WriteFields([Word], vs[1..])| == 4;
  }

  /** The generated length is the length of what the generated writer writes. */
  lemma ArgWritten(a: Arg, vs: seq<Value>)
    requires AllFit(Fields(a), vs)
    ensures |WriteFields(Fields(a), vs)| == ArgLength(a, vs) && ArgLength(a, vs) % 4 == 0
  {
    hide LE32, Align, LengthArray;
    match a {
      case GenericNewId =>
        assert Fields(a)[1..] == [Word, Word];
        assert |WriteField(Str, vs[0])| == LengthString(|vs[0].s|);
        TwoWords(vs[1..]);
      case Fd =>
      case _ =>
        assert Fields(a)[1..] == [];
    }
  }

  /** The bytes of a string argument: its length with the terminator, its contents, at least one zero. */
  ghost predicate IsText(s: seq<Byte>, text: seq<Byte>) {
    && |s| >= 5 + |text| && |s| % 4 == 0 && |s| < 9 + |text|
    && U32(s) == |text| + 1 && s[4..4 + |text|] == text && forall i :: 4 + |text| <= i < |s| ==> s[i] == 0
  }

  lemma TextBytes(v: Value)
    requires Fits(Str, v)
    ensures IsText(WriteField(Str, v), v.s)
  {
    var s, n := WriteField(Str, v), |v.s|;
    assert s == LE32(n + 1) + (v.s + Zeros(LengthString(n) - 4 - n));
    ReadBack(n + 1, v.s + Zeros(LengthString(n) - 4 - n));
    hide LE32, U32, Zeros;
    assert s[4..4 + n] == v.s;
    forall i | 4 + n <= i < |s| ensures s[i] == 0 { assert s[i] == Zeros(LengthString(n) - 4 - n)[i - 4 - n]; }
  }

  /** The bytes that each type of argument is written as. */
  lemma ArgBytes(a: Arg, vs: seq<Value>)
    requires AllFit(Fields(a), vs)
    ensures var s := WriteFields(Fields(a), vs);
      match a
      case Object | NewId | Uint => |s| == 4 && U32(s) == vs[0].w
      case IntArg | Fixed => |s| == 4 && (U32(s) == vs[0].i || U32(s) - 0x1_0000_0000 == vs[0].i)
      case Text => IsText(s, vs[0].s)
      case GenericNewId => |s| >= 8 && IsText(s[..|s| - 8], vs[0].s) && s[|s| - 8..] == LE32(vs[1].w) + LE32(vs[2].w)
      case Blob =>
        var n := |vs[0].a|;
        && |s| % 4 == 0 && 4 + n <= |s| < 8 + n && U32(s) == n && s[4..4 + n] == vs[0].a
        && forall i :: 4 + n <= i < |s| ==> s[i] == 0
      case Fd => s == []
  {
    match a {
      case GenericNewId => GenericBytes(vs);
      case Fd =>
      case Text =>
        TextBytes(vs[0]);
        hide IsText;
        OneField(Str, vs);
      case Blob =>
        OneField(Arr, vs);
        BlobBytes(vs[0]);
      case IntArg | Fixed =>
        OneField(Signed, vs);
        ReadBack(Unsigned(vs[0].i), []);
        assert LE32(Unsigned(vs[0].i)) + [] == LE32(Unsigned(vs[0].i));
      case _ =>
        OneField(Word, vs);
        ReadBack(vs[0].w, []);
        assert LE32(vs[0].w) + [] == LE32(vs[0].w);
    }
  }

  lemma OneField(f: Field, vs: seq<Value>)
    requires AllFit([f], vs)
    ensures WriteFields([f], vs) == WriteField(f, vs[0])
  {
    hide WriteField;
    assert [f][1..] == [];
  }

  lemma BlobBytes(v: Value)
    requires Fits(Arr, v)
    ensures var s, n := WriteField(Arr, v), |v.a|;
      && |s| % 4 == 0 && 4 + n <= |s| < 8 + n && U32(s) == n && s[4..4 + n] == v.a
      && forall i :: 4 + n <= i < |s| ==> s[i] == 0
  {
    var s, n := WriteField(Arr, v), |v.a|;
    assert s == LE32(n) + (v.a + Zeros(LengthArray(n) - 4 - n));
    ReadBack(n, v.a + Zeros(LengthArray(n) - 4 - n));
    hide LE32, U32, Zeros;
    forall i | 4 + n <= i < |s| ensures s[i] == 0 { assert s[i] == Zeros(LengthArray(n) - 4 - n)[i - 4 - n]; }
  }

  lemma GenericBytes(vs: seq<Value>)
    requires AllFit([Str, Word, Word], vs)
    ensures var s := WriteFields([Str, Word, Word], vs);
      |s| >= 8 && IsText(s[..|s| - 8], vs[0].s) && s[|s| - 8..] == LE32(vs[1].w) + LE32(vs[2].w)
  {
    hide LE32, U32, IsText, WriteString, Zeros;
    TextBytes(vs[0]);
    var t, s := WriteField(Str, vs[0]), WriteFields([Str, Word, Word], vs);
    assert [Str, Word, Word][1..] == [Word, Word] && [Word, Word][1..] == [Word];
    OneField(Word, vs[1..][1..]);
    assert WriteFields([Word, Word], vs[1..]) == LE32(vs[1].w) + LE32(vs[2].w);
    assert s == t + WriteFields([Word, Word], vs[1..]);
    assert s[..|s| - 8] == t;
  }

  lemma {:induction false} ArgsWritten(args: seq<Arg>, vals: seq<seq<Value>>)
    requires ArgsFit(args, vals)
    ensures |WriteArgs(args, vals)| == ArgsLength(args, vals) && ArgsLength(args, vals) % 4 == 0
    decreases |args|
  {
    hide WriteFields, AllFit, Fields, ArgLength;
    if args != [] {
      ArgWritten(args[0], vals[0]);
      ArgsWritten(args[1..], vals[1..]);
    }
  }

  // ---- Whole messages ----

  /** Length in the upper half of the second word, then five bits for tagged descriptors, then the opcode. */
  function WriteHeader(id: nat, length: nat, opcode: nat, ntagfds: nat): (s: seq<Byte>)
    requires id < U32_LIMIT && length < 0x1_0000 && ntagfds < 32 && opcode < 256
    ensures |s| == 8
  {
    LE32(id) + LE32(length * 0x1_0000 + ntagfds * 2048 + opcode)
  }

  function ParseHeader(m: seq<Byte>): (nat, nat, nat)
    requires |m| >= 8
  {
    (U32(m), U32(m[4..]) / 0x1_0000, U32(m[4..]) % 256)
  }

  function Message(id: nat, opcode: nat, ntagfds: nat, args: seq<Arg>, vals: seq<seq<Value>>): (m: seq<Byte>)
    requires ArgsFit(args, vals) && id < U32_LIMIT && MessageLength(args, vals) < 0x1_0000 && ntagfds < 32 &&
      opcode < 256
    ensures |m| == MessageLength(args, vals)
  {
    ArgsWritten(args, vals);
    WriteHeader(id, MessageLength(args, vals), opcode, ntagfds) + WriteArgs(args, vals)
  }

  /** Parse the arguments; everything after the header must be used up. */
  function ParseMessage(args: seq<Arg>, m: seq<Byte>): Option<seq<seq<Value>>> {
    if |m| < 8 then None
    else
      match ParseArgs(args, m[8..])
      case None => None
      case Some((vals, rest)) => if rest == [] then Some(vals) else None
  }

  lemma HeaderRoundTrip(id: nat, length: nat, opcode: nat, ntagfds: nat, tail: seq<Byte>)
    requires id < U32_LIMIT && length < 0x1_0000 && ntagfds < 32 && opcode < 256
    ensures var m := WriteHeader(id, length, opcode, ntagfds) + tail;
      && ParseHeader(m) == (id, length, opcode)
      && U32(m) == id && U32(m[4..]) / 0x1_0000 == length && U32(m[4..]) / 2048 % 32 == ntagfds
      && U32(m[4..]) % 2048 == opcode
  {
    var x := length * 0x1_0000 + ntagfds * 2048 + opcode;
    var m := WriteHeader(id, length, opcode, ntagfds) + tail;
    ReadBack(id, LE32(x) + tail);
    ReadBack(x, tail);
    HeaderWord(length, opcode, ntagfds);
    hide LE32, U32;
    assert m == LE32(id) + (LE32(x) + tail) && m[4..] == LE32(x) + tail;
  }

  lemma HeaderWord(length: nat, opcode: nat, ntagfds: nat)
    requires length < 0x1_0000 && ntagfds < 32 && opcode < 256
    ensures var x := length * 0x1_0000 + ntagfds * 2048 + opcode;
      x < U32_LIMIT && x / 0x1_0000 == length && x % 256 == opcode && x / 2048 % 32 == ntagfds && x % 2048 == opcode
  {
    var x := length * 0x1_0000 + ntagfds * 2048 + opcode;
    Quotient(x, 0x1_0000, length, ntagfds * 2048 + opcode);
    Quotient(x, 256, length * 256 + ntagfds * 8, opcode);
    Quotient(x, 2048, length * 32 + ntagfds, opcode);
    Quotient(x / 2048, 32, length, ntagfds);
  }

  /** Parsing a written message gives back its arguments and its header, whatever the descriptor tag. */
  lemma MessageRoundTrip(id: nat, opcode: nat, ntagfds: nat, args: seq<Arg>, vals: seq<seq<Value>>)
    requires ArgsFit(args, vals) && id < U32_LIMIT && MessageLength(args, vals) < 0x1_0000 && ntagfds < 32 &&
      opcode < 256
    ensures var m := Message(id, opcode, ntagfds, args, vals);
      && |m| == MessageLength(args, vals) && |m| % 4 == 0 && |m| >= 8
      && ParseMessage(args, m) == Some(vals) && ParseHeader(m) == (id, |m|, opcode)
  {
    hide WriteHeader, ParseHeader, WriteArgs, ParseArgs, ArgsLength, ArgsFit;
    var m := Message(id, opcode, ntagfds, args, vals);
    ArgsWritten(args, vals);
    HeaderRoundTrip(id, MessageLength(args, vals), opcode, ntagfds, WriteArgs(args, vals));
    ArgsRoundTrip(args, vals, []);
    assert WriteArgs(args, vals) + [] == WriteArgs(args, vals) == m[8..];
  }

  // ---- What the parser accepts ----

  lemma FieldParsed(f: Field, s: seq<Byte>)
    requires ParseField(f, s).Some?
    ensures var (v, rest) := ParseField(f, s).value;
      Fits(f, v) && |s| == |WriteField(f, v)| + |rest|
  {
    hide LE32, U32;
  }

  lemma {:induction false} FieldsParsed(fs: seq<Field>, s: seq<Byte>)
    requires ParseFields(fs, s).Some?
    ensures var (vs, rest) := ParseFields(fs, s).value;
      AllFit(fs, vs) && |s| == |WriteFields(fs, vs)| + |rest|
    decreases |fs|
  {
    hide Fits, ParseField, WriteField;
    if fs != [] {
      FieldParsed(fs[0], s);
      var (v, more) := ParseField(fs[0], s).value;
      FieldsParsed(fs[1..], more);
      var (vs, rest) := ParseFields(fs[1..], more).value;
      assert ([v] + vs)[1..] == vs;
    }
  }

  lemma {:induction false} ArgsParsed(args: seq<Arg>, s: seq<Byte>)
    requires ParseArgs(args, s).Some?
    ensures var (vals, rest) := ParseArgs(args, s).value;
      ArgsFit(args, vals) && |s| == ArgsLength(args, vals) + |rest|
    decreases |args|
  {
    hide AllFit, Fields, ParseFields, WriteFields, ArgLength;
    if args != [] {
      FieldsParsed(Fields(args[0]), s);
      var (vs, more) := ParseFields(Fields(args[0]), s).value;
      ArgWritten(args[0], vs);
      ArgsParsed(args[1..], more);
      var (vals, rest) := ParseArgs(args[1..], more).value;
      assert ([vs] + vals)[1..] == vals;
    }
  }

  /**
   * Whatever the parser accepts has the length computed for its arguments, and
   * writing those arguments again gives a message of that length that parses to them.
   */
  lemma AcceptedMessage(args: seq<Arg>, m: seq<Byte>, id: nat, opcode: nat, ntagfds: nat)
    requires ParseMessage(args, m).Some? && |m| < 0x1_0000 && id < U32_LIMIT && ntagfds < 32 && opcode < 256
    ensures var vals := ParseMessage(args, m).value;
      && ArgsFit(args, vals) && |m| == MessageLength(args, vals)
      && |Message(id, opcode, ntagfds, args, vals)| == |m| &&
         ParseMessage(args, Message(id, opcode, ntagfds, args, vals)) == Some(vals)
  {
    var vals := ParseMessage(args, m).value;
    ArgsParsed(args, m[8..]);
    hide ParseArgs, ArgsLength, ArgsFit, WriteArgs, WriteHeader;
    MessageRoundTrip(id, opcode, ntagfds, args, vals);
  }

  // ---- Writing in place ----

  lemma PatchedTwice(s: seq<Byte>, p: nat, a: seq<Byte>, b: seq<Byte>)
    requires p + |a| + |b| <= |s|
    ensures Patched(Patched(s, p, a), p + |a|, b) == Patched(s, p, a + b)
  {
  }

  lemma PatchedNothing(s: seq<Byte>, p: nat)
    requires p <= |s|
    ensures Patched(s, p, []) == s
  {
  }

  /** Length word, contents and fill, one after the other. */
  method PutCounted(buf: array<Byte>, pos: nat, count: nat, a: seq<Byte>, length: nat)
    requires count < U32_LIMIT && 4 + |a| <= length && pos + length <= buf.Length
    modifies buf
    ensures buf[..] == Patched(old(buf[..]), pos, LE32(count) + a + Zeros(length - 4 - |a|))
  {
    hide Patched, LE32, Zeros;
    ghost var s := buf[..];
    CopyInto(buf, pos, LE32(count));
    CopyInto(buf, pos + 4, a);
    CopyInto(buf, pos + 4 + |a|, Zeros(length - 4 - |a|));
    PatchedTwice(s, pos, LE32(count), a);
    PatchedTwice(s, pos, LE32(count) + a, Zeros(length - 4 - |a|));
  }

  method PutField(buf: array<Byte>, pos: nat, f: Field, v: Value) returns (pos': nat)
    requires Fits(f, v) && pos + |WriteField(f, v)| <= buf.Length
    modifies buf
    ensures pos' == pos + |WriteField(f, v)| && buf[..] == Patched(old(buf[..]), pos, WriteField(f, v))
  {
    hide Patched, LE32, Zeros, Align, LengthArray;
    match f {
      case Word =>
        CopyInto(buf, pos, LE32(v.w));
        pos' := pos + 4;
      case Signed =>
        CopyInto(buf, pos, LE32(Unsigned(v.i)));
        pos' := pos + 4;
      case Str =>
        PutCounted(buf, pos, |v.s| + 1, v.s, LengthString(|v.s|));
        pos' := pos + LengthString(|v.s|);
      case Arr =>
        PutCounted(buf, pos, |v.a|, v.a, LengthArray(|v.a|));
        pos' := pos + LengthArray(|v.a|);
    }
  }

  lemma WriteFieldsStep(fs: seq<Field>, vs: seq<Value>, i: nat)
    requires AllFit(fs, vs) && i < |fs|
    ensures AllFit(fs[i..], vs[i..]) && AllFit(fs[i + 1..], vs[i + 1..])
    ensures WriteFields(fs[i..], vs[i..]) == WriteField(fs[i], vs[i]) + WriteFields(fs[i + 1..], vs[i + 1..])
  {
    hide Fits, WriteField;
    assert fs[i..][1..] == fs[i + 1..] && vs[i..][1..] == vs[i + 1..];
  }

  lemma WriteArgsStep(args: seq<Arg>, vals: seq<seq<Value>>, i: nat)
    requires ArgsFit(args, vals) && i < |args|
    ensures ArgsFit(args[i..], vals[i..]) && ArgsFit(args[i + 1..], vals[i + 1..])
    ensures WriteArgs(args[i..], vals[i..]) ==
      WriteFields(Fields(args[i]), vals[i]) + WriteArgs(args[i + 1..], vals[i + 1..])
  {
    hide AllFit, WriteFields, Fields;
    assert args[i..][1..] == args[i + 1..] && vals[i..][1..] == vals[i + 1..];
  }

  method PutFields(buf: array<Byte>, pos: nat, fs: seq<Field>, vs: seq<Value>) returns (pos': nat)
    requires AllFit(fs, vs) && pos + |WriteFields(fs, vs)| <= buf.Length
    modifies buf
    ensures pos' == pos + |WriteFields(fs, vs)| && buf[..] == Patched(old(buf[..]), pos, WriteFields(fs, vs))
  {
    hide Patched, WriteField, Fits;
    ghost var goal := Patched(buf[..], pos, WriteFields(fs, vs));
    pos' := pos;
    assert fs[0..] == fs && vs[0..] == vs;
    for i := 0 to |fs|
      invariant AllFit(fs[i..], vs[i..]) && pos' + |WriteFields(fs[i..], vs[i..])| == pos + |WriteFields(fs, vs)|
      invariant Patched(buf[..], pos', WriteFields(fs[i..], vs[i..])) == goal
    {
      WriteFieldsStep(fs, vs, i);
      PatchedTwice(buf[..], pos', WriteField(fs[i], vs[i]), WriteFields(fs[i + 1..], vs[i + 1..]));
      pos' := PutField(buf, pos', fs[i], vs[i]);
    }
    PatchedNothing(buf[..], pos');
  }

  function FdCount(args: seq<Arg>): nat {
    if args == [] then 0 else FdCount(args[..|args| - 1]) + (if args[|args| - 1].Fd? then 1 else 0)
  }

  /** The positions of file descriptors among the arguments. */
  function FdPositions(args: seq<Arg>): set<nat> {
    set i: nat | i < |args| && args[i].Fd?
  }

  lemma {:induction false} FdsCounted(args: seq<Arg>)
    ensures FdCount(args) == |FdPositions(args)|
    decreases |args|
  {
    if args == [] {
      assert FdPositions(args) == {};
    } else {
      var n := |args| - 1;
      FdsCounted(args[..n]);
      assert FdPositions(args) == FdPositions(args[..n]) + (if args[n].Fd? then {n as nat} else {});
    }
  }

  /** The header of a message at the cursor: object, length, number of descriptors, opcode. */
  lemma HeaderAt(s: seq<Byte>, buf: seq<Byte>, pos: nat, id: nat, opcode: nat, ntagfds: nat, args: seq<Arg>,
                 vals: seq<seq<Value>>)
    requires ArgsFit(args, vals) && id < U32_LIMIT && MessageLength(args, vals) < 0x1_0000 && ntagfds < 32 &&
      opcode < 256
    requires pos + MessageLength(args, vals) <= |s| && buf == Patched(s, pos, Message(id, opcode, ntagfds, args, vals))
    ensures |buf| == |s|
    ensures U32(buf[pos..]) == id && U32(buf[pos + 4..]) / 0x1_0000 == MessageLength(args, vals)
    ensures U32(buf[pos + 4..]) / 2048 % 32 == ntagfds && U32(buf[pos + 4..]) % 2048 == opcode
  {
    hide U32, ArgsFit, WriteArgs, ArgsLength, WriteHeader, Patched;
    var h, b := WriteHeader(id, MessageLength(args, vals), opcode, ntagfds), WriteArgs(args, vals);
    ArgsWritten(args, vals);
    HeaderRoundTrip(id, MessageLength(args, vals), opcode, ntagfds, b + s[pos + |h + b|..]);
    FromCursor(s, pos, h, b);
  }

  lemma FromCursor(s: seq<Byte>, pos: nat, h: seq<Byte>, b: seq<Byte>)
    requires pos + |h| + |b| <= |s| && |h| == 8
    ensures var buf, tail := Patched(s, pos, h + b), b + s[pos + |h + b|..];
      |buf| == |s| && buf[pos..] == h + tail && buf[pos + 4..] == (h + tail)[4..]
  {
    var buf := Patched(s, pos, h + b);
    assert buf == s[..pos] + (h + (b + s[pos + |h + b|..]));
  }

  /** The generated writer: header with the number of descriptors if they are to be tagged, then the arguments. */
  method PutMessage(buf: array<Byte>, pos: nat, id: nat, opcode: nat, tagFds: bool, args: seq<Arg>,
                    vals: seq<seq<Value>>) returns (pos': nat)
    requires ArgsFit(args, vals) && id < U32_LIMIT && MessageLength(args, vals) < 0x1_0000 && FdCount(args) < 32 &&
      opcode < 256
    requires pos + MessageLength(args, vals) <= buf.Length
    modifies buf
    ensures pos' == pos + MessageLength(args, vals)
    ensures buf[..] == Patched(old(buf[..]), pos, Message(id, opcode, if tagFds then FdCount(args) else 0, args, vals))
    ensures U32(buf[..][pos..]) == id && U32(buf[..][pos + 4..]) / 0x1_0000 == MessageLength(args, vals)
    ensures U32(buf[..][pos + 4..]) / 2048 % 32 == if tagFds then |FdPositions(args)| else 0
    ensures U32(buf[..][pos + 4..]) % 2048 == opcode
  {
    var ntagfds := if tagFds then FdCount(args) else 0;
    hide Patched, WriteHeader, WriteFields, AllFit, ArgsLength, Fields, FdCount, U32;
    ghost var header, s := WriteHeader(id, MessageLength(args, vals), opcode, ntagfds), buf[..];
    ArgsWritten(args, vals);
    ghost var goal := Patched(s, pos, Message(id, opcode, ntagfds, args, vals));
    PatchedTwice(s, pos, header, WriteArgs(args, vals));
    CopyInto(buf, pos, WriteHeader(id, MessageLength(args, vals), opcode, ntagfds));
    pos' := pos + 8;
    assert args[0..] == args && vals[0..] == vals;
    for i := 0 to |args|
      invariant ArgsFit(args[i..], vals[i..]) &&
        pos' + |WriteArgs(args[i..], vals[i..])| == pos + MessageLength(args, vals)
      invariant Patched(buf[..], pos', WriteArgs(args[i..], vals[i..])) == goal
    {
      WriteArgsStep(args, vals, i);
      PatchedTwice(buf[..], pos', WriteFields(Fields(args[i]), vals[i]), WriteArgs(args[i + 1..], vals[i + 1..]));
      pos' := PutFields(buf, pos', Fields(args[i]), vals[i]);
    }
    PatchedNothing(buf[..], pos');
    HeaderAt(s, buf[..], pos, id, opcode, ntagfds, args, vals);
    FdsCounted(args);
  }
}

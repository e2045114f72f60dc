/** Bytes, little-endian 32-bit words and power-of-two alignment. */
module Bytes {

  type Byte = x: int | 0 <= x < 256

  const U32_LIMIT: nat := 0x1_0000_0000

  /** A possibly missing value. */
  datatype Option<+T> = None | Some(value: T)

  /** The little-endian encoding of a 32-bit word. */
  function LE32(x: nat): (s: seq<Byte>)
    requires x < U32_LIMIT
    ensures |s| == 4
  {
    [x % 256, x / 256 % 256, x / 65536 % 256, x / 16777216]
  }

  /** The word held in the first four bytes. */
  function U32(s: seq<Byte>): (x: nat)
    requires |s| >= 4
    ensures x < U32_LIMIT
  {
    s[0] as int + 256 * s[1] as int + 65536 * s[2] as int + 16777216 * s[3] as int
  }

  /** The four base-256 digits of a word. */
  lemma Digits(x: nat)
    ensures x == x % 256 + 256 * (x / 256 % 256) + 65536 * (x / 65536 % 256) + 16777216 * (x / 16777216)
  {
    var a := x / 256;
    var b := a / 256;
    assert b == x / 65536;
    assert b / 256 == x / 16777216;
  }

  lemma ReadBack(x: nat, tail: seq<Byte>)
    requires x < U32_LIMIT
    ensures U32(LE32(x) + tail) == x
  {
    var w := LE32(x);
    Digits(x);
    assert U32(w) == x;
    hide LE32;
    var s := w + tail;
    assert s[0] == w[0] && s[1] == w[1] && s[2] == w[2] && s[3] == w[3];
  }

  lemma Undigit(a: nat, b: nat, c: nat, d: nat)
    requires a < 256 && b < 256 && c < 256
    ensures var x := a + 256 * b + 65536 * c + 16777216 * d;
      x % 256 == a && x / 256 % 256 == b && x / 65536 % 256 == c && x / 16777216 == d
  {
    var x := a + 256 * b + 65536 * c + 16777216 * d;
    var y, z := b + 256 * c + 65536 * d, c + 256 * d;
    assert x / 256 == y;
    assert x / 65536 == z;
  }

  /** Words count four bytes each. */
  lemma Words(k: nat)
    ensures 4 * k % 4 == 0 && 4 * k / 4 == k
  {
  }

  /** Two words with the same four bytes are the same word. */
  lemma WriteBack(s: seq<Byte>)
    requires |s| >= 4
    ensures LE32(U32(s)) == s[..4]
  {
    var a, b, c, d := s[0] as int, s[1] as int, s[2] as int, s[3] as int;
    Undigit(a, b, c, d);
    assert LE32(U32(s)) == [a, b, c, d];
  }

  function Pow2(n: nat): (p: nat)
    ensures p > 0
  {
    if n == 0 then 1 else 2 * Pow2(n - 1)
  }

  /** Parts put together. */
  function Flat<T>(parts: seq<seq<T>>): seq<T> {
    if parts == [] then [] else Flat(parts[..|parts| - 1]) + parts[|parts| - 1]
  }

  lemma FlatMore<T>(parts: seq<seq<T>>, part: seq<T>)
    ensures Flat(parts + [part]) == Flat(parts) + part
  {
    assert (parts + [part])[..|parts|] == parts;
  }

  /** `s` with `v` stored from position `at` on. */
  function Patched(s: seq<Byte>, at: nat, v: seq<Byte>): seq<Byte>
    requires at + |v| <= |s|
  {
    s[..at] + v + s[at + |v|..]
  }

  /** Store `src` at `dst[at..]`. */
  method CopyInto(dst: array<Byte>, at: nat, src: seq<Byte>)
    requires at + |src| <= dst.Length
    modifies dst
    ensures dst[..] == Patched(old(dst[..]), at, src)
  {
    forall i | 0 <= i < |src| { dst[at + i] := src[i]; }
  }

  /** `x` rounded up to a multiple of `y`. */
  function Align(x: nat, y: nat): (r: nat)
    requires y > 0
    ensures r % y == 0 && x <= r < x + y
  {
    var q := (x + y - 1) / y;
    MultipleOf(q, y);
    y * q
  }

  /** `x` rounded down to a multiple of `y`. */
  function RoundDown(x: nat, y: nat): (r: nat)
    requires y > 0
    ensures r % y == 0 && r <= x < r + y
  {
    Quotient(x - x % y, y, x / y, 0);
    x - x % y
  }

  lemma MultipleOf(q: int, y: int)
    requires y > 0
    ensures (y * q) % y == 0
  {
    assert y * q == q * y + 0;
    Quotient(q * y, y, q, 0);
  }

  /** Euclidean division is determined by its defining equation. */
  lemma Quotient(x: int, y: int, q: int, r: int)
    requires y > 0 && x == q * y + r && 0 <= r < y
    ensures x / y == q && x % y == r
  {
    var d := q - x / y;
    assert d * y == x % y - r by { assert (q - x / y) * y == q * y - (x / y) * y; }
    if d >= 1 { MulAtLeast(d, y); } else if d <= -1 { MulAtLeast(-d, y); }
  }

  lemma MulLe(a: nat, b: nat, c: nat)
    requires a <= b
    ensures a * c <= b * c
  {
    assert b * c == a * c + (b - a) * c;
  }

  lemma MulAtLeast(k: int, y: int)
    requires k >= 1 && y >= 0
    ensures k * y >= y
  {
    assert k * y == (k - 1) * y + y;
  }

  function Zeros(n: nat): (s: seq<Byte>)
    ensures |s| == n && forall i :: 0 <= i < n ==> s[i] == 0
  {
    seq(n, i => 0)
  }

  function Min(a: int, b: int): int { if a < b then a else b }

  function Max(a: int, b: int): int { if a < b then b else a }
}

/** Planning copies between a linear view of an image, given as damaged byte segments, and the image itself. */
module CopyRegions {
  import opened Bytes

  /** Bytes `start..end` of the linear view, found at `source` in the buffer. */
  datatype Segment = Segment(source: nat, start: nat, end: nat)

  /** A rectangle of pixels, with the buffer position of its first one; rows are as far apart as in the view. */
  datatype Region = Region(offset: nat, x: nat, y: nat, w: nat, h: nat) {
    predicate Has(px: nat, py: nat) { x <= px < x + w && y <= py < y + h }
  }

  datatype Image = Image(width: nat, height: nat, bpp: nat, row: nat) {
    predicate Valid() { width > 0 && bpp > 0 && row >= width * bpp && row % bpp == 0 }

    /** Where a pixel lies in the linear view. */
    function At(px: nat, py: nat): nat { py * row + px * bpp }
  }

  /** A nonempty segment of whole texels inside the view. */
  predicate Texels(s: Segment, img: Image)
    requires img.Valid()
  {
    && s.start < s.end <= img.height * img.row
    && s.start % Row(img) % img.bpp == 0 && s.end % Row(img) % img.bpp == 0
  }

  /** The row length, which is not zero. */
  function Row(img: Image): (r: nat)
    requires img.Valid()
    ensures r == img.row && r > 0
  {
    MulAtLeast(img.width, img.bpp);
    img.row
  }

  /** The segment has all bytes of the pixel. */
  predicate In(s: Segment, img: Image, px: nat, py: nat) {
    px < img.width && s.start <= img.At(px, py) && img.At(px, py) + img.bpp <= s.end
  }

  // ---- Byte positions as rows and columns ----

  lemma MulLt(a: nat, b: nat, c: nat)
    requires a < b && c > 0
    ensures a * c < b * c && a * c + c <= b * c
  {
    MulLe(a + 1, b, c);
  }

  /** `n` bytes are `q` rows and `k` texels. */
  predicate Split(n: nat, img: Image, q: nat, k: nat) {
    n == q * img.row + k * img.bpp
  }

  lemma Whole(n: nat, d: nat)
    requires d > 0 && n % d == 0
    ensures n == (n / d) * d
  {
  }

  lemma StartSplit(s: Segment, img: Image)
    requires img.Valid() && Texels(s, img)
    ensures var q, k := s.start / Row(img), s.start % Row(img) / img.bpp;
      Split(s.start, img, q, k) && k * img.bpp < img.row
  {
    Whole(s.start % Row(img), img.bpp);
  }

  lemma EndSplit(s: Segment, img: Image)
    requires img.Valid() && Texels(s, img)
    ensures var q, k := (s.end - 1) / Row(img), 1 + (s.end - 1) % Row(img) / img.bpp;
      Split(s.end, img, q, k) && k * img.bpp <= img.row && q < img.height
  {
    var row, q, t := Row(img), (s.end - 1) / Row(img), (s.end - 1) % Row(img);
    assert s.end == q * row + (t + 1);
    if t + 1 < row { Remainder(q, row, t + 1); }
    assert (t + 1) % img.bpp == 0;
    Whole(t + 1, img.bpp);
    var k := (t + 1) / img.bpp;
    Before(k, img.bpp, t);
    if q >= img.height { MulLe(img.height, q, row); }
  }

  lemma Remainder(q: nat, d: nat, r: nat)
    requires r < d
    ensures (q * d + r) % d == r
  {
    Quotient(q * d + r, d, q, r);
  }

  lemma Before(k: nat, d: nat, t: nat)
    requires d > 0 && t + 1 == k * d
    ensures 1 + t / d == k
  {
    assert k > 0;
    assert t == (k - 1) * d + (d - 1) by { assert k * d == (k - 1) * d + d; }
    Quotient(t, d, k - 1, d - 1);
  }

  predicate NotBefore(px: nat, py: nat, q: nat, k: nat) { py > q || (py == q && px >= k) }

  predicate Ahead(px: nat, py: nat, q: nat, k: nat) { py < q || (py == q && px < k) }

  lemma StartIs(n: nat, img: Image, q: nat, k: nat, px: nat, py: nat)
    requires img.Valid() && Split(n, img, q, k) && k * img.bpp < img.row && px < img.width
    ensures n <= img.At(px, py) <==> NotBefore(px, py, q, k)
  {
    MulLt(px, img.width, img.bpp);
    if py > q {
      MulLt(q, py, Row(img));
    } else if py < q {
      MulLt(py, q, Row(img));
    } else if px >= k {
      MulLe(k, px, img.bpp);
    } else {
      MulLt(px, k, img.bpp);
    }
  }

  lemma EndIs(n: nat, img: Image, q: nat, k: nat, px: nat, py: nat)
    requires img.Valid() && Split(n, img, q, k) && 0 < k && k * img.bpp <= img.row && px < img.width
    ensures img.At(px, py) + img.bpp <= n <==> Ahead(px, py, q, k)
  {
    MulLt(px, img.width, img.bpp);
    if py > q {
      MulLt(q, py, Row(img));
    } else if py < q {
      MulLt(py, q, Row(img));
    } else if px < k {
      MulLt(px, k, img.bpp);
    } else {
      MulLe(k, px, img.bpp);
    }
  }

  /** Buffer position of a pixel of a region. */
  function Position(r: Region, img: Image, px: nat, py: nat): nat
    requires r.Has(px, py)
  {
    r.offset + (py - r.y) * img.row + (px - r.x) * img.bpp
  }

  /** The region's first pixel is where the segment has it. */
  predicate Anchored(r: Region, s: Segment, img: Image) {
    r.offset + s.start == s.source + img.At(r.x, r.y)
  }

  lemma AnchoredPosition(r: Region, s: Segment, img: Image, px: nat, py: nat)
    requires Anchored(r, s, img) && r.Has(px, py)
    ensures Position(r, img, px, py) + s.start == s.source + img.At(px, py)
  {
    assert (py - r.y) * img.row == py * img.row - r.y * img.row;
    assert (px - r.x) * img.bpp == px * img.bpp - r.x * img.bpp;
  }

  ghost predicate HasSome(rs: seq<Region>, px: nat, py: nat) { exists i :: 0 <= i < |rs| && rs[i].Has(px, py) }

  lemma HasConcat(a: seq<Region>, b: seq<Region>, px: nat, py: nat)
    ensures HasSome(a + b, px, py) <==> HasSome(a, px, py) || HasSome(b, px, py)
  {
    if HasSome(a, px, py) { var i :| 0 <= i < |a| && a[i].Has(px, py); assert (a + b)[i].Has(px, py); }
    if HasSome(b, px, py) { var i :| 0 <= i < |b| && b[i].Has(px, py); assert (a + b)[|a| + i].Has(px, py); }
  }

  /** Rectangles from top to bottom that make up a stretch of the image in reading order. */
  ghost predicate Tiles(rs: seq<Region>, w: nat, q: nat, k: nat, q': nat, k': nat) {
    && (forall i :: 0 <= i < |rs| ==> rs[i].w > 0 && rs[i].h > 0)
    && (forall i, j :: 0 <= i < j < |rs| ==> rs[i].y + rs[i].h <= rs[j].y)
    && (forall px: nat, py: nat :: HasSome(rs, px, py) <==> px < w && NotBefore(px, py, q, k) && Ahead(px, py, q', k'))
  }

  /** First row, whole rows, last row: each only when there is something to it. */
  function Parts(first: Region, mid: Region, last: Region, hasFirst: bool, hasMid: bool, hasLast: bool): seq<Region> {
    (if hasFirst then [first] else []) + ((if hasMid then [mid] else []) + (if hasLast then [last] else []))
  }

  lemma OptionalHas(r: Region, c: bool, px: nat, py: nat)
    ensures HasSome(if c then [r] else [], px, py) <==> c && r.Has(px, py)
  {
    if c && r.Has(px, py) { assert [r][0].Has(px, py); }
  }

  lemma PartsHas(first: Region, mid: Region, last: Region, hasFirst: bool, hasMid: bool, hasLast: bool, px: nat,
                 py: nat)
    ensures HasSome(Parts(first, mid, last, hasFirst, hasMid, hasLast), px, py) <==>
      (hasFirst && first.Has(px, py)) || (hasMid && mid.Has(px, py)) || (hasLast && last.Has(px, py))
  {
    var a, b, c := if hasFirst then [first] else [], if hasMid then [mid] else [], if hasLast then [last] else [];
    HasConcat(a, b + c, px, py);
    HasConcat(b, c, px, py);
    OptionalHas(first, hasFirst, px, py);
    OptionalHas(mid, hasMid, px, py);
    OptionalHas(last, hasLast, px, py);
  }

  lemma TilesMany(o1: nat, o2: nat, o3: nat, w: nat, q: nat, k: nat, q': nat, k': nat, midStart: nat, midEnd: nat)
    requires q < q' && k < w && 0 < k' <= w
    requires midStart == (if k == 0 then q else q + 1) && midEnd == (if k' >= w then q' else q' - 1)
    ensures midEnd + 1 >= midStart
    ensures Tiles(Parts(Region(o1, k, q, w - k, 1), Region(o2, 0, midStart, w, midEnd + 1 - midStart),
                        Region(o3, 0, q', k', 1), k > 0, midEnd >= midStart, k' < w), w, q, k, q', k')
  {
    var first, mid, last :=
      Region(o1, k, q, w - k, 1), Region(o2, 0, midStart, w, midEnd + 1 - midStart), Region(o3, 0, q', k', 1);
    var rs := Parts(first, mid, last, k > 0, midEnd >= midStart, k' < w);
    forall px: nat, py: nat
      ensures HasSome(rs, px, py) <==> px < w && NotBefore(px, py, q, k) && Ahead(px, py, q', k') {
      PartsHas(first, mid, last, k > 0, midEnd >= midStart, k' < w, px, py);
    }
  }

  lemma TilesOne(o: nat, w: nat, q: nat, k: nat, k': nat)
    requires k < k' <= w
    ensures Tiles([Region(o, k, q, k' - k, 1)], w, q, k, q, k')
  {
    var r := Region(o, k, q, k' - k, 1);
    forall px: nat, py: nat
      ensures HasSome([r], px, py) <==> px < w && NotBefore(px, py, q, k) && Ahead(px, py, q, k') {
      OptionalHas(r, true, px, py);
    }
  }

  /** The regions are exactly the pixels of the segment, each once, in the right place, inside the image. */
  ghost predicate Exact(rs: seq<Region>, s: Segment, img: Image) {
    && (forall i :: 0 <= i < |rs| ==> rs[i].w > 0 && rs[i].h > 0)
    && (forall i :: 0 <= i < |rs| ==> rs[i].x + rs[i].w <= img.width && rs[i].y + rs[i].h <= img.height)
    && (forall i, j :: 0 <= i < j < |rs| ==> rs[i].y + rs[i].h <= rs[j].y)
    && (forall px: nat, py: nat :: HasSome(rs, px, py) <==> In(s, img, px, py))
    && (forall i, px: nat, py: nat :: 0 <= i < |rs| && rs[i].Has(px, py) ==>
         Position(rs[i], img, px, py) + s.start == s.source + img.At(px, py))
  }

  /** The first and last texel of the segment that are inside the image. */
  ghost predicate Clipped(s: Segment, img: Image, q: nat, k: nat, q': nat, k': nat) {
    && k < img.width && 0 < k' <= img.width && q' < img.height
    && forall px: nat, py: nat :: In(s, img, px, py) <==>
         px < img.width && NotBefore(px, py, q, k) && Ahead(px, py, q', k')
  }

  lemma TilesExact(rs: seq<Region>, s: Segment, img: Image, q: nat, k: nat, q': nat, k': nat)
    requires Clipped(s, img, q, k, q', k') && Tiles(rs, img.width, q, k, q', k')
    requires forall i :: 0 <= i < |rs| ==>
      Anchored(rs[i], s, img) && rs[i].x + rs[i].w <= img.width && rs[i].y + rs[i].h <= img.height
    ensures Exact(rs, s, img)
  {
    hide In, HasSome, NotBefore, Ahead, Position, Anchored;
    forall i, px: nat, py: nat | 0 <= i < |rs| && rs[i].Has(px, py)
      ensures Position(rs[i], img, px, py) + s.start == s.source + img.At(px, py) {
      AnchoredPosition(rs[i], s, img, px, py);
    }
  }

  lemma NoneExact(s: Segment, img: Image, q: nat, k: nat, q': nat, k': nat)
    requires Clipped(s, img, q, k, q', k') && (q > q' || (q == q' && k >= k'))
    ensures Exact([], s, img)
  {
  }

  /** Row and column of the first texel, and of the end of the last. */
  ghost predicate Located(s: Segment, img: Image, q: nat, k: nat, q': nat, k': nat) {
    && Split(s.start, img, q, k) && k * img.bpp < img.row
    && Split(s.end, img, q', k') && 0 < k' && k' * img.bpp <= img.row && q' < img.height
  }

  method Locate(s: Segment, img: Image) returns (q: nat, k: nat, q': nat, k': nat)
    requires img.Valid() && Texels(s, img)
    ensures Located(s, img, q, k, q', k')
  {
    StartSplit(s, img);
    EndSplit(s, img);
    hide Split, Texels;
    var row := Row(img);
    q, q' := s.start / row, (s.end - 1) / row;
    k, k' := s.start % row / img.bpp, 1 + (s.end - 1) % row / img.bpp;
  }

  /** Columns past the last one count as the start of the next row, or as the end of this one. */
  lemma ClippedIs(s: Segment, img: Image, q: nat, k: nat, q': nat, k': nat)
    requires img.Valid() && Located(s, img, q, k, q', k')
    ensures Clipped(s, img, if k >= img.width then q + 1 else q, if k >= img.width then 0
                    else k, q', if k' > img.width then img.width else k')
  {
    var w := img.width;
    var q1, k1, k2 := if k >= w then q + 1 else q, if k >= w then 0 else k, if k' > w then w else k';
    hide Split;
    forall px: nat, py: nat
      ensures In(s, img, px, py) <==> px < w && NotBefore(px, py, q1, k1) && Ahead(px, py, q', k2) {
      if px < w {
        StartIs(s.start, img, q, k, px, py);
        EndIs(s.end, img, q', k', px, py);
        hide Image.At;
      }
    }
  }

  /** The start of the next row, when `off` is where column `k` of row `q` is. */
  lemma NextRow(s: Segment, img: Image, off: nat, q: nat, k: nat)
    requires off + s.start == s.source + img.At(k, q) && k * img.bpp <= img.row
    ensures off + (img.row - k * img.bpp) + s.start == s.source + img.At(0, q + 1)
  {
    assert (q + 1) * img.row == q * img.row + img.row;
  }

  lemma LaterRow(s: Segment, img: Image, off: nat, q: nat, n: nat)
    requires off + s.start == s.source + img.At(0, q)
    ensures Advance(off, img.row, n) + s.start == s.source + img.At(0, q + n)
  {
    assert (q + n) * img.row == q * img.row + img.row * n;
  }

  lemma ClippedFacts(s: Segment, img: Image, q: nat, k: nat, q': nat, k': nat)
    requires Clipped(s, img, q, k, q', k')
    ensures k < img.width && 0 < k' <= img.width && q' < img.height
  {
  }

  /** A segment that spans several rows: part of a row, whole rows, part of a row. */
  method SeveralRows(s: Segment, img: Image, sourceOffset: nat, startRow: nat, startPos: nat, endRow: nat,
                     endPos: nat) returns (rs: seq<Region>)
    requires Clipped(s, img, startRow, startPos, endRow, endPos) && startRow < endRow
    requires sourceOffset + s.start == s.source + img.At(startPos, startRow) && startPos * img.bpp <= img.row
    ensures Exact(rs, s, img)
  {
    hide Exact, Clipped, Tiles, Image.At;
    ClippedFacts(s, img, startRow, startPos, endRow, endPos);
    var rowLength, w := img.row, img.width;
    var midStart, midRowStart := startRow, sourceOffset;
    if startPos != 0 {
      NextRow(s, img, sourceOffset, startRow, startPos);
      midStart, midRowStart := startRow + 1, sourceOffset + (rowLength - startPos * img.bpp);
    }
    var midEnd: nat := if endPos >= w then endRow else endRow - 1;
    assert midEnd + 1 >= midStart;
    var rows: nat := midEnd + 1 - midStart;
    LaterRow(s, img, midRowStart, midStart, rows);
    var adv2: nat := Advance(midRowStart, rowLength, rows);
    TilesMany(sourceOffset, midRowStart, adv2, w, startRow, startPos, endRow, endPos, midStart, midEnd);
    rs := [];
    if startPos > 0 { rs := rs + [Region(sourceOffset, startPos, startRow, w - startPos, 1)]; }
    if midEnd >= midStart { rs := rs + [Region(midRowStart, 0, midStart, w, rows)]; }
    if endPos < w { rs := rs + [Region(adv2, 0, endRow, endPos, 1)]; }
    assert rs == Parts(Region(sourceOffset, startPos, startRow, w - startPos, 1),
                       Region(midRowStart, 0, midStart, w, rows),
                       Region(adv2, 0, endRow, endPos, 1), startPos > 0, midEnd >= midStart, endPos < w);
    TilesExact(rs, s, img, startRow, startPos, endRow, endPos);
  }

  function Advance(offset: nat, row: nat, n: nat): nat { offset + row * n }

  /** The copies for one segment. */
  method SegmentRegions(s: Segment, img: Image) returns (rs: seq<Region>)
    requires img.Valid() && Texels(s, img)
    ensures Exact(rs, s, img)
  {
    var startRow, startPos, endRow, endPos := Locate(s, img);
    ClippedIs(s, img, startRow, startPos, endRow, endPos);
    StartAnchored(s, img, startRow, startPos);
    hide Texels, Exact, Clipped, Tiles, Image.At, Split, Image.Valid;
    var rowLength, w := img.row, img.width;
    var sourceOffset := s.source;
    if startPos >= w {
      NextRow(s, img, sourceOffset, startRow, startPos);
      sourceOffset := sourceOffset + (rowLength - startPos * img.bpp);
      startPos, startRow := 0, startRow + 1;
    }
    if endPos > w {
      endPos := w;
    }
    ClippedFacts(s, img, startRow, startPos, endRow, endPos);
    if startRow > endRow || (startRow == endRow && startPos >= endPos) {
      NoneExact(s, img, startRow, startPos, endRow, endPos);
      rs := [];
    } else if startRow == endRow {
      rs := [Region(sourceOffset, startPos, startRow, endPos - startPos, 1)];
      TilesOne(sourceOffset, w, startRow, startPos, endPos);
      TilesExact(rs, s, img, startRow, startPos, endRow, endPos);
    } else {
      rs := SeveralRows(s, img, sourceOffset, startRow, startPos, endRow, endPos);
    }
  }

  lemma StartAnchored(s: Segment, img: Image, q: nat, k: nat)
    requires Split(s.start, img, q, k)
    ensures s.source + s.start == s.source + img.At(k, q)
  {
  }

  ghost predicate InSome(segments: seq<Segment>, img: Image, px: nat, py: nat) {
    exists k :: 0 <= k < |segments| && In(segments[k], img, px, py)
  }

  /** Some segment has the pixel at that buffer position. */
  ghost predicate PlacedBy(segments: seq<Segment>, img: Image, px: nat, py: nat, pos: nat) {
    exists k :: 0 <= k < |segments| && In(segments[k], img, px, py) &&
      pos + segments[k].start == segments[k].source + img.At(px, py)
  }

  predicate Disjoint(segments: seq<Segment>) {
    forall j, k :: 0 <= j < k < |segments| ==>
      segments[j].end <= segments[k].start || segments[k].end <= segments[j].start
  }

  predicate HasByte(s: Segment, x: int) { s.start <= x < s.end }

  /** Disjoint segments are those of which no two share a byte of the view. */
  lemma DisjointIsNoSharing(segments: seq<Segment>)
    requires forall j :: 0 <= j < |segments| ==> segments[j].start < segments[j].end
    ensures Disjoint(segments) <==>
      forall j, k, x :: 0 <= j < k < |segments| && HasByte(segments[j], x) ==> !HasByte(segments[k], x)
  {
    if !Disjoint(segments) {
      var j, k :| 0 <= j < k < |segments| &&
        !(segments[j].end <= segments[k].start || segments[k].end <= segments[j].start);
      var x := Max(segments[j].start, segments[k].start);
      assert HasByte(segments[j], x) && HasByte(segments[k], x);
    }
  }

  /** The regions are exactly the pixels of the segments, in the right places, and never one twice. */
  ghost predicate Planned(regions: seq<Region>, segments: seq<Segment>, img: Image) {
    && (forall i :: 0 <= i < |regions| ==> regions[i].w > 0 && regions[i].h > 0)
    && (forall i :: 0 <= i < |regions| ==>
         regions[i].x + regions[i].w <= img.width && regions[i].y + regions[i].h <= img.height)
    && (forall px: nat, py: nat :: HasSome(regions, px, py) <==> InSome(segments, img, px, py))
    && (forall i, px: nat, py: nat :: 0 <= i < |regions| && regions[i].Has(px, py) ==>
         PlacedBy(segments, img, px, py, Position(regions[i], img, px, py)))
    && (Disjoint(segments) ==>
         forall i, j, px: nat, py: nat :: 0 <= i < j < |regions| ==>
           !(regions[i].Has(px, py) && regions[j].Has(px, py)))
  }

  lemma InMore(segments: seq<Segment>, s: Segment, img: Image, px: nat, py: nat)
    ensures InSome(segments + [s], img, px, py) <==> InSome(segments, img, px, py) || In(s, img, px, py)
  {
    hide In;
    if InSome(segments, img, px, py) {
      var k :| 0 <= k < |segments| && In(segments[k], img, px, py);
      assert In((segments + [s])[k], img, px, py);
    }
    if In(s, img, px, py) { assert (segments + [s])[|segments|] == s; }
  }

  lemma PlacedMore(segments: seq<Segment>, s: Segment, img: Image, px: nat, py: nat, pos: nat)
    requires PlacedBy(segments, img, px, py, pos) || (In(s, img, px, py) && pos + s.start == s.source + img.At(px, py))
    ensures PlacedBy(segments + [s], img, px, py, pos)
  {
    hide In, Image.At;
    var all := segments + [s];
    if PlacedBy(segments, img, px, py, pos) {
      var k :| 0 <= k < |segments| && In(segments[k], img, px, py) &&
        pos + segments[k].start == segments[k].source + img.At(px, py);
      assert all[k] == segments[k];
    } else {
      assert all[|segments|] == s;
    }
  }

  lemma Clash(segments: seq<Segment>, s: Segment, img: Image, px: nat, py: nat)
    requires img.bpp > 0 && Disjoint(segments + [s]) && InSome(segments, img, px, py)
    ensures !In(s, img, px, py)
  {
    var k :| 0 <= k < |segments| && In(segments[k], img, px, py);
    assert (segments + [s])[k] == segments[k] && (segments + [s])[|segments|] == s;
  }

  lemma DisjointInit(segments: seq<Segment>, s: Segment)
    requires Disjoint(segments + [s])
    ensures Disjoint(segments)
  {
    assert forall k :: 0 <= k < |segments| ==> (segments + [s])[k] == segments[k];
  }

  lemma HasAt(rs: seq<Region>, i: nat, px: nat, py: nat)
    requires i < |rs| && rs[i].Has(px, py)
    ensures HasSome(rs, px, py)
  {
  }

  lemma NeverTwice(regions: seq<Region>, segments: seq<Segment>, img: Image, rs: seq<Region>, s: Segment, i: nat,
                   j: nat, px: nat, py: nat)
    requires img.bpp > 0 && Planned(regions, segments, img) && Exact(rs, s, img) && Disjoint(segments + [s])
    requires i < j < |regions + rs|
    ensures !((regions + rs)[i].Has(px, py) && (regions + rs)[j].Has(px, py))
  {
    DisjointInit(segments, s);
    var n := |regions|;
    hide PlacedBy, Position, In, InSome, HasSome, Disjoint;
    if i < n <= j && (regions + rs)[i].Has(px, py) && (regions + rs)[j].Has(px, py) {
      HasAt(regions, i, px, py);
      HasAt(rs, j - n, px, py);
      Clash(segments, s, img, px, py);
    }
  }

  lemma PlannedMore(regions: seq<Region>, segments: seq<Segment>, img: Image, rs: seq<Region>, s: Segment)
    requires img.bpp > 0 && Planned(regions, segments, img) && Exact(rs, s, img)
    ensures Planned(regions + rs, segments + [s], img)
  {
    var all, segs := regions + rs, segments + [s];
    forall i, j, px: nat, py: nat | Disjoint(segs) && 0 <= i < j < |all|
      ensures !(all[i].Has(px, py) && all[j].Has(px, py)) {
      NeverTwice(regions, segments, img, rs, s, i, j, px, py);
    }
    hide PlacedBy, Position, In, InSome, HasSome, Disjoint;
    forall px: nat, py: nat ensures HasSome(all, px, py) <==> InSome(segs, img, px, py) {
      HasConcat(regions, rs, px, py);
      InMore(segments, s, img, px, py);
    }
    forall i, px: nat, py: nat | 0 <= i < |all| && all[i].Has(px, py)
      ensures PlacedBy(segs, img, px, py, Position(all[i], img, px, py)) {
      if i >= |regions| { HasAt(rs, i - |regions|, px, py); }
      PlacedMore(segments, s, img, px, py, Position(all[i], img, px, py));
    }
  }

  /** Plan the copies for a list of segments. */
  method MakeCopyRegions(segments: seq<Segment>, img: Image) returns (regions: seq<Region>)
    requires img.Valid() && forall k :: 0 <= k < |segments| ==> Texels(segments[k], img)
    ensures Planned(regions, segments, img)
  {
    hide Planned, Texels, Exact;
    regions := [];
    NothingPlanned(img);
    assert segments[..0] == [];
    for k := 0 to |segments|
      invariant Planned(regions, segments[..k], img)
    {
      var rs := SegmentRegions(segments[k], img);
      PlannedMore(regions, segments[..k], img, rs, segments[k]);
      assert segments[..k] + [segments[k]] == segments[..k + 1];
      regions := regions + rs;
    }
    assert segments[..|segments|] == segments;
  }

  lemma NothingPlanned(img: Image)
    ensures Planned([], [], img)
  {
  }
}

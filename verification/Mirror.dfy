/** The copy of a buffer that diffs are computed against, with range locks. */
module Mirror {
  import opened Bytes
  import opened Intervals

  predicate Overlap(a: Interval, b: Interval) {
    b.lo < a.hi && a.lo < b.hi
  }

  /** Nonempty ranges overlap exactly when they share a byte. */
  lemma OverlapIsSharing(a: Interval, b: Interval)
    requires a.lo < a.hi && b.lo < b.hi
    ensures Overlap(a, b) <==> exists x :: a.Has(x) && b.Has(x)
  {
    if Overlap(a, b) {
      var x := if a.lo < b.lo then b.lo else a.lo;
      assert a.Has(x) && b.Has(x);
    }
  }

  class Mirror {
    var data: array<Byte>
    var ranges: set<Interval>

    /** No two live ranges share a byte. */
    ghost predicate Valid()
      reads this
    {
      && (forall a :: a in ranges ==> a.lo < a.hi)
      && (forall a, b :: a in ranges && b in ranges && a != b ==> !Overlap(a, b))
    }

    constructor (size: nat)
      ensures Valid() && ranges == {} && fresh(data) && data.Length == size
      ensures forall i :: 0 <= i < size ==> data[i] == 0
    {
      data := new Byte[size](i => 0);
      ranges := {};
    }

    /**
     * Lock a range. An empty range or one that overlaps a live range is refused.
     * A range past the end is refused as well, but stays recorded.
     */
    method GetMutRange(span: Interval) returns (got: bool)
      requires Valid()
      modifies this`ranges
      ensures Valid()
      ensures got <==> span.lo < span.hi <= data.Length && forall a :: a in old(ranges) ==> !Overlap(a, span)
      ensures ranges == if span.lo < span.hi && (forall a :: a in old(ranges) ==> !Overlap(a, span))
        then old(ranges) + {span} else old(ranges)
    {
      if span.hi <= span.lo {
        return false;
      }
      var todo := ranges;
      while todo != {}
        invariant todo <= ranges && forall a :: a in ranges - todo ==> !Overlap(a, span)
        decreases |todo|
      {
        var sp :| sp in todo;
        if Overlap(sp, span) {
          return false;
        }
        todo := todo - {sp};
      }
      ranges := ranges + {span};
      return span.hi <= data.Length;
    }

    /** Drop a lock. */
    method Release(span: Interval)
      requires Valid()
      modifies this`ranges
      ensures Valid() && ranges == old(ranges) - {span}
    {
      ranges := ranges - {span};
    }

    /** Grow the copy; the new bytes are zero. Nothing may be locked. */
    method Extend(newSize: nat)
      requires Valid() && ranges == {} && data.Length <= newSize
      modifies this`data
      ensures Valid() && data.Length == newSize
      ensures data[..old(data.Length)] == old(data[..])
      ensures forall i :: old(data.Length) <= i < newSize ==> data[i] == 0
      ensures newSize == old(data.Length) ==> data == old(data)
    {
      if newSize == data.Length {
        return;
      }
      var was := data;
      data := new Byte[newSize](i requires 0 <= i reads was => if i < was.Length then was[i] else 0);
    }
  }
}

/** The address ranges that leases and the local cache are made of. */
module Blocks {
  import opened Words

  /** An inclusive address range. Leases and cache entries are such ranges. */
  datatype SimpleRange = SimpleRange(start: uint32, end: uint32) {

    /** The overlap test of the source: one end of this range lies in the other. */
    predicate Overlaps(o: SimpleRange) {
      || o.start <= start <= o.end
      || o.start <= end <= o.end
    }

    predicate Match(o: SimpleRange) {
      start == o.start && end == o.end
    }

    predicate Has(a: int) {
      start <= a <= end
    }

    /** The number of addresses, in 32-bit arithmetic. */
    function Size(): uint32 {
      Add32(Sub32(end, start), 1)
    }

    function HostSize(): (n: nat)
      ensures Size() != 0 ==> Pow2(n) <= Size() < Pow2(n + 1)
      ensures n < 32
    {
      Log2Below32(Size());
      if Size() != 0 then Log2Floor(Size()); Log2(Size()) else Log2(Size())
    }

    /** Keeps the start and cuts the size to a power of two. */
    function Canonicalize(): SimpleRange {
      Segment(start, HostSize())
    }
  }

  /** The range of `2^n` addresses from `start`, in 32-bit arithmetic. */
  function Segment(start: uint32, n: nat): SimpleRange
    requires n < 32
  {
    Pow2Below32(n);
    SimpleRange(start, Sub32(Add32(start, Pow2(n)), 1))
  }

  /** `b` is a block of `num` consecutive addresses below 2^32. */
  predicate IsBlock(b: SimpleRange, num: nat) {
    b.end == b.start + num - 1
  }

  predicate Intersects(a: SimpleRange, b: SimpleRange) {
    a.start <= b.end && b.start <= a.end
  }

  ghost predicate PairwiseDisjoint(s: seq<SimpleRange>) {
    forall i, j :: 0 <= i < j < |s| ==> !Intersects(s[i], s[j])
  }

  ghost predicate AllBlocks(s: seq<SimpleRange>, num: nat) {
    forall b :: b in s ==> IsBlock(b, num)
  }

  /** Intersection is what it says: a common address. */
  lemma IntersectsMeansCommonAddress(a: SimpleRange, b: SimpleRange)
    requires a.start <= a.end && b.start <= b.end
    ensures Intersects(a, b) <==> exists x: uint32 :: a.Has(x) && b.Has(x)
  {
    if Intersects(a, b) {
      var x := Max(a.start, b.start);
      assert a.Has(x) && b.Has(x);
    }
  }

  /** The source's test is one-sided: it misses exactly the case of a range that strictly contains the other. */
  lemma OverlapsExactly(a: SimpleRange, b: SimpleRange)
    requires a.start <= a.end && b.start <= b.end
    ensures a.Overlaps(b) <==> (exists x: uint32 :: a.Has(x) && b.Has(x)) && !(a.start < b.start && b.end < a.end)
  {
    IntersectsMeansCommonAddress(a, b);
  }

  /** On blocks of one size the one-sided test is intersection, hence symmetric. */
  lemma BlockOverlapIsIntersection(a: SimpleRange, b: SimpleRange, num: nat)
    requires 1 <= num && IsBlock(a, num) && IsBlock(b, num)
    ensures a.Overlaps(b) <==> Intersects(a, b)
    ensures a.Match(b) <==> a == b
  {
  }

  /** Canonical ranges are a fixed point, and a range that does not wrap only shrinks. */
  lemma CanonicalizeIdempotent(r: SimpleRange)
    ensures r.Canonicalize().Canonicalize() == r.Canonicalize()
    ensures r.Canonicalize().start == r.start
    ensures r.start <= r.end && r.Size() != 0 ==> r.start <= r.Canonicalize().end <= r.end
  {
    var n := r.HostSize();
    SegmentHostSize(r.start, n);
    Pow2Below32(n);
    SegmentShape(r.start, Pow2(n));
  }

  lemma SegmentShape(start: uint32, p: nat)
    requires 1 <= p <= 0x8000_0000
    ensures var end := Sub32(Add32(start, p), 1);
            && end == (if start + p - 1 < TWO32 then start + p - 1 else start + p - 1 - TWO32)
            && Add32(Sub32(end, start), 1) == p
  {
  }

  /** `HostSize` recovers the exponent of a power-of-two segment. */
  lemma SegmentHostSize(start: uint32, n: nat)
    requires n < 32
    ensures Segment(start, n).HostSize() == n
    ensures Segment(start, n).Size() == Pow2(n)
  {
    Pow2Below32(n);
    SegmentShape(start, Pow2(n));
    Log2OfPow2(n);
  }

  lemma SameSizeSameEnd(a: SimpleRange, b: SimpleRange)
    requires a.start == b.start
    ensures a.Size() == b.Size() <==> a == b
  {
    SizeValue(a);
    SizeValue(b);
  }

  lemma SizeValue(a: SimpleRange)
    ensures var d := a.end - a.start + 1; a.Size() == (if d < 0 then d + TWO32 else if d == TWO32 then 0 else d)
  {
  }

  /** Canonicalising changes nothing exactly for the ranges of a power-of-two size. */
  lemma CanonicalExactly(r: SimpleRange)
    requires r.Size() != 0
    ensures r.Canonicalize() == r <==> r.Size() == Pow2(r.HostSize())
    ensures r.Size() == Pow2(r.HostSize()) <==> exists n: nat :: n < 32 && r.Size() == Pow2(n)
  {
    SegmentHostSize(r.start, r.HostSize());
    SameSizeSameEnd(r, r.Canonicalize());
    if n: nat :| n < 32 && r.Size() == Pow2(n) {
      Log2OfPow2(n);
    }
  }

  lemma BlockIsSegment(b: SimpleRange, n: nat)
    requires n < 32 && IsBlock(b, Pow2(n))
    ensures b == Segment(b.start, n)
    ensures b.HostSize() == n && b.Canonicalize() == b
  {
    Pow2Below32(n);
    SegmentShape(b.start, Pow2(n));
    SegmentHostSize(b.start, n);
  }
}

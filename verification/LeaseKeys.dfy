/** The text keys of the leases: `<dir>/<start, ten digits>-<host bits>`. */
module LeaseKeys {
  import opened Words
  import opened Blocks
  import opened Text

  /** The last element of a key: ten digits, a dash, the host bits. */
  function Name(start: uint32, bits: nat): string {
    Pad(start, 10) + ("-" + Decimal(bits))
  }

  /** ipamSimpleRangeToLease */
  function Encode(dir: string, r: SimpleRange): string {
    dir + "/" + Name(r.start, r.HostSize())
  }

  /** The base name has the form `digits-digits` and both numbers fit. */
  predicate WellFormed(key: string) {
    var parts := Split(Base(key), '-');
    && |parts| >= 2 && AllDigits(parts[0]) && AllDigits(parts[1])
    && ParseNat(parts[0]) < TWO32 && ParseNat(parts[1]) < 32
  }

  /** ipamLeaseToUint32Range and ipamLeaseToSimleRange */
  function Decode(key: string): SimpleRange
    requires WellFormed(key)
  {
    var parts := Split(Base(key), '-');
    Segment(ParseNat(parts[0]), ParseNat(parts[1]))
  }

  lemma NameParts(dir: string, start: uint32, bits: nat)
    ensures Split(Base(dir + "/" + Name(start, bits)), '-') == [Pad(start, 10), Decimal(bits)]
  {
    BaseOfJoin(dir, Name(start, bits));
    assert Name(start, bits) == Pad(start, 10) + ['-'] + Decimal(bits);
    SplitFirst(Pad(start, 10), '-', Decimal(bits));
    SplitNone(Decimal(bits), '-');
  }

  lemma TenDigitsSuffice()
    ensures TWO32 <= Pow10(10)
  {
    assert Pow10(5) == 100000;
  }

  lemma DecodeName(dir: string, start: uint32, bits: nat)
    requires bits < 32
    ensures WellFormed(dir + "/" + Name(start, bits))
    ensures Decode(dir + "/" + Name(start, bits)) == Segment(start, bits)
  {
    NameParts(dir, start, bits);
    TenDigitsSuffice();
    ParsePad(start, 10);
    ParseDecimal(bits);
  }

  /** Writing a range as a key and reading it back gives its canonical form, in any directory. */
  lemma DecodeEncode(dir: string, r: SimpleRange)
    ensures WellFormed(Encode(dir, r))
    ensures Decode(Encode(dir, r)) == r.Canonicalize()
  {
    DecodeName(dir, r.start, r.HostSize());
  }

  /** The round trip is the identity exactly on ranges of a power-of-two size. */
  lemma RoundTripExactly(dir: string, r: SimpleRange)
    requires r.Size() != 0
    ensures WellFormed(Encode(dir, r))
    ensures Decode(Encode(dir, r)) == r <==> exists n: nat :: n < 32 && r.Size() == Pow2(n)
  {
    DecodeEncode(dir, r);
    CanonicalExactly(r);
  }

  /** Two ranges share a key of a directory exactly when their canonical forms agree. */
  lemma EncodeInjective(dir: string, r: SimpleRange, s: SimpleRange)
    ensures Encode(dir, r) == Encode(dir, s) <==> r.Canonicalize() == s.Canonicalize()
  {
    DecodeEncode(dir, r);
    DecodeEncode(dir, s);
    if r.Canonicalize() == s.Canonicalize() {
      SegmentHostSize(r.start, r.HostSize());
      SegmentHostSize(s.start, s.HostSize());
    }
  }

  lemma NameOrder(x: uint32, m: nat, y: uint32, n: nat)
    requires x < y
    ensures LexLess(Name(x, m), Name(y, n)) && !LexLess(Name(y, n), Name(x, m))
  {
    TenDigitsSuffice();
    PadOrder(x, y, 10, "-" + Decimal(m), "-" + Decimal(n));
  }

  /** Keys of one directory sort as bytes exactly as their start addresses sort as numbers. */
  lemma KeyOrder(dir: string, r: SimpleRange, s: SimpleRange)
    requires r.start != s.start
    ensures LexLess(Encode(dir, r), Encode(dir, s)) <==> r.start < s.start
  {
    LexCommonPrefix(dir + "/", Name(r.start, r.HostSize()), Name(s.start, s.HostSize()));
    if r.start < s.start {
      NameOrder(r.start, r.HostSize(), s.start, s.HostSize());
    } else {
      NameOrder(s.start, s.HostSize(), r.start, r.HostSize());
    }
  }

  /** A listing of lease keys in byte order decodes to blocks in address order. */
  lemma SortedKeysAreSortedBlocks(dir: string, keys: seq<string>, blocks: seq<SimpleRange>, n: nat)
    requires n < 32 && |keys| == |blocks|
    requires AllBlocks(blocks, Pow2(n))
    requires forall i :: 0 <= i < |keys| ==> keys[i] == Encode(dir, blocks[i])
    requires forall i, j :: 0 <= i < j < |keys| ==> LexLess(keys[i], keys[j])
    ensures forall i :: 0 <= i < |keys| ==> WellFormed(keys[i]) && Decode(keys[i]) == blocks[i]
    ensures forall i, j :: 0 <= i < j < |blocks| ==> blocks[i].start < blocks[j].start
  {
    forall i | 0 <= i < |keys| ensures WellFormed(keys[i]) && Decode(keys[i]) == blocks[i] {
      DecodeBlockKey(dir, blocks[i], n);
    }
    forall i, j | 0 <= i < j < |blocks| ensures blocks[i].start < blocks[j].start {
      KeyLess(dir, blocks[i], blocks[j], Pow2(n));
    }
  }

  lemma DecodeBlockKey(dir: string, b: SimpleRange, n: nat)
    requires n < 32 && IsBlock(b, Pow2(n))
    ensures WellFormed(Encode(dir, b)) && Decode(Encode(dir, b)) == b
  {
    DecodeEncode(dir, b);
    BlockIsSegment(b, n);
  }

  lemma KeyLess(dir: string, a: SimpleRange, b: SimpleRange, num: nat)
    requires IsBlock(a, num) && IsBlock(b, num)
    requires LexLess(Encode(dir, a), Encode(dir, b))
    ensures a.start < b.start
  {
    if a.start == b.start {
      LexIrreflexive(Encode(dir, a));
    } else {
      KeyOrder(dir, a, b);
    }
  }
}

/** Configured address ranges: canonicalisation, containment, overlap and the validation of a whole configuration. */
module RangeSets {
  import opened Words

  /** A network address and the length of its prefix. */
  datatype Subnet = Subnet(addr: uint32, ones: nat) {

    function Size(): nat
      requires ones <= 32
    {
      Pow2(32 - ones)
    }

    /** The address with its host bits cleared. */
    function Network(a: uint32): nat
      requires ones <= 32
    {
      ClearBits(a, 32 - ones)
    }

    predicate Has(a: uint32)
      requires ones <= 32
    {
      Network(a) == Network(addr)
    }

    /** At least four addresses and no host bits set. */
    predicate Proper() {
      ones <= 30 && Network(addr) == addr
    }

    function Broadcast(): (b: uint32)
      requires Proper()
      ensures addr + 3 <= b == addr + Size() - 1
    {
      LastAddress(this);
      addr + Size() - 1
    }
  }

  /** `a` with its `n` low bits cleared. */
  function ClearBits(a: nat, n: nat): nat {
    if n == 0 then a else 2 * ClearBits(a / 2, n - 1)
  }

  lemma {:induction false} ClearBitsBounds(a: nat, n: nat)
    ensures ClearBits(a, n) <= a < ClearBits(a, n) + Pow2(n)
  {
    if n > 0 {
      ClearBitsBounds(a / 2, n - 1);
    }
  }

  /** An aligned address is the network of exactly the addresses of its segment. */
  lemma {:induction false} ClearBitsExactly(x: nat, a: nat, n: nat)
    requires ClearBits(x, n) == x
    ensures ClearBits(a, n) == x <==> x <= a < x + Pow2(n)
  {
    if n > 0 {
      assert x == 2 * (x / 2) && ClearBits(x / 2, n - 1) == x / 2;
      ClearBitsExactly(x / 2, a / 2, n - 1);
    }
  }

  lemma {:induction false} AlignedBelow(x: nat, n: nat, k: nat)
    requires ClearBits(x, n) == x && n <= k && x < Pow2(k)
    ensures x + Pow2(n) <= Pow2(k)
  {
    if n > 0 {
      assert x == 2 * (x / 2) && ClearBits(x / 2, n - 1) == x / 2;
      AlignedBelow(x / 2, n - 1, k - 1);
    }
  }

  ghost predicate IsMultiple(x: nat, p: nat) {
    exists k: nat :: x == k * p
  }

  lemma {:induction false} ClearBitsMultiple(x: nat, n: nat)
    ensures ClearBits(x, n) == x <==> IsMultiple(x, Pow2(n))
  {
    if n == 0 {
      assert x == x * Pow2(0);
    } else {
      var p := Pow2(n - 1);
      ClearBitsMultiple(x / 2, n - 1);
      assert ClearBits(x, n) == x <==> x % 2 == 0 && ClearBits(x / 2, n - 1) == x / 2;
      if IsMultiple(x, Pow2(n)) {
        var k: nat :| x == k * Pow2(n);
        TwiceMultiple(x, k, p);
        assert x / 2 == k * p;
      }
      if x % 2 == 0 && IsMultiple(x / 2, p) {
        var k: nat :| x / 2 == k * p;
        TwiceMultiple(x, k, p);
        assert x == k * Pow2(n);
      }
    }
  }

  lemma TwiceMultiple(x: nat, k: nat, p: nat)
    ensures x == k * (2 * p) <==> x % 2 == 0 && x / 2 == k * p
  {
    assert k * (2 * p) == 2 * (k * p);
  }

  /** A proper subnet has at least four addresses and begins at a multiple of their number. */
  lemma ProperExactly(s: Subnet)
    requires s.ones <= 32
    ensures s.Proper() <==> 4 <= s.Size() && IsMultiple(s.addr, s.Size())
  {
    ClearBitsMultiple(s.addr, 32 - s.ones);
    assert Pow2(2) == 4 && Pow2(1) == 2;
    if s.ones <= 30 {
      Pow2Monotone(2, 32 - s.ones);
    } else {
      Pow2Monotone(32 - s.ones, 1);
    }
  }

  lemma LastAddress(s: Subnet)
    requires s.Proper()
    ensures s.addr + s.Size() <= TWO32 && 4 <= s.Size()
  {
    Pow2Values();
    AlignedBelow(s.addr, 32 - s.ones, 32);
    Pow2Monotone(2, 32 - s.ones);
    assert Pow2(2) == 4;
  }

  /** A proper subnet holds exactly the addresses from its own to its broadcast address. */
  lemma SubnetHasExactly(s: Subnet, a: uint32)
    requires s.Proper()
    ensures s.Has(a) <==> s.addr <= a <= s.Broadcast()
  {
    ClearBitsExactly(s.addr, a, 32 - s.ones);
  }

  /** A range as the configuration gives it. */
  datatype RawRange = RawRange(subnet: Subnet, start: Option<uint32>, end: Option<uint32>,
                               gateway: Option<uint32>, reserves: seq<uint32>)

  /** A range with everything filled in; both ends are inclusive. */
  datatype Range = Range(subnet: Subnet, start: uint32, end: uint32, gateway: uint32, reserves: seq<uint32>) {

    predicate Contains(a: uint32) {
      subnet.ones <= 32 && subnet.Has(a) && start <= a <= end
    }

    predicate Overlaps(r: Range) {
      Contains(r.start) || Contains(r.end) || r.Contains(start) || r.Contains(end)
    }

    /** What canonicalisation leaves: ends inside a proper subnet, in order but for one case. */
    predicate Valid() {
      && subnet.Proper()
      && subnet.addr <= start <= subnet.Broadcast()
      && subnet.addr <= end <= subnet.Broadcast()
      && (start <= end || (start == subnet.Broadcast() && end == start - 1))
    }
  }

  datatype LoadError =
    | NoRanges | EmptySet | TooSmall | HostBits | BadStart | BadEnd | RangesOverlap | SetsOverlap | TooManySets
  datatype Result<+T> = Ok(value: T) | Err(error: LoadError)

  /** The addresses a specified end or start may take, in the order the source tests them. */
  predicate Acceptable(r: RawRange) {
    && r.subnet.Proper()
    && (r.start.Some? ==> r.subnet.Has(r.start.value) && (r.end.Some? ==> r.start.value <= r.end.value))
    && (r.end.Some? ==> r.subnet.Has(r.end.value) && r.subnet.addr + (if r.start.None? then 1 else 0) <= r.end.value)
  }

  function Canonical(r: RawRange): Range
    requires r.subnet.Proper()
  {
    LastAddress(r.subnet);
    Range(r.subnet,
          if r.start.Some? then r.start.value else r.subnet.addr + 1,
          if r.end.Some? then r.end.value else r.subnet.Broadcast() - 1,
          if r.gateway.Some? then r.gateway.value else r.subnet.addr + 1,
          r.reserves)
  }

  /** Range.Canonicalize */
  method Canonicalize(raw: RawRange) returns (res: Result<Range>)
    ensures res.Ok? <==> Acceptable(raw)
    ensures res.Ok? ==> res.value == Canonical(raw)
  {
    if 30 < raw.subnet.ones {
      return Err(TooSmall);
    }
    ClearBitsBounds(raw.subnet.addr, 32 - raw.subnet.ones);
    if raw.subnet.Network(raw.subnet.addr) != raw.subnet.addr {
      return Err(HostBits);
    }
    LastAddress(raw.subnet);
    var gateway := if raw.gateway.None? then raw.subnet.addr + 1 else raw.gateway.value;
    var start := raw.subnet.addr + 1;
    if raw.start.Some? {
      start := raw.start.value;
      if !raw.subnet.Has(start) || (raw.end.Some? && raw.end.value < start) {
        return Err(BadStart);
      }
    }
    var end := raw.subnet.Broadcast() - 1;
    if raw.end.Some? {
      end := raw.end.value;
      SubnetHasExactly(raw.subnet, end);
      if !raw.subnet.Has(end) || end < start {
        return Err(BadEnd);
      }
    }
    if raw.start.Some? { SubnetHasExactly(raw.subnet, start); }
    res := Ok(Range(raw.subnet, start, end, gateway, raw.reserves));
  }

  /** A canonical range is valid, and its ends are out of order only for an explicit start at the
      broadcast address with a defaulted end. */
  lemma CanonicalValid(raw: RawRange)
    requires Acceptable(raw)
    ensures Canonical(raw).Valid()
    ensures Canonical(raw).end < Canonical(raw).start <==>
            raw.start == Some(raw.subnet.Broadcast()) && raw.end.None?
  {
    if raw.start.Some? { SubnetHasExactly(raw.subnet, raw.start.value); }
    if raw.end.Some? { SubnetHasExactly(raw.subnet, raw.end.value); }
  }

  /** A range is accepted exactly if filling in what is missing makes it valid, with a specified end in order. */
  lemma AcceptableExactly(raw: RawRange)
    requires raw.subnet.Proper()
    ensures Acceptable(raw) <==>
            var r := Canonical(raw); r.Valid() && (raw.end.Some? ==> r.start <= r.end)
  {
    if raw.start.Some? { SubnetHasExactly(raw.subnet, raw.start.value); }
    if raw.end.Some? { SubnetHasExactly(raw.subnet, raw.end.value); }
  }

  /** What is specified is kept. Without a gateway the lowest address behind the network address is taken, without ends
      every address but the network and the broadcast address. */
  lemma CanonicalFillsIn(raw: RawRange, a: uint32)
    requires Acceptable(raw)
    ensures var r := Canonical(raw);
            && r.subnet == raw.subnet && r.reserves == raw.reserves
            && (raw.start.Some? ==> raw.start == Some(r.start)) && (raw.end.Some? ==> raw.end == Some(r.end))
            && (raw.gateway.Some? ==> raw.gateway == Some(r.gateway))
            && (raw.gateway.None? ==> r.subnet.Has(r.gateway) && r.gateway != r.subnet.addr
                                      && (r.subnet.Has(a) && a != r.subnet.addr ==> r.gateway <= a))
            && (raw.start.None? ==> (r.Contains(a) <==> r.subnet.Has(a) && a != r.subnet.addr && a <= r.end))
            && (raw.end.None? ==> (r.Contains(a) <==> r.subnet.Has(a) && a != r.subnet.Broadcast() && r.start <= a))
  {
    SubnetHasExactly(raw.subnet, a);
    SubnetHasExactly(raw.subnet, Canonical(raw).gateway);
  }

  lemma ContainsExactly(r: Range, a: uint32)
    requires r.Valid()
    ensures r.Contains(a) <==> r.start <= a <= r.end
  {
    SubnetHasExactly(r.subnet, a);
  }

  ghost predicate Disjoint(r: Range, s: Range) {
    !exists a: uint32 :: r.Contains(a) && s.Contains(a)
  }

  /** The overlap test is symmetric, and for ordered ends it is the existence of a common address. */
  lemma OverlapsMeansCommonAddress(r: Range, s: Range)
    requires r.Valid() && s.Valid()
    ensures r.Overlaps(s) <==> s.Overlaps(r)
    ensures !r.Overlaps(s) ==> Disjoint(r, s)
    ensures r.start <= r.end && s.start <= s.end ==> (Disjoint(r, s) <==> !r.Overlaps(s))
  {
    forall a: uint32 | r.Contains(a) && s.Contains(a) ensures r.Overlaps(s) {
      ContainsExactly(r, a);
      ContainsExactly(s, a);
      ContainsExactly(r, s.start);
      ContainsExactly(s, r.start);
    }
    if r.start <= r.end && s.start <= s.end && r.Overlaps(s) {
      var a := Max(r.start, s.start);
      ContainsExactly(r, a);
      ContainsExactly(s, a);
      ContainsExactly(r, s.start);
      ContainsExactly(r, s.end);
      ContainsExactly(s, r.start);
      ContainsExactly(s, r.end);
    }
  }

  /* ---------- range sets and whole configurations ---------- */

  predicate SetOverlaps(s: seq<Range>, t: seq<Range>) {
    exists i, j :: 0 <= i < |s| && 0 <= j < |t| && s[i].Overlaps(t[j])
  }

  predicate NoneOverlap(s: seq<Range>) {
    forall i, j :: 0 <= i < j < |s| ==> !s[i].Overlaps(s[j])
  }

  function CanonicalSet(s: seq<RawRange>): (c: seq<Range>)
    requires forall i :: 0 <= i < |s| ==> Acceptable(s[i])
    ensures |c| == |s|
  {
    seq(|s|, i requires 0 <= i < |s| && Acceptable(s[i]) => Canonical(s[i]))
  }

  predicate AcceptableSet(s: seq<RawRange>) {
    && s != []
    && (forall i :: 0 <= i < |s| ==> Acceptable(s[i]))
    && NoneOverlap(CanonicalSet(s))
  }

  /** RangeSet.Overlaps */
  method Overlap(s: seq<Range>, t: seq<Range>) returns (found: bool)
    ensures found <==> SetOverlaps(s, t)
  {
    for i := 0 to |s|
      invariant forall x, y :: 0 <= x < i && 0 <= y < |t| ==> !s[x].Overlaps(t[y])
    {
      for j := 0 to |t|
        invariant forall y :: 0 <= y < j ==> !s[i].Overlaps(t[y])
      {
        if s[i].Overlaps(t[j]) {
          return true;
        }
      }
    }
    return false;
  }

  /** RangeSet.RangeFor: the index of the first range that contains the address. */
  method RangeFor(s: seq<Range>, a: uint32) returns (found: Option<nat>)
    ensures found == FirstContaining(s, a)
  {
    for i := 0 to |s|
      invariant forall x :: 0 <= x < i ==> !s[x].Contains(a)
    {
      if s[i].Contains(a) {
        FirstContainingAt(s, a, i);
        return Some(i);
      }
    }
    FirstContainingNone(s, a);
    return None;
  }

  function FirstContaining(s: seq<Range>, a: uint32): (f: Option<nat>)
    ensures f.Some? ==> f.value < |s| && s[f.value].Contains(a) && forall x :: 0 <= x < f.value ==> !s[x].Contains(a)
    ensures f.None? ==> forall x :: 0 <= x < |s| ==> !s[x].Contains(a)
  {
    if s == [] then None
    else if s[0].Contains(a) then Some(0)
    else
      var f := FirstContaining(s[1..], a);
      assert forall x :: 0 < x < |s| ==> s[x] == s[1..][x - 1];
      if f.None? then None else Some(f.value + 1)
  }

  lemma FirstContainingAt(s: seq<Range>, a: uint32, i: nat)
    requires i < |s| && s[i].Contains(a) && forall x :: 0 <= x < i ==> !s[x].Contains(a)
    ensures FirstContaining(s, a) == Some(i)
  {
    var f := FirstContaining(s, a);
    assert f.Some?;
  }

  lemma FirstContainingNone(s: seq<Range>, a: uint32)
    requires forall x :: 0 <= x < |s| ==> !s[x].Contains(a)
    ensures FirstContaining(s, a) == None
  {
  }

  /** RangeSet.Canonicalize */
  method CanonicalizeSet(s: seq<RawRange>) returns (res: Result<seq<Range>>)
    ensures res.Ok? <==> AcceptableSet(s)
    ensures res.Ok? ==> res.value == CanonicalSet(s)
  {
    if s == [] {
      return Err(EmptySet);
    }
    var c: seq<Range> := [];
    for i := 0 to |s|
      invariant |c| == i
      invariant forall x :: 0 <= x < i ==> Acceptable(s[x]) && c[x] == Canonical(s[x])
    {
      var r := Canonicalize(s[i]);
      if r.Err? {
        return Err(r.error);
      }
      c := c + [r.value];
    }
    assert c == CanonicalSet(s);
    for i := 0 to |c| - 1
      invariant forall x, y :: 0 <= x < i && x < y < |c| ==> !c[x].Overlaps(c[y])
    {
      for j := i + 1 to |c|
        invariant forall y :: i < y < j ==> !c[i].Overlaps(c[y])
      {
        if c[i].Overlaps(c[j]) {
          return Err(RangesOverlap);
        }
      }
    }
    return Ok(c);
  }

  predicate AllAcceptable(sets: seq<seq<RawRange>>) {
    forall i :: 0 <= i < |sets| ==> AcceptableSet(sets[i])
  }

  function CanonicalSets(sets: seq<seq<RawRange>>): (c: seq<seq<Range>>)
    requires AllAcceptable(sets)
    ensures |c| == |sets|
  {
    seq(|sets|, i requires 0 <= i < |sets| && AcceptableSet(sets[i]) => CanonicalSet(sets[i]))
  }

  predicate NoSetsOverlap(c: seq<seq<Range>>) {
    forall i, j :: 0 <= i < j < |c| ==> !SetOverlaps(c[i], c[j])
  }

  /** Which configurations load. `single` says that the CNI version allows one address per family only. */
  predicate Loadable(sets: seq<seq<RawRange>>, single: bool) {
    && sets != []
    && AllAcceptable(sets)
    && (|sets| > 1 ==> !single)
    && NoSetsOverlap(CanonicalSets(sets))
  }

  /** The validation loops of LoadIPAMConfig. */
  method Load(sets: seq<seq<RawRange>>, single: bool) returns (res: Result<seq<seq<Range>>>)
    ensures res.Ok? <==> Loadable(sets, single)
    ensures res.Ok? ==> res.value == CanonicalSets(sets)
  {
    if sets == [] {
      return Err(NoRanges);
    }
    var numV4 := 0;
    var c: seq<seq<Range>> := [];
    for i := 0 to |sets|
      invariant |c| == i == numV4
      invariant forall x :: 0 <= x < i ==> AcceptableSet(sets[x]) && c[x] == CanonicalSet(sets[x])
    {
      var r := CanonicalizeSet(sets[i]);
      if r.Err? {
        return Err(r.error);
      }
      c := c + [r.value];
      numV4 := numV4 + 1;
    }
    assert c == CanonicalSets(sets);
    if numV4 > 1 && single {
      return Err(TooManySets);
    }
    for i := 0 to |c| - 1
      invariant forall x, y :: 0 <= x < i && x < y < |c| ==> !SetOverlaps(c[x], c[y])
    {
      for j := i + 1 to |c|
        invariant forall y :: i < y < j ==> !SetOverlaps(c[i], c[y])
      {
        var clash := Overlap(c[i], c[j]);
        if clash {
          return Err(SetsOverlap);
        }
      }
    }
    return Ok(c);
  }

  /** One address per family leaves exactly the configurations of one set; no loaded set is empty. */
  lemma SingleLoadsExactly(sets: seq<seq<RawRange>>)
    ensures Loadable(sets, true) <==> Loadable(sets, false) && |sets| == 1
    ensures Loadable(sets, false) ==> |sets| >= 1 && forall i :: 0 <= i < |sets| ==> |sets[i]| >= 1
  {
    hide Canonical, Acceptable, NoneOverlap;
  }

  /** After a successful load all ranges, within a set and across sets, are pairwise disjoint. */
  lemma LoadedRangesAreDisjoint(sets: seq<seq<RawRange>>, single: bool, i: nat, a: nat, j: nat, b: nat)
    requires Loadable(sets, single)
    requires i < |sets| && a < |sets[i]| && j < |sets| && b < |sets[j]| && (i, a) != (j, b)
    ensures Canonical(sets[i][a]).Valid() && Canonical(sets[j][b]).Valid()
    ensures Disjoint(Canonical(sets[i][a]), Canonical(sets[j][b]))
  {
    var c := CanonicalSets(sets);
    var r, s := c[i][a], c[j][b];
    CanonicalValid(sets[i][a]);
    CanonicalValid(sets[j][b]);
    assert r == Canonical(sets[i][a]) && s == Canonical(sets[j][b]);
    OverlapsMeansCommonAddress(r, s);
    assert AcceptableSet(sets[i]);
    assert NoneOverlap(CanonicalSet(sets[i]));
    if i < j {
      assert !SetOverlaps(c[i], c[j]);
    } else if j < i {
      assert !SetOverlaps(c[j], c[i]);
    }
  }

  /** Conversely, an accepted family of ordered ranges that fails to load has two ranges with a common address. */
  lemma RejectedRangesIntersect(sets: seq<seq<RawRange>>)
    requires sets != [] && AllAcceptable(sets) && !Loadable(sets, false)
    requires forall i, a :: 0 <= i < |sets| && 0 <= a < |sets[i]| ==>
                              Canonical(sets[i][a]).start <= Canonical(sets[i][a]).end
    ensures exists i, a, j, b ::
              && 0 <= i < j < |sets| && 0 <= a < |sets[i]| && 0 <= b < |sets[j]|
              && !Disjoint(Canonical(sets[i][a]), Canonical(sets[j][b]))
  {
    var c := CanonicalSets(sets);
    var i, j :| 0 <= i < j < |c| && SetOverlaps(c[i], c[j]);
    var a, b :| 0 <= a < |c[i]| && 0 <= b < |c[j]| && c[i][a].Overlaps(c[j][b]);
    CanonicalValid(sets[i][a]);
    CanonicalValid(sets[j][b]);
    OverlapsMeansCommonAddress(Canonical(sets[i][a]), Canonical(sets[j][b]));
    assert !Disjoint(Canonical(sets[i][a]), Canonical(sets[j][b]));
  }
}

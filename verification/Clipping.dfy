/** Cutting the configured ranges down to the blocks that the node has cached. */
module Clipping {
  import opened Words
  import opened Blocks
  import opened RangeSets
  import opened RangeIteration
  import opened DiskStore
  import opened Reconcile

  /** The source's test for a common part: an end of the block lies in the range. */
  predicate Touches(ro: Range, cr: SimpleRange) {
    ro.Contains(cr.start) || ro.Contains(cr.end)
  }

  function Clip(ro: Range, cr: SimpleRange): Range {
    ro.(start := if ro.start < cr.start then cr.start else ro.start,
        end := if ro.end > cr.end then cr.end else ro.end)
  }

  function ClipRange(ro: Range, caches: seq<SimpleRange>): seq<Range> {
    if caches == [] then []
    else (if Touches(ro, caches[0]) then [Clip(ro, caches[0])] else []) + ClipRange(ro, caches[1..])
  }

  function ClipSet(rso: seq<Range>, caches: seq<SimpleRange>): seq<Range> {
    if rso == [] then [] else ClipRange(rso[0], caches) + ClipSet(rso[1..], caches)
  }

  /** A block that the range does not touch and its subnet does not hold is dropped from the cache. */
  predicate Foreign(ro: Range, cr: SimpleRange) {
    !Touches(ro, cr) && !(ro.subnet.ones <= 32 && ro.subnet.Has(cr.start) && ro.subnet.Has(cr.end))
  }

  function PruneRange(ro: Range, caches: seq<SimpleRange>, cache: seq<SimpleRange>): seq<SimpleRange> {
    if caches == [] then cache
    else PruneRange(ro, caches[1..], if Foreign(ro, caches[0]) then Deleted(cache, caches[0]) else cache)
  }

  function PruneSet(rso: seq<Range>, caches: seq<SimpleRange>, cache: seq<SimpleRange>): seq<SimpleRange> {
    if rso == [] then cache else PruneSet(rso[1..], caches, PruneRange(rso[0], caches, cache))
  }

  function PruneSets(origin: seq<seq<Range>>, caches: seq<SimpleRange>, cache: seq<SimpleRange>): seq<SimpleRange> {
    if origin == [] then cache else PruneSets(origin[1..], caches, PruneSet(origin[0], caches, cache))
  }

  predicate SubnetsProper(origin: seq<seq<Range>>) {
    forall i, j :: 0 <= i < |origin| && 0 <= j < |origin[i]| ==> origin[i][j].subnet.ones <= 32
  }

  /** formRangeSets */
  method FormRangeSets(origin: seq<seq<Range>>, store: Store) returns (rss: seq<seq<Range>>)
    requires SubnetsProper(origin)
    modifies store`cache
    ensures |rss| == |origin| && forall i :: 0 <= i < |origin| ==> rss[i] == ClipSet(origin[i], old(store.cache))
    ensures store.cache == PruneSets(origin, old(store.cache), old(store.cache))
  {
    hide Deleted, ClipSet, PruneSet;
    var caches := store.LoadCache();
    rss := [];
    for i := 0 to |origin|
      invariant |rss| == i && forall k :: 0 <= k < i ==> rss[k] == ClipSet(origin[k], caches)
      invariant PruneSets(origin[i..], caches, store.cache) == PruneSets(origin, caches, old(store.cache))
    {
      assert origin[i..][0] == origin[i] && origin[i..][1..] == origin[i + 1..];
      var rs := FormRangeSet(origin[i], caches, store);
      rss := rss + [rs];
    }
    assert origin[|origin|..] == [];
  }

  /** The two inner loops of formRangeSets. */
  method FormRangeSet(rso: seq<Range>, caches: seq<SimpleRange>, store: Store) returns (rs: seq<Range>)
    requires forall j :: 0 <= j < |rso| ==> rso[j].subnet.ones <= 32
    modifies store`cache
    ensures rs == ClipSet(rso, caches)
    ensures store.cache == PruneSet(rso, caches, old(store.cache))
  {
    hide Deleted, Canonicalized;
    rs := [];
    for i := 0 to |rso|
      invariant rs + ClipSet(rso[i..], caches) == ClipSet(rso, caches)
      invariant PruneSet(rso[i..], caches, store.cache) == PruneSet(rso, caches, old(store.cache))
    {
      var ro := rso[i];
      assert rso[i..][0] == ro && rso[i..][1..] == rso[i + 1..];
      ghost var rs0, cache0 := rs, store.cache;
      for j := 0 to |caches|
        invariant rs + ClipRange(ro, caches[j..]) == rs0 + ClipRange(ro, caches)
        invariant PruneRange(ro, caches[j..], store.cache) == PruneRange(ro, caches, cache0)
      {
        var cr := caches[j];
        assert caches[j..][0] == cr && caches[j..][1..] == caches[j + 1..];
        if ro.Contains(cr.start) || ro.Contains(cr.end) {
          var r := ro;
          if ro.start < cr.start { r := r.(start := cr.start); }
          if ro.end > cr.end { r := r.(end := cr.end); }
          assert r == Clip(ro, cr);
          Associate(rs, [r], ClipRange(ro, caches[j + 1..]));
          rs := rs + [r];
        } else {
          assert [] + ClipRange(ro, caches[j + 1..]) == ClipRange(ro, caches[j + 1..]);
          if !(ro.subnet.Has(cr.start) && ro.subnet.Has(cr.end)) {
            store.DeleteCache(cr);
          }
        }
      }
      assert caches[|caches|..] == [];
      Associate(rs0, ClipRange(ro, caches), ClipSet(rso[i + 1..], caches));
    }
    assert rso[|rso|..] == [];
  }

  lemma Associate(a: seq<Range>, b: seq<Range>, c: seq<Range>)
    ensures a + b + c == a + (b + c)
  {
  }

  /* ---------- what clipping means ---------- */

  ghost predicate GoodRange(r: Range) {
    r.Valid() && r.start <= r.end
  }

  ghost predicate GoodRanges(rs: seq<Range>) {
    && (forall r :: r in rs ==> GoodRange(r))
    && (forall i, j :: 0 <= i < j < |rs| ==> Apart(rs[i], rs[j]))
  }

  ghost predicate OrderedBlocks(caches: seq<SimpleRange>) {
    forall c :: c in caches ==> c.start <= c.end
  }

  predicate RangeHas(r: Range, a: int) {
    r.start <= a <= r.end
  }

  ghost predicate Configured(rs: seq<Range>, a: uint32) {
    exists r :: r in rs && RangeHas(r, a)
  }

  ghost predicate Cached(caches: seq<SimpleRange>, a: uint32) {
    exists c :: c in caches && c.Has(a)
  }

  predicate StrictlyContains(c: SimpleRange, r: Range) {
    c.start < r.start && r.end < c.end
  }

  /** A touched block and the range have common addresses, the clipped piece holds exactly these and is the range
      otherwise; an untouched block that has common addresses with the range contains it strictly. */
  lemma ClipExactly(r: Range, c: SimpleRange)
    requires GoodRange(r) && c.start <= c.end
    ensures Touches(r, c) ==>
              GoodRange(Clip(r, c)) && forall a: uint32 :: RangeHas(Clip(r, c), a) <==> RangeHas(r, a) && c.Has(a)
    ensures Clip(r, c).(start := r.start, end := r.end) == r
    ensures !Touches(r, c) ==> (StrictlyContains(c, r) <==> exists a: uint32 :: RangeHas(r, a) && c.Has(a))
  {
    ContainsExactly(r, c.start);
    ContainsExactly(r, c.end);
    if StrictlyContains(c, r) {
      assert RangeHas(r, r.start) && c.Has(r.start);
    }
  }

  lemma {:induction false} ClipRangeMembers(ro: Range, caches: seq<SimpleRange>)
    ensures forall r :: r in ClipRange(ro, caches) <==> exists c :: c in caches && Touches(ro, c) && r == Clip(ro, c)
  {
    if caches != [] {
      ClipRangeMembers(ro, caches[1..]);
      assert forall c :: c in caches <==> c == caches[0] || c in caches[1..];
    }
  }

  lemma {:induction false} ClipSetMembers(rso: seq<Range>, caches: seq<SimpleRange>)
    ensures forall r :: r in ClipSet(rso, caches) <==>
                    exists ro, c :: ro in rso && c in caches && Touches(ro, c) && r == Clip(ro, c)
  {
    if rso != [] {
      ClipRangeMembers(rso[0], caches);
      ClipSetMembers(rso[1..], caches);
      assert forall ro :: ro in rso <==> ro == rso[0] || ro in rso[1..];
    }
  }

  /** The clipped set covers an address exactly when a touched block and its range both hold it. */
  lemma ClipSetCovers(rso: seq<Range>, caches: seq<SimpleRange>, a: uint32)
    requires (forall r :: r in rso ==> GoodRange(r)) && OrderedBlocks(caches)
    ensures Configured(ClipSet(rso, caches), a) <==>
            exists ro, c :: ro in rso && c in caches && Touches(ro, c) && RangeHas(ro, a) && c.Has(a)
  {
    ClipSetMembers(rso, caches);
    if Configured(ClipSet(rso, caches), a) {
      var r :| r in ClipSet(rso, caches) && RangeHas(r, a);
      var ro, c :| ro in rso && c in caches && Touches(ro, c) && r == Clip(ro, c);
      ClipExactly(ro, c);
    }
    if ro, c :| ro in rso && c in caches && Touches(ro, c) && RangeHas(ro, a) && c.Has(a) {
      ClipExactly(ro, c);
      assert Clip(ro, c) in ClipSet(rso, caches) && RangeHas(Clip(ro, c), a);
    }
  }

  lemma SameOwner(rso: seq<Range>, caches: seq<SimpleRange>, ro: Range, ro': Range, c: SimpleRange, c': SimpleRange,
                  a: uint32)
    requires GoodRanges(rso) && OrderedBlocks(caches) && PairwiseDisjoint(caches)
    requires ro in rso && ro' in rso && c in caches && c' in caches
    requires RangeHas(ro, a) && RangeHas(ro', a) && c.Has(a) && c'.Has(a)
    ensures ro == ro' && c == c'
  {
    var i :| 0 <= i < |rso| && rso[i] == ro;
    var j :| 0 <= j < |rso| && rso[j] == ro';
    var k :| 0 <= k < |caches| && caches[k] == c;
    var l :| 0 <= l < |caches| && caches[l] == c';
  }

  /** Clipping keeps exactly the configured addresses that lie in a cached block, if and only if no cached
      block strictly contains a configured range. */
  lemma ClippingExactly(rso: seq<Range>, caches: seq<SimpleRange>)
    requires GoodRanges(rso) && OrderedBlocks(caches) && PairwiseDisjoint(caches)
    ensures (forall a: uint32 :: Configured(ClipSet(rso, caches), a) <==> Configured(rso, a) && Cached(caches, a))
            <==> !exists ro, c :: ro in rso && c in caches && StrictlyContains(c, ro)
  {
    if ro, c :| ro in rso && c in caches && StrictlyContains(c, ro) {
      var a := ro.start;
      assert RangeHas(ro, a) && c.Has(a);
      ClipSetCovers(rso, caches, a);
      if ro', c' :| ro' in rso && c' in caches && Touches(ro', c') && RangeHas(ro', a) && c'.Has(a) {
        SameOwner(rso, caches, ro, ro', c, c', a);
        ContainsExactly(ro, c.start);
        ContainsExactly(ro, c.end);
      }
    } else {
      forall a: uint32 ensures Configured(ClipSet(rso, caches), a) <==> Configured(rso, a) && Cached(caches, a) {
        ClipSetCovers(rso, caches, a);
        if Configured(rso, a) && Cached(caches, a) {
          var ro :| ro in rso && RangeHas(ro, a);
          var c :| c in caches && c.Has(a);
          ClipExactly(ro, c);
        }
      }
    }
  }

  /* ---------- the pieces are disjoint ---------- */

  lemma {:induction false} ClipRangeDisjoint(ro: Range, caches: seq<SimpleRange>)
    requires GoodRange(ro) && OrderedBlocks(caches) && PairwiseDisjoint(caches)
    ensures GoodRanges(ClipRange(ro, caches))
  {
    if caches != [] {
      var rest := caches[1..];
      ClipRangeDisjoint(ro, rest);
      ClipRangeMembers(ro, rest);
      var c, tail := caches[0], ClipRange(ro, rest);
      ClipExactly(ro, c);
      if Touches(ro, c) {
        assert ClipRange(ro, caches) == [Clip(ro, c)] + tail;
        forall j | 0 <= j < |tail| ensures Apart(Clip(ro, c), tail[j]) {
          assert tail[j] in tail;
          var d :| d in rest && Touches(ro, d) && tail[j] == Clip(ro, d);
          var k :| 0 <= k < |rest| && rest[k] == d;
          assert caches[k + 1] == d && !Intersects(caches[0], caches[k + 1]);
        }
      }
    }
  }

  lemma ClipsApart(r: Range, s: Range, c: SimpleRange, d: SimpleRange)
    requires GoodRange(r) && GoodRange(s) && Apart(r, s)
    requires c.start <= c.end && d.start <= d.end && Touches(r, c) && Touches(s, d)
    ensures Apart(Clip(r, c), Clip(s, d))
  {
    ContainsExactly(r, c.start);
    ContainsExactly(r, c.end);
    ContainsExactly(s, d.start);
    ContainsExactly(s, d.end);
  }

  lemma PiecesApart(ro: Range, rest: seq<Range>, caches: seq<SimpleRange>, p: Range, q: Range)
    requires GoodRange(ro) && (forall r :: r in rest ==> GoodRange(r) && Apart(ro, r)) && OrderedBlocks(caches)
    requires p in ClipRange(ro, caches) && q in ClipSet(rest, caches)
    ensures Apart(p, q)
  {
    hide Touches, Clip, ClipRange, ClipSet, Apart, GoodRange;
    ClipRangeMembers(ro, caches);
    ClipSetMembers(rest, caches);
    var c :| c in caches && Touches(ro, c) && p == Clip(ro, c);
    var s, d :| s in rest && d in caches && Touches(s, d) && q == Clip(s, d);
    ClipsApart(ro, s, c, d);
  }

  /** Disjoint configured ranges and disjoint cached blocks give disjoint pieces. */
  lemma {:induction false} ClipSetDisjoint(rso: seq<Range>, caches: seq<SimpleRange>)
    requires GoodRanges(rso) && OrderedBlocks(caches) && PairwiseDisjoint(caches)
    ensures GoodRanges(ClipSet(rso, caches))
  {
    if rso != [] {
      hide Touches, Clip, ClipRange, GoodRange, Apart;
      var rest := rso[1..];
      ClipSetDisjoint(rest, caches);
      ClipRangeDisjoint(rso[0], caches);
      var front, back := ClipRange(rso[0], caches), ClipSet(rest, caches);
      forall r | r in rest ensures Apart(rso[0], r) {
        var k :| 0 <= k < |rest| && rest[k] == r;
        assert rso[k + 1] == r;
      }
      forall i, j | 0 <= i < |front| && 0 <= j < |back| ensures Apart(front[i], back[j]) {
        PiecesApart(rso[0], rest, caches, front[i], back[j]);
      }
    }
  }

  /** So a clipped set that is not empty is fit for the iterator. */
  lemma ClippedIsIterable(rso: seq<Range>, caches: seq<SimpleRange>)
    requires GoodRanges(rso) && OrderedBlocks(caches) && PairwiseDisjoint(caches)
    requires ClipSet(rso, caches) != []
    ensures Iterable(ClipSet(rso, caches))
  {
    ClipSetDisjoint(rso, caches);
    var s := ClipSet(rso, caches);
    forall i | 0 <= i < |s| ensures s[i].start <= s[i].end {
      assert s[i] in s;
    }
  }

  /* ---------- pruning ---------- */

  /** A block is foreign to a range exactly if neither end lies in the range and the subnet does not hold it. */
  lemma ForeignExactly(ro: Range, c: SimpleRange)
    requires ro.Valid() && c.start <= c.end
    ensures Foreign(ro, c) <==>
            && !(ro.start <= c.start <= ro.end) && !(ro.start <= c.end <= ro.end)
            && !(ro.subnet.addr <= c.start && c.end <= ro.subnet.Broadcast())
  {
    ContainsExactly(ro, c.start);
    ContainsExactly(ro, c.end);
    SubnetHasExactly(ro.subnet, c.start);
    SubnetHasExactly(ro.subnet, c.end);
  }

  /** Some range of the set drops the block. */
  ghost predicate DropsFrom(rso: seq<Range>, c: SimpleRange) {
    exists ro :: ro in rso && Foreign(ro, c)
  }

  /** The blocks of a list without those in `gone`. */
  function Dropping(s: seq<SimpleRange>, gone: set<SimpleRange>): seq<SimpleRange> {
    if s == [] then [] else (if s[0] in gone then [] else [s[0]]) + Dropping(s[1..], gone)
  }

  lemma {:induction false} DroppingMembers(s: seq<SimpleRange>, gone: set<SimpleRange>)
    ensures forall c :: c in Dropping(s, gone) <==> c in s && c !in gone
  {
    if s != [] {
      DroppingMembers(s[1..], gone);
      assert forall c :: c in s <==> c == s[0] || c in s[1..];
    }
  }

  /** The list `d` consists of the elements of `s` at increasing positions. */
  ghost predicate InOrder(d: seq<SimpleRange>, s: seq<SimpleRange>, at: seq<nat>) {
    && |at| == |d|
    && (forall i :: 0 <= i < |d| ==> at[i] < |s| && d[i] == s[at[i]])
    && (forall i, j :: 0 <= i < j < |at| ==> at[i] < at[j])
  }

  function Shift(at: seq<nat>): (shifted: seq<nat>)
    ensures |shifted| == |at| && forall i :: 0 <= i < |at| ==> shifted[i] == at[i] + 1
  {
    seq(|at|, i requires 0 <= i < |at| => at[i] + 1)
  }

  lemma InOrderBehind(d: seq<SimpleRange>, s: seq<SimpleRange>, at: seq<nat>)
    requires s != [] && InOrder(d, s[1..], at)
    ensures InOrder(d, s, Shift(at)) && InOrder([s[0]] + d, s, [0] + Shift(at))
  {
    forall i | 0 <= i < |d| ensures d[i] == s[Shift(at)[i]] {
      assert s[1..][at[i]] == s[at[i] + 1];
    }
  }

  /** What stays keeps its order. */
  lemma {:induction false} DroppingOrder(s: seq<SimpleRange>, gone: set<SimpleRange>) returns (at: seq<nat>)
    ensures InOrder(Dropping(s, gone), s, at)
  {
    if s == [] {
      at := [];
    } else {
      hide InOrder, Shift;
      var rest := DroppingOrder(s[1..], gone);
      InOrderBehind(Dropping(s[1..], gone), s, rest);
      at := if s[0] in gone then Shift(rest) else [0] + Shift(rest);
    }
  }

  lemma {:induction false} DroppingTwice(s: seq<SimpleRange>, g: set<SimpleRange>, h: set<SimpleRange>)
    ensures Dropping(Dropping(s, g), h) == Dropping(s, g + h)
  {
    if s != [] {
      DroppingTwice(s[1..], g, h);
      var rest := Dropping(s[1..], g);
      if s[0] !in g {
        assert Dropping(s, g) == [s[0]] + rest && ([s[0]] + rest)[1..] == rest;
      } else {
        assert Dropping(s, g) == rest;
      }
    }
  }

  lemma {:induction false} DroppingNone(s: seq<SimpleRange>, gone: set<SimpleRange>)
    requires forall c :: c in s ==> c !in gone
    ensures Dropping(s, gone) == s
  {
    if s != [] {
      DroppingNone(s[1..], gone);
    }
  }

  lemma {:induction false} DroppingAt(s: seq<SimpleRange>, k: nat)
    requires k < |s| && forall i :: 0 <= i < |s| && i != k ==> s[i] != s[k]
    ensures Dropping(s, {s[k]}) == s[..k] + s[k + 1..]
  {
    if k == 0 {
      DroppingNone(s[1..], {s[0]});
    } else {
      assert s[0] != s[k];
      DroppingAt(s[1..], k - 1);
      assert s[..k] + s[k + 1..] == [s[0]] + (s[1..][..k - 1] + s[1..][k..]);
    }
  }

  /** Deleting a block of a tidy list, or one that meets none of it, drops that block only. */
  lemma DeletedDrops(cache: seq<SimpleRange>, c: SimpleRange, n: nat)
    requires Tidy(cache, n) && IsBlock(c, Pow2(n))
    requires forall b :: b in cache && b != c ==> !Intersects(b, c)
    ensures Deleted(cache, c) == Dropping(cache, {c}) && Tidy(Dropping(cache, {c}), n)
  {
    if c in cache {
      var k :| 0 <= k < |cache| && cache[k] == c;
      DeleteMember(cache, k, n);
      CutAt(cache, k, n);
      forall i | 0 <= i < |cache| && i != k ensures cache[i] != cache[k] {
        assert Intersects(c, c);
      }
      DroppingAt(cache, k);
    } else {
      forall i | 0 <= i < |cache| ensures !cache[i].Overlaps(c) {
        assert cache[i] in cache;
        BlockOverlapIsIntersection(cache[i], c, Pow2(n));
      }
      DeleteExactly(cache, c, n);
      DroppingNone(cache, {c});
    }
  }

  /** All blocks of the list come from a tidy one. */
  ghost predicate Among(s: seq<SimpleRange>, all: seq<SimpleRange>, n: nat) {
    Tidy(all, n) && forall c :: c in s ==> c in all
  }

  lemma OneLess(cache: seq<SimpleRange>, all: seq<SimpleRange>, c: SimpleRange, n: nat)
    requires Tidy(cache, n) && Among(cache, all, n) && c in all
    ensures Deleted(cache, c) == Dropping(cache, {c}) && Tidy(Dropping(cache, {c}), n)
    ensures Among(Dropping(cache, {c}), all, n)
  {
    forall b | b in cache && b != c ensures !Intersects(b, c) {
      DisjointMembers(all, n, b, c);
    }
    DeletedDrops(cache, c, n);
    DroppingMembers(cache, {c});
  }

  lemma {:induction false} PruneRangeExactly(ro: Range, caches: seq<SimpleRange>, cache: seq<SimpleRange>,
                                             all: seq<SimpleRange>, n: nat)
    requires Tidy(cache, n) && Among(cache, all, n) && Among(caches, all, n)
    ensures var p := PruneRange(ro, caches, cache);
            p == Dropping(cache, set c | c in caches && Foreign(ro, c)) && Tidy(p, n) && Among(p, all, n)
  {
    hide Foreign, Tidy, Deleted;
    if caches == [] {
      DroppingNone(cache, {});
      assert (set c | c in caches && Foreign(ro, c)) == {};
    } else {
      var c, rest := caches[0], caches[1..];
      var now := if Foreign(ro, c) then Deleted(cache, c) else cache;
      OneLess(cache, all, c, n);
      PruneRangeExactly(ro, rest, now, all, n);
      DroppingTwice(cache, {c}, set d | d in rest && Foreign(ro, d));
      assert (set d | d in caches && Foreign(ro, d)) ==
             (if Foreign(ro, c) then {c} else {}) + (set d | d in rest && Foreign(ro, d));
      assert {} + (set d | d in rest && Foreign(ro, d)) == (set d | d in rest && Foreign(ro, d));
    }
  }

  lemma {:induction false} PruneSetExactly(rso: seq<Range>, caches: seq<SimpleRange>, cache: seq<SimpleRange>,
                                           all: seq<SimpleRange>, n: nat)
    requires Tidy(cache, n) && Among(cache, all, n) && Among(caches, all, n)
    ensures var p := PruneSet(rso, caches, cache);
            p == Dropping(cache, set c | c in caches && DropsFrom(rso, c)) && Tidy(p, n) && Among(p, all, n)
  {
    hide Foreign, Tidy, Among;
    if rso == [] {
      DroppingNone(cache, {});
      assert (set c | c in caches && DropsFrom(rso, c)) == {};
    } else {
      PruneRangeExactly(rso[0], caches, cache, all, n);
      PruneSetExactly(rso[1..], caches, PruneRange(rso[0], caches, cache), all, n);
      DroppingTwice(cache, set c | c in caches && Foreign(rso[0], c), set c | c in caches && DropsFrom(rso[1..], c));
      assert forall ro :: ro in rso <==> ro == rso[0] || ro in rso[1..];
      assert (set c | c in caches && DropsFrom(rso, c)) ==
             (set c | c in caches && Foreign(rso[0], c)) + (set c | c in caches && DropsFrom(rso[1..], c));
    }
  }

  /** Some range of some set drops the block. */
  ghost predicate DropsFromAny(origin: seq<seq<Range>>, c: SimpleRange) {
    exists rso :: rso in origin && DropsFrom(rso, c)
  }

  lemma {:induction false} PruneSetsDrop(origin: seq<seq<Range>>, caches: seq<SimpleRange>,
                                         cache: seq<SimpleRange>, n: nat)
    requires Tidy(cache, n) && Among(cache, caches, n)
    ensures PruneSets(origin, caches, cache) == Dropping(cache, set c | c in caches && DropsFromAny(origin, c))
    ensures Tidy(PruneSets(origin, caches, cache), n)
    decreases origin
  {
    hide Foreign, Tidy, DropsFrom;
    if origin == [] {
      DroppingNone(cache, {});
      assert (set c | c in caches && DropsFromAny(origin, c)) == {};
    } else {
      PruneSetExactly(origin[0], caches, cache, caches, n);
      PruneSetsDrop(origin[1..], caches, PruneSet(origin[0], caches, cache), n);
      DroppingTwice(cache, set c | c in caches && DropsFrom(origin[0], c),
                    set c | c in caches && DropsFromAny(origin[1..], c));
      assert forall rso :: rso in origin <==> rso == origin[0] || rso in origin[1..];
      assert (set c | c in caches && DropsFromAny(origin, c)) ==
             (set c | c in caches && DropsFrom(origin[0], c)) + (set c | c in caches && DropsFromAny(origin[1..], c));
    }
  }

  /** Forming the ranges of all sets drops from the cache exactly the blocks that are foreign to some range of some
      set, and keeps all others in their order. */
  lemma PruneSetsExactly(origin: seq<seq<Range>>, cache: seq<SimpleRange>, n: nat) returns (at: seq<nat>)
    requires Tidy(cache, n)
    ensures var p := PruneSets(origin, cache, cache);
            && Tidy(p, n)
            && (forall c :: c in p <==> c in cache && forall rso, ro :: rso in origin && ro in rso ==> !Foreign(ro, c))
            && InOrder(p, cache, at)
  {
    hide Foreign, Tidy;
    PruneSetsDrop(origin, cache, cache, n);
    DroppingMembers(cache, set c | c in cache && DropsFromAny(origin, c));
    at := DroppingOrder(cache, set c | c in cache && DropsFromAny(origin, c));
    forall c ensures DropsFromAny(origin, c) <==> exists rso, ro :: rso in origin && ro in rso && Foreign(ro, c) {
      if rso, ro :| rso in origin && ro in rso && Foreign(ro, c) {
        assert DropsFrom(rso, c);
      }
    }
  }

  /** The cache stays as it is exactly when every cached block is touched by, or lies in the subnet of, every range of
      every set: two subnets drop each other's blocks. */
  lemma NothingPrunedExactly(origin: seq<seq<Range>>, cache: seq<SimpleRange>, n: nat)
    requires Tidy(cache, n)
    ensures PruneSets(origin, cache, cache) == cache <==>
            forall rso, ro, c :: rso in origin && ro in rso && c in cache ==> !Foreign(ro, c)
  {
    hide Foreign, PruneSets, Tidy;
    var at := PruneSetsExactly(origin, cache, n);
    if forall rso, ro, c :: rso in origin && ro in rso && c in cache ==> !Foreign(ro, c) {
      PruneSetsDrop(origin, cache, cache, n);
      assert forall c :: c in cache ==> !DropsFromAny(origin, c);
      DroppingNone(cache, set c | c in cache && DropsFromAny(origin, c));
    }
  }
}

/** Histories of the cluster that the code allows: two nodes with one address, and a node whose allocation hangs. */
module ClusterHistories {
  import opened Words
  import opened Blocks
  import opened RangeSets
  import opened RangeIteration
  import opened DiskStore
  import opened Etcd
  import opened FirstFit
  import opened Allocator
  import opened Reconcile
  import opened Clipping
  import opened Cluster
  import Text

  /* ---------- reachable states ---------- */

  ghost predicate Reachable(p: Net, s: Cluster) {
    exists run :: IsRun(p, run) && run[|run| - 1] == s
  }

  lemma ReachableStep(p: Net, s: Cluster, a: Action, s': Cluster)
    requires Reachable(p, s) && Next(p, s, a, s')
    ensures Reachable(p, s')
  {
    hide Next;
    var run :| IsRun(p, run) && run[|run| - 1] == s;
    var run' := run + [s'];
    forall i | 0 <= i < |run'| - 1 ensures Step(p, run'[i], run'[i + 1]) {
      if i < |run| - 1 {
        assert Step(p, run[i], run[i + 1]);
      }
    }
    assert IsRun(p, run') && run'[|run'| - 1] == s';
  }

  /** The first `k` blocks of the grid, in order. */
  ghost predicate FirstBlocks(p: Net, l: seq<SimpleRange>, k: nat) {
    && |l| == k
    && (forall i :: 0 <= i < k ==> IsBlock(l[i], p.Num()))
    && (forall i :: 0 < i < k ==> l[i].start == l[i - 1].end + 1)
    && (k > 0 ==> l[0].start == p.Lo())
  }

  lemma {:induction false} FirstBlocksAt(p: Net, l: seq<SimpleRange>, k: nat, i: nat)
    requires FirstBlocks(p, l, k) && i < k
    ensures l[i].start == p.Lo() + i * p.Num() && l[i].end == p.Lo() + i * p.Num() + p.Num() - 1
  {
    if i > 0 {
      FirstBlocksAt(p, l, k, i - 1);
      assert i * p.Num() == (i - 1) * p.Num() + p.Num();
    }
  }

  lemma {:induction false} FirstBlocksApart(p: Net, l: seq<SimpleRange>, k: nat, i: nat, j: nat)
    requires FirstBlocks(p, l, k) && i < j < k
    ensures l[i].end < l[j].start
    decreases j
  {
    if i < j - 1 {
      FirstBlocksApart(p, l, k, i, j - 1);
    }
  }

  lemma FirstBlocksSorted(p: Net, l: seq<SimpleRange>, k: nat)
    requires FirstBlocks(p, l, k)
    ensures Sorted(l) && NoneStartsBelow(l, p.Lo())
  {
    forall i, j | 0 <= i < j < k ensures l[i].end < l[j].start {
      FirstBlocksApart(p, l, k, i, j);
    }
    hide EffectiveStart, Pow2;
    forall i | 0 <= i < k ensures p.Lo() <= l[i].start <= l[i].end {
      assert IsBlock(l[i], p.Num()) && IsBlock(l[0], p.Num());
    }
  }

  /** The first blocks cover the addresses from the first usable one without a gap. */
  lemma {:induction false} FirstBlocksCover(p: Net, l: seq<SimpleRange>, k: nat, a: int)
    requires FirstBlocks(p, l, k) && k > 0 && p.Lo() <= a <= l[k - 1].end
    ensures Leased(l, a) && Blocked(l, a, p.Num())
  {
    if a < l[k - 1].start {
      FirstBlocksAt(p, l, k, k - 1);
      if k == 1 {
        assert false;
      } else {
        FirstBlocksCover(p, l[..k - 1], k - 1, a);
        var i :| 0 <= i < k - 1 && l[..k - 1][i].Has(a);
        assert l[i].Has(a);
      }
    } else {
      assert l[k - 1].Has(a);
    }
  }

  /** As long as a block fits behind the first `k` ones, that block is what an application gets. */
  lemma NextGridBlock(p: Net, l: seq<SimpleRange>, k: nat, next: int)
    requires p.Valid() && FirstBlocks(p, l, k)
    requires next == (if k == 0 then p.Lo() else l[k - 1].end + 1) && next + p.Num() - 1 <= p.range.end
    ensures FreeRange(l, p.range, p.unit) == Some(SimpleRange(next, next + p.Num() - 1))
  {
    hide FreeRange;
    FirstBlocksSorted(p, l, k);
    forall i | 0 <= i < k ensures l[i].end < next {
      if i < k - 1 { assert l[i].end < l[k - 1].start; }
    }
    assert !Leased(l, p.range.end) && !Blocked(l, next, p.Num());
    assert p.Lo() <= next by {
      if k > 0 { assert l[k - 1].start >= p.Lo(); }
    }
    FirstFitExactly(l, p.range, p.unit);
    var res := FreeRange(l, p.range, p.unit);
    assert IsFirstFit(l, p.Lo(), p.range.end, p.Num(), res);
    assert HasFreeBlock(l, p.Lo(), p.range.end, p.Num());
    if res.value.start < next {
      FirstBlocksCover(p, l, k, res.value.start);
    }
  }

  lemma ExhaustedYieldsOverflow(p: Net, l: seq<SimpleRange>, k: nat)
    requires p.Valid() && HasRoom(p) && FirstBlocks(p, l, k)
    requires if k == 0 then p.range.end < p.Lo() else l[k - 1].end == p.range.end
    ensures FreeRange(l, p.range, p.unit) == Some(Overflow(p))
  {
    FirstBlocksSorted(p, l, k);
    if p.Lo() <= p.range.end {
      FirstBlocksCover(p, l, k, p.range.end);
      forall s | p.Lo() <= s && s + p.Num() - 1 <= p.range.end ensures Blocked(l, s, p.Num()) {
        FirstBlocksCover(p, l, k, s);
      }
    }
    OverflowYielded(p, l);
  }

  lemma {:induction false} CursorSkipsLast(l: seq<SimpleRange>, x: SimpleRange, last: uint32, hi: uint32, num: nat)
    requires hi < x.start
    ensures Cursor(l + [x], last, hi, num) == Cursor(l, last, hi, num)
    decreases l
  {
    if l == [] {
      assert (l + [x])[1..] == [];
    } else {
      assert (l + [x])[1..] == l[1..] + [x];
      CursorSkipsLast(l[1..], x, last, hi, num);
      CursorSkipsLast(l[1..], x, Add32(Min(l[0].end, hi), 1), hi, num);
    }
  }

  /** A lease behind the range is not seen by the scan. */
  lemma OverflowIsNotSeen(p: Net, l: seq<SimpleRange>)
    requires p.Valid() && HasRoom(p)
    ensures FreeRange(l + [Overflow(p)], p.range, p.unit) == FreeRange(l, p.range, p.unit)
  {
    CursorSkipsLast(l, Overflow(p), p.Lo(), p.range.end, p.Num());
  }

  const A: string := "a"
  const B: string := "b"

  /** Two nodes; the first owns `l` but has nothing cached. */
  function Leasing(l: seq<SimpleRange>): Cluster {
    Cluster(map b | b in l :: A, map[A := NEW, B := NEW], {}, [])
  }

  lemma LeasingReachable(p: Net)
    ensures Reachable(p, Leasing([]))
  {
    assert IsRun(p, [INIT]) && [INIT][|[INIT]| - 1] == INIT;
    var s := Update(INIT, A, NEW);
    ReachableStep(p, INIT, Join(A), s);
    ReachableStep(p, s, Join(B), Update(s, B, NEW));
    assert Leasing([]).leases == map[];
    assert Leasing([]) == Update(s, B, NEW);
  }

  lemma FirstBlocksListing(p: Net, l: seq<SimpleRange>, k: nat)
    requires FirstBlocks(p, l, k)
    ensures IsListing(l, Leasing(l).leases)
  {
    FirstBlocksSorted(p, l, k);
    forall i, j | 0 <= i < j < |l| ensures l[i] != l[j] && l[i].start <= l[j].start {
      assert l[i].start <= l[i].end;
    }
  }

  /** The first node applies and stops before caching the block. */
  lemma LeaseOneMore(p: Net, l: seq<SimpleRange>, b: SimpleRange)
    requires p.unit < 32 && Reachable(p, Leasing(l)) && IsListing(l, Leasing(l).leases)
    requires FreeRange(l, p.range, p.unit) == Some(b)
    ensures Reachable(p, Leasing(l + [b]))
  {
    hide Reachable, FreeRange, IsListing;
    var s0 := Leasing(l);
    var s1 := Update(s0, A, NEW.(pc := Chosen(b)));
    var s2 := Update(s1, A, NEW.(pc := Written(b))).(leases := s1.leases[b := A]);
    var s3 := Update(s2, A, NEW);
    ReachableStep(p, s0, ApplyRead(A, l), s1);
    ReachableStep(p, s1, ApplyPut(A), s2);
    ReachableStep(p, s2, Abort(A), s3);
    assert Leasing(l + [b]).leases == s2.leases;
    assert s3.live == map[A := NEW, B := NEW];
  }

  function NextStart(p: Net, l: seq<SimpleRange>): int {
    if l == [] then p.Lo() else l[|l| - 1].end + 1
  }

  lemma NextStartAt(p: Net, l: seq<SimpleRange>, k: nat)
    requires FirstBlocks(p, l, k)
    ensures NextStart(p, l) == p.Lo() + k * p.Num()
  {
    if k > 0 {
      FirstBlocksAt(p, l, k, k - 1);
      assert k * p.Num() == (k - 1) * p.Num() + p.Num();
    }
  }

  /** The first node leases the block behind the ones it has, if that block fits. */
  lemma LeaseNext(p: Net, l: seq<SimpleRange>, k: nat, next: int)
    requires p.Valid() && FirstBlocks(p, l, k) && Reachable(p, Leasing(l))
    requires next == NextStart(p, l) && next + p.Num() - 1 <= p.range.end
    ensures 0 <= next && FirstBlocks(p, l + [SimpleRange(next, next + p.Num() - 1)], k + 1)
    ensures Reachable(p, Leasing(l + [SimpleRange(next, next + p.Num() - 1)]))
  {
    hide Reachable, Leasing, FreeRange, IsListing;
    NextGridBlock(p, l, k, next);
    FirstBlocksListing(p, l, k);
    LeaseOneMore(p, l, SimpleRange(next, next + p.Num() - 1));
  }

  /** The first node can lease all of the blocks that fit. */
  lemma {:induction false} LeaseBlocks(p: Net, k: nat) returns (l: seq<SimpleRange>)
    requires p.Valid() && p.Lo() + k * p.Num() <= p.range.end + 1
    ensures FirstBlocks(p, l, k) && Reachable(p, Leasing(l))
  {
    hide Reachable, Leasing, FirstBlocks, NextStart;
    if k == 0 {
      l := [];
      LeasingReachable(p);
      NoBlocks(p);
    } else {
      assert k * p.Num() == (k - 1) * p.Num() + p.Num();
      var init := LeaseBlocks(p, k - 1);
      NextStartAt(p, init, k - 1);
      var next := NextStart(p, init);
      LeaseNext(p, init, k - 1, next);
      l := init + [SimpleRange(next, next + p.Num() - 1)];
    }
  }

  lemma NoBlocks(p: Net)
    ensures FirstBlocks(p, [], 0)
  {
  }

  /** What the block behind the range gives to a node without marks or reservations. */
  function FirstOf(p: Net): GetResult
    requires HasRoom(p)
  {
    OverflowBounds(p);
    GetOutcome(FreshSet(p, Overflow(p)), None, map[], "c", "e")
  }

  /** The state of a node that has just allocated its first address, from block `w`. */
  function Holding(w: SimpleRange, a: uint32): Node {
    Node([w], map[a := Record("c", "e")], map[0 := a], {}, Idle)
  }

  /** `a` is that address. */
  ghost predicate Gives(p: Net, a: uint32) {
    HasRoom(p) && FirstOf(p).Got? && FirstOf(p).addr == a
  }

  lemma FirstExists(p: Net) returns (a: uint32)
    requires HasRoom(p) && !Barren(p)
    ensures Gives(p, a)
  {
    OverflowBounds(p);
    var rs := FreshSet(p, Overflow(p));
    var files: Files := map[];
    NothingFreeExactly(rs, None, files);
    var x: uint32 :| Handed(rs, true, x);
    assert !Resumes(rs, None) && x !in files;
    assert Owned(files, "c", "e") == {} && !HoldsOne(files, rs, "c", "e");
    a := FirstOf(p).addr;
  }

  lemma GetFirstOfOverflow(p: Net, a: uint32)
    requires Gives(p, a)
    ensures var w := Overflow(p);
            var rs, nd := FreshSet(p, w), Node([w], map[], map[], {}, Fresh(w));
            CanGet(rs, nd, "c", "e") && AfterGet(rs, nd, "c", "e").(pc := Idle) == Holding(w, a)
  {
    OverflowBounds(p);
    hide GetOutcome;
    assert Stops(FreshSet(p, Overflow(p)), None);
  }

  lemma CacheOverflow(p: Net)
    requires p.Valid() && HasRoom(p)
    ensures Appended([], Overflow(p)) == Some([Overflow(p)])
  {
    AppendExactly([], Overflow(p), p.unit);
    assert [] + [Overflow(p)] == [Overflow(p)];
  }

  /** A node applies, gets the block `b` and caches it. */
  lemma ApplyBlock(p: Net, s: Cluster, n: string, listing: seq<SimpleRange>, b: SimpleRange, cache: seq<SimpleRange>)
    requires p.unit < 32 && Reachable(p, s) && n in s.live && s.live[n].pc.Idle? && IsListing(listing, s.leases)
    requires forall m :: m in s.live ==> !s.live[m].pc.Chosen?
    requires FreeRange(listing, p.range, p.unit) == Some(b) && Appended(s.live[n].cache, b) == Some(cache)
    ensures Reachable(p, Update(s, n, s.live[n].(cache := cache, pc := Fresh(b))).(leases := s.leases[b := n]))
  {
    hide Reachable, FreeRange, IsListing, Appended, CanGet, AfterGet;
    var nd := s.live[n];
    var s1 := Update(s, n, nd.(pc := Chosen(b)));
    ReachableStep(p, s, ApplyRead(n, listing), s1);
    var s2 := Update(s1, n, nd.(pc := Written(b))).(leases := s1.leases[b := n]);
    ReachableStep(p, s1, ApplyPut(n), s2);
    var s3 := Update(s2, n, nd.(cache := cache, pc := Fresh(b)));
    ReachableStep(p, s2, ApplyAppend(n), s3);
    assert s3 == Update(s, n, nd.(cache := cache, pc := Fresh(b))).(leases := s.leases[b := n]);
  }

  /** A node with nothing cached applies, gets the overflow block and hands out its first address. */
  lemma TakeOverflow(p: Net, s: Cluster, n: string, listing: seq<SimpleRange>, a: uint32)
    requires p.Valid() && HasRoom(p) && Gives(p, a)
    requires Reachable(p, s) && n in s.live && s.live[n] == NEW && IsListing(listing, s.leases)
    requires forall m :: m in s.live ==> s.live[m].pc == Idle
    requires FreeRange(listing, p.range, p.unit) == Some(Overflow(p))
    ensures Reachable(p, Update(s, n, Holding(Overflow(p), a)).(leases := s.leases[Overflow(p) := n]))
  {
    hide Reachable, FreeRange, IsListing, Overflow, Appended, CanGet, AfterGet, Gives;
    var w := Overflow(p);
    CacheOverflow(p);
    ApplyBlock(p, s, n, listing, w, [w]);
    var s3 := Update(s, n, Node([w], map[], map[], {}, Fresh(w))).(leases := s.leases[w := n]);
    GetFirstOfOverflow(p, a);
    var s4 := Update(s3, n, Holding(w, a));
    ReachableStep(p, s3, GetFresh(n, "c", "e"), s4);
    assert s4 == Update(s, n, Holding(w, a)).(leases := s.leases[w := n]);
  }

  lemma OverflowListing(p: Net, l: seq<SimpleRange>, k: nat)
    requires p.Valid() && HasRoom(p) && FirstBlocks(p, l, k) && (k > 0 ==> l[k - 1].end <= p.range.end)
    ensures IsListing(l + [Overflow(p)], Leasing(l).leases[Overflow(p) := A])
  {
    FirstBlocksSorted(p, l, k);
    FirstBlocksListing(p, l, k);
    forall i | 0 <= i < k ensures l[i].start <= p.range.end {
      if i < k - 1 { assert l[i].end < l[k - 1].start; }
    }
  }

  /** When the blocks fill the range exactly, or the range is empty, two nodes end up with the same block
      behind the range and hand out the same address. */
  lemma EvenSizeClashes(p: Net) returns (s: Cluster)
    requires p.Valid() && HasRoom(p) && !Safe(p)
    ensures Reachable(p, s) && !UniqueAddresses(s)
  {
    hide Reachable, FirstBlocks, FreeRange, IsListing, Leasing, Gives, Overflow;
    var w := Overflow(p);
    var a := FirstExists(p);
    var l, k := LeaseAll(p);
    ExhaustedYieldsOverflow(p, l, k);
    FirstBlocksListing(p, l, k);
    var s0 := Leasing(l);
    LeasingShape(l);
    TakeOverflow(p, s0, A, l, a);
    var s1 := Update(s0, A, Holding(w, a)).(leases := s0.leases[w := A]);
    OverflowIsNotSeen(p, l);
    OverflowListing(p, l, k);
    TakeOverflow(p, s1, B, l + [w], a);
    s := Update(s1, B, Holding(w, a)).(leases := s1.leases[w := B]);
    assert A in s.live && B in s.live && A != B;
    assert a in s.live[A].files.Keys && a in s.live[B].files.Keys;
  }

  lemma LeasingShape(l: seq<SimpleRange>)
    ensures Leasing(l).live == map[A := NEW, B := NEW]
  {
  }

  /** The first node leases all of a range that is a whole number of blocks. */
  lemma LeaseAll(p: Net) returns (l: seq<SimpleRange>, k: nat)
    requires p.Valid() && !p.Uneven()
    ensures FirstBlocks(p, l, k) && Reachable(p, Leasing(l))
    ensures if k == 0 then p.range.end < p.Lo() else l[k - 1].end == p.range.end
  {
    hide Reachable, Leasing;
    if p.Lo() <= p.range.end {
      k :| p.Fills(k);
      assert k > 0 by { assert 0 * p.Num() == 0; }
      l := LeaseBlocks(p, k);
      FirstBlocksAt(p, l, k, k - 1);
      assert k * p.Num() == (k - 1) * p.Num() + p.Num();
    } else {
      l, k := [], 0;
      LeasingReachable(p);
    }
  }

  /** Addresses stay unique in all histories exactly when the usable size is not a whole number of blocks, or the
      block behind the range has no address to hand out. */
  lemma UniquenessExactly(p: Net)
    requires p.Valid() && HasRoom(p)
    ensures (forall run, i :: IsRun(p, run) && 0 <= i < |run| ==> UniqueAddresses(run[i])) <==> p.Uneven() || Barren(p)
  {
    if Safe(p) {
      forall run, i | IsRun(p, run) && 0 <= i < |run| ensures UniqueAddresses(run[i]) {
        AddressesStayUnique(p, run, i);
      }
    } else {
      var s := EvenSizeClashes(p);
      var run :| IsRun(p, run) && run[|run| - 1] == s;
    }
  }

  /* ---------- a node that has filled its second block ---------- */

  /** Blocks inside the range are cut out of it as they are. */
  lemma {:induction false} ClipInside(r: Range, caches: seq<SimpleRange>)
    requires GoodRange(r) && forall c :: c in caches ==> r.start <= c.start <= c.end <= r.end
    ensures |ClipRange(r, caches)| == |caches|
    ensures forall i :: 0 <= i < |caches| ==>
              ClipRange(r, caches)[i] == r.(start := caches[i].start, end := caches[i].end)
    ensures ClipSet([r], caches) == ClipRange(r, caches)
  {
    assert [r][1..] == [];
    if caches != [] {
      assert caches[0] in caches;
      ContainsExactly(r, caches[0].start);
      ClipInside(r, caches[1..]);
    }
  }

  /** The piece of block `k` is the one that contains its addresses. */
  lemma PieceOf(r: Range, caches: seq<SimpleRange>, k: nat, a: uint32)
    requires GoodRange(r) && forall c :: c in caches ==> r.start <= c.start <= c.end <= r.end
    requires PairwiseDisjoint(caches) && k < |caches| && caches[k].Has(a)
    ensures FirstContaining(ClipSet([r], caches), a) == Some(k)
  {
    ClipInside(r, caches);
    var rs := ClipSet([r], caches);
    forall i | 0 <= i <= k ensures rs[i].Contains(a) <==> i == k {
      assert caches[i] in caches;
      ContainsExactly(rs[i], a);
    }
    FirstContainingAt(rs, a, k);
  }

  /** Two or more cached blocks of the range, all reserved but for gateways, and a last reserved address that ends
      one of them: the next request hangs. */
  lemma {:induction false} FullBlocksHang(r: Range, caches: seq<SimpleRange>, k: nat, files: Files)
    requires GoodRange(r) && PairwiseDisjoint(caches) && |caches| >= 2 && k < |caches|
    requires forall c :: c in caches ==> r.start <= c.start <= c.end <= r.end
    requires forall c, a: uint32 :: c in caches && c.Has(a) ==> a == r.gateway || a in files
    ensures Iterable(ClipSet([r], caches)) && Hangs(ClipSet([r], caches), Some(caches[k].end), files)
  {
    assert forall x :: x in [r] ==> x == r;
    ClippedIsIterable([r], caches) by { ClipInside(r, caches); }
    ClipInside(r, caches);
    assert caches[k] in caches;
    PieceOf(r, caches, k, caches[k].end);
    var rs := ClipSet([r], caches);
    forall a: uint32 | Handed(rs, false, a) ensures a in files {
      var i :| 0 <= i < |rs| && InRange(rs, i, a) && a != rs[i].gateway;
      assert caches[i] in caches && caches[i].Has(a);
    }
    LoopHangsExactly(rs, Some(caches[k].end), files);
  }

  /** No address of the block is the gateway or a reserve. */
  predicate Plain(p: Net, b: SimpleRange) {
    !b.Has(p.range.gateway) && forall r :: r in p.range.reserves ==> !b.Has(r)
  }

  /** The container that gets address `a`. */
  function Container(a: uint32): string {
    Text.Pad(a, 10)
  }

  function FilledFiles(lo: uint32, x: uint32): Files {
    map a: uint32 | lo <= a <= x :: Record(Container(a), "e")
  }

  /** A node that has handed out the addresses from `lo` to `x`, each to a container of its own. */
  function Filled(lo: uint32, x: uint32, cache: seq<SimpleRange>, formed: set<seq<Range>>): Node {
    Node(cache, FilledFiles(lo, x), map[0 := x], formed, Idle)
  }

  lemma ContainerName(a: uint32)
    ensures ProperNames(Container(a), "e") && Text.Trim(Container(a), SPACE) == Container(a)
  {
    var s := Container(a);
    assert forall c :: c in s ==> Text.IsDigit(c);
    assert s[0] in s && s[9] in s;
    TrimProper(s);
  }

  lemma ContainersDiffer(a: uint32, y: uint32)
    requires a != y
    ensures !OwnedBy(Record(Container(a), "e"), Container(y), "e")
  {
    ContainerName(a);
    ContainerName(y);
    RecordTrimmed(Container(a), "e");
    assert Text.Pow10(5) == 100000;
    Text.ParsePad(a, 10);
    Text.ParsePad(y, 10);
    assert |Container(a)| == 10 && |Container(y)| == 10 && Container(a) != Container(y);
    hide Container, ProperNames, Text.ParseNat, Text.Trim;
    var r, t := Record(Container(a), "e"), Record(Container(y), "e");
    assert r == Container(a) + LINE_BREAK + "e" && t == Container(y) + LINE_BREAK + "e";
    assert |r| == 13 && |t| == 13 && r[..10] == Container(a) && t[..10] == Container(y);
    assert !(t <= r);
  }

  /** A container without an address holds none. */
  lemma NewContainerHoldsNone(lo: uint32, x: uint32, y: uint32, rs: seq<Range>)
    requires x < y
    ensures !HoldsOne(FilledFiles(lo, x), rs, Container(y), "e")
  {
    var files := FilledFiles(lo, x);
    hide OwnedBy, Record, Container, FirstContaining;
    forall a | a in files ensures !OwnedBy(files[a], Container(y), "e") {
      ContainersDiffer(a, y);
    }
  }

  /** The address behind the last reserved one, inside its range, is what Get picks. */
  lemma PickNext(rs: seq<Range>, x: uint32, files: Files)
    requires Iterable(rs) && Resumes(rs, Some(x)) && x < rs[LastSlot(rs, Some(x)).idx].end
    requires x + 1 != rs[LastSlot(rs, Some(x)).idx].gateway && x + 1 !in files
    ensures Pick(rs, Some(x), files) == Some(0)
    ensures Order(rs, Some(x)) != [] && Order(rs, Some(x))[0] == Slot(LastSlot(rs, Some(x)).idx, x + 1)
  {
    OrderIsCycle(rs, Some(x));
    var o := Order(rs, Some(x));
    assert NextSlot(rs, o[|o| - 1]) == o[0];
    assert Candidate(rs, o, false, 0);
  }

  /** A new block gives its first address. */
  lemma PickFirst(p: Net, b: SimpleRange, last: Option<uint32>, files: Files)
    requires b.start <= b.end && Plain(p, b) && !Resumes(FreshSet(p, b), last) && b.start !in files
    ensures Iterable(FreshSet(p, b)) && Pick(FreshSet(p, b), last, files) == Some(0)
    ensures Order(FreshSet(p, b), last) != [] && Order(FreshSet(p, b), last)[0] == Slot(0, b.start)
  {
    var rs := FreshSet(p, b);
    assert Iterable(rs);
    OrderIsCycle(rs, last);
    assert Candidate(rs, Order(rs, last), true, 0);
  }

  /** The first blocks lie in the range. */
  lemma FirstBlocksInside(p: Net, l: seq<SimpleRange>, k: nat)
    requires p.Valid() && FirstBlocks(p, l, k) && (k > 0 ==> l[k - 1].end <= p.range.end)
    ensures forall b :: b in l ==> p.Lo() <= b.start <= b.end <= p.range.end && p.range.start <= b.start
    ensures Tidy(l, p.unit) && |l| == k
  {
    EffectiveStartBounds(p.range);
    FirstBlocksSorted(p, l, k);
    forall b | b in l ensures p.Lo() <= b.start <= b.end <= p.range.end {
      var i :| 0 <= i < k && l[i] == b;
      if i < k - 1 { FirstBlocksApart(p, l, k, i, k - 1); }
    }
  }

  /** One more address of the last block. */
  lemma GetOne(p: Net, cache: seq<SimpleRange>, k: nat, x: uint32, formed: set<seq<Range>>)
    requires p.Valid() && FirstBlocks(p, cache, k) && k > 0 && cache[k - 1].end <= p.range.end
    requires cache[k - 1].start <= x < cache[k - 1].end && Plain(p, cache[k - 1])
    ensures var rs, nd, id := ClipSet([p.range], cache), Filled(p.Lo(), x, cache, formed), Container(x + 1);
            CanGet(rs, nd, id, "e") && AfterGet(rs, nd, id, "e") == Filled(p.Lo(), x + 1, cache, formed)
  {
    hide FirstBlocks, Net.Valid, Net.Lo, Net.Num, HoldsOne, ClipSet, FilledFiles, Tidy, Record, Container;
    hide Iterable, Pick, Plain, Order, FirstContaining, Stops;
    FirstBlocksInside(p, cache, k);
    assert cache[k - 1] in cache;
    FilledNext(p.Lo(), x);
    var rs := ClipSet([p.range], cache);
    GetNext(p, cache, k, x, FilledFiles(p.Lo(), x));
    NewContainerHoldsNone(p.Lo(), x, x + 1, rs);
  }

  lemma FillOne(p: Net, s: Cluster, cache: seq<SimpleRange>, k: nat, x: uint32, formed: set<seq<Range>>)
    requires p.Valid() && FirstBlocks(p, cache, k) && k > 0 && cache[k - 1].end <= p.range.end
    requires cache[k - 1].start <= x < cache[k - 1].end && Plain(p, cache[k - 1]) && ClipSet([p.range], cache) in formed
    requires Reachable(p, s) && A in s.live && s.live[A] == Filled(p.Lo(), x, cache, formed)
    ensures Reachable(p, Update(s, A, Filled(p.Lo(), x + 1, cache, formed)))
  {
    hide Reachable, FirstBlocks, Net.Valid, Net.Lo, ClipSet, CanGet, AfterGet, FilledFiles, Container, Plain;
    GetOne(p, cache, k, x, formed);
    var next := Update(s, A, Filled(p.Lo(), x + 1, cache, formed));
    ReachableStep(p, s, Get(A, ClipSet([p.range], cache), Container(x + 1), "e"), next);
  }

  lemma FilledNext(lo: uint32, x: uint32)
    requires lo <= x + 1 < TWO32
    ensures x + 1 !in FilledFiles(lo, x)
    ensures FilledFiles(lo, x)[x + 1 := Record(Container(x + 1), "e")] == FilledFiles(lo, x + 1)
  {
  }

  lemma NothingDropped(p: Net, cache: seq<SimpleRange>)
    requires p.Valid() && Tidy(cache, p.unit)
    requires forall b :: b in cache ==> p.range.start <= b.start <= b.end <= p.range.end
    ensures PruneSets([[p.range]], cache, cache) == cache
  {
    forall rso, ro, c | rso in [[p.range]] && ro in rso && c in cache ensures !Foreign(ro, c) {
      ContainsExactly(p.range, c.start);
    }
    NothingPrunedExactly([[p.range]], cache, p.unit);
  }

  lemma GetNext(p: Net, cache: seq<SimpleRange>, k: nat, x: uint32, files: Files)
    requires p.Valid() && Tidy(cache, p.unit) && 0 < k == |cache|
    requires forall b :: b in cache ==> p.range.start <= b.start <= b.end <= p.range.end
    requires cache[k - 1].start <= x < cache[k - 1].end && Plain(p, cache[k - 1]) && x + 1 !in files
    ensures var rs := ClipSet([p.range], cache);
            && Iterable(rs) && Pick(rs, Some(x), files) == Some(0) && Order(rs, Some(x)) != []
            && Order(rs, Some(x))[0].addr == x + 1
  {
    ClipInside(p.range, cache);
    ClippedIsIterable([p.range], cache);
    PieceOf(p.range, cache, k - 1, x);
    PickNext(ClipSet([p.range], cache), x, files);
  }

  /** All addresses up to the end of the last block. */
  lemma {:induction false} FillUp(p: Net, s: Cluster, cache: seq<SimpleRange>, k: nat, x: uint32,
                                  formed: set<seq<Range>>)
    requires p.Valid() && FirstBlocks(p, cache, k) && k > 0 && cache[k - 1].end <= p.range.end
    requires cache[k - 1].start <= x <= cache[k - 1].end && Plain(p, cache[k - 1])
    requires ClipSet([p.range], cache) in formed
    requires Reachable(p, s) && A in s.live && s.live[A] == Filled(p.Lo(), x, cache, formed)
    ensures Reachable(p, Update(s, A, Filled(p.Lo(), cache[k - 1].end, cache, formed)))
    decreases cache[k - 1].end - x
  {
    hide Reachable, FirstBlocks, Net.Valid, Net.Lo, Net.Num, Filled, Plain, Tidy, ClipSet;
    FirstBlocksInside(p, cache, k);
    if x < cache[k - 1].end {
      FillOne(p, s, cache, k, x, formed);
      var s' := Update(s, A, Filled(p.Lo(), x + 1, cache, formed));
      FillUp(p, s', cache, k, x + 1, formed);
      var full := Filled(p.Lo(), cache[k - 1].end, cache, formed);
      assert Update(s', A, full) == Update(s, A, full);
    } else {
      assert Update(s, A, s.live[A]) == s;
    }
  }

  /** One node, which owns the blocks `l`. */
  function Owning(l: seq<SimpleRange>, nd: Node): Cluster {
    Cluster(map b | b in l :: A, map[A := nd], {}, [])
  }

  lemma OwningReachable(p: Net)
    ensures Reachable(p, Owning([], NEW))
  {
    assert IsRun(p, [INIT]) && [INIT][|[INIT]| - 1] == INIT;
    ReachableStep(p, INIT, Join(A), Update(INIT, A, NEW));
    assert Owning([], NEW).leases == map[];
    assert Owning([], NEW) == Update(INIT, A, NEW);
  }

  /** The state of the node after the first address of a new block. */
  function Started(nd: Node, b: SimpleRange): Node {
    nd.(files := nd.files[b.start := Record(Container(b.start), "e")], last := nd.last[0 := b.start], pc := Idle)
  }

  /** The last reserved address is outside the block, its first address is free, and its container is new. */
  ghost predicate CanStart(p: Net, nd: Node, b: SimpleRange) {
    && b.start <= b.end && Plain(p, b)
    && !Resumes(FreshSet(p, b), LastOf(nd.last, 0)) && b.start !in nd.files
    && !HoldsOne(nd.files, FreshSet(p, b), Container(b.start), "e")
  }

  lemma StartGet(p: Net, nd: Node, b: SimpleRange)
    requires CanStart(p, nd, b)
    ensures var rs, id := FreshSet(p, b), Container(b.start);
            CanGet(rs, nd, id, "e") && AfterGet(rs, nd, id, "e").(pc := Idle) == Started(nd, b)
  {
    hide Plain, Container, HoldsOne, Resumes, Pick, Order, Record;
    PickFirst(p, b, LastOf(nd.last, 0), nd.files);
  }

  /** The node leases the next block and hands out its first address. */
  lemma StartBlock(p: Net, l: seq<SimpleRange>, k: nat, nd: Node, b: SimpleRange)
    requires p.Valid() && FirstBlocks(p, l, k) && (k > 0 ==> l[k - 1].end <= p.range.end)
    requires Reachable(p, Owning(l, nd)) && nd.cache == l && nd.pc.Idle? && CanStart(p, nd, b)
    requires b.start == NextStart(p, l) && b.end == b.start + p.Num() - 1 && b.end <= p.range.end
    ensures Reachable(p, Owning(l + [b], Started(nd, b).(cache := l + [b])))
  {
    hide Reachable, FirstBlocks, FreeRange, IsListing, Appended;
    hide Net.Valid, CanGet, AfterGet, CanStart, NextStart, Net.Num;
    NextIsFree(p, l, k, b);
    BlocksList(p, l, k, nd, b);
    ApplyBlock(p, Owning(l, nd), A, l, b, l + [b]);
    var m := nd.(cache := l + [b], pc := Fresh(b));
    OwningNext(l, nd, b, m);
    CanStartCached(p, nd, m, b);
    StartGet(p, m, b);
    OwningNext(l + [b], m, b, Started(nd, b).(cache := l + [b]));
    ReachableStep(p, Owning(l + [b], m), GetFresh(A, Container(b.start), "e"),
                  Owning(l + [b], Started(nd, b).(cache := l + [b])));
  }

  lemma CanStartCached(p: Net, nd: Node, m: Node, b: SimpleRange)
    requires CanStart(p, nd, b) && m.files == nd.files && m.last == nd.last
    ensures CanStart(p, m, b)
  {
    hide Plain, Resumes, HoldsOne;
  }

  lemma OwningNext(l: seq<SimpleRange>, nd: Node, b: SimpleRange, m: Node)
    ensures Update(Owning(l, nd), A, m).(leases := Owning(l, nd).leases[b := A]) == Owning(l + [b], m)
    ensures Update(Owning(l, nd), A, m) == Owning(l, m)
  {
  }

  lemma NextIsFree(p: Net, l: seq<SimpleRange>, k: nat, b: SimpleRange)
    requires p.Valid() && FirstBlocks(p, l, k)
    requires b.start == NextStart(p, l) && b.end == b.start + p.Num() - 1 && b.end <= p.range.end
    ensures p.unit < 32 && FreeRange(l, p.range, p.unit) == Some(b)
  {
    NextGridBlock(p, l, k, NextStart(p, l));
  }

  lemma BlocksList(p: Net, l: seq<SimpleRange>, k: nat, nd: Node, b: SimpleRange)
    requires p.Valid() && FirstBlocks(p, l, k) && (k > 0 ==> l[k - 1].end <= p.range.end)
    requires b.start == NextStart(p, l) && b.end == b.start + p.Num() - 1
    ensures IsListing(l, Owning(l, nd).leases) && Appended(l, b) == Some(l + [b])
  {
    FirstBlocksListing(p, l, k);
    FirstBlocksInside(p, l, k);
    forall i | 0 <= i < k ensures l[i].end < b.start {
      if i < k - 1 { FirstBlocksApart(p, l, k, i, k - 1); }
      assert l[i] in l;
    }
    hide FirstBlocks, Net.Valid, Net.Lo, NextStart;
    AppendExactly(l, b, p.unit);
  }

  lemma MoreBlocks(p: Net, l: seq<SimpleRange>, k: nat, b: SimpleRange)
    requires FirstBlocks(p, l, k) && b.start == NextStart(p, l) && b.end == b.start + p.Num() - 1
    ensures FirstBlocks(p, l + [b], k + 1)
  {
    hide EffectiveStart, Pow2;
  }

  /** The node forms its range set anew and hands out the rest of its last block. */
  lemma FillBlock(p: Net, l: seq<SimpleRange>, k: nat, formed: set<seq<Range>>)
    requires p.Valid() && FirstBlocks(p, l, k) && k > 0 && l[k - 1].end <= p.range.end && Plain(p, l[k - 1])
    requires Reachable(p, Owning(l, Filled(p.Lo(), l[k - 1].start, l, formed)))
    ensures Reachable(p, Owning(l, Filled(p.Lo(), l[k - 1].end, l, formed + {ClipSet([p.range], l)})))
  {
    hide Reachable, Net.Valid, Plain, FilledFiles, ClipSet, PruneSets, Net.Lo;
    FirstBlocksInside(p, l, k);
    NothingDropped(p, l);
    assert l[k - 1] in l;
    var nd := Filled(p.Lo(), l[k - 1].start, l, formed);
    var formed' := formed + {ClipSet([p.range], l)};
    var nd' := Filled(p.Lo(), l[k - 1].start, l, formed');
    OwningNext(l, nd, l[k - 1], nd');
    ReachableStep(p, Owning(l, nd), Form(A), Owning(l, nd'));
    FillUp(p, Owning(l, nd'), l, k, l[k - 1].start, formed');
    OwningNext(l, nd', l[k - 1], Filled(p.Lo(), l[k - 1].end, l, formed'));
  }

  lemma FirstStarts(p: Net, b: SimpleRange)
    requires p.Valid() && Plain(p, b) && b.start <= b.end
    ensures CanStart(p, NEW, b) && Started(NEW, b).(cache := [b]) == Filled(b.start, b.start, [b], {})
  {
    hide Plain, Record, Container;
    var files: Files := map[];
    assert Owned(files, Container(b.start), "e") == {};
    assert FilledFiles(b.start, b.start) == files[b.start := Record(Container(b.start), "e")];
  }

  lemma SecondStarts(p: Net, lo: uint32, b: SimpleRange, c: SimpleRange, formed: set<seq<Range>>)
    requires p.Valid() && Plain(p, c) && lo <= b.end < c.start <= c.end && c.start == b.end + 1
    ensures CanStart(p, Filled(lo, b.end, [b], formed), c)
    ensures Started(Filled(lo, b.end, [b], formed), c).(cache := [b, c]) == Filled(lo, c.start, [b, c], formed)
  {
    hide Plain, Record, Container, HoldsOne, FilledFiles, Net.Valid;
    NewContainerHoldsNone(lo, b.end, c.start, FreshSet(p, c));
    FilledNext(lo, b.end);
  }

  /** The node fills the first block of the range. */
  lemma FillFirst(p: Net, b: SimpleRange)
    requires p.Valid() && Plain(p, b) && b.start == p.Lo() && b.end == b.start + p.Num() - 1 && b.end <= p.range.end
    ensures Reachable(p, Owning([b], Filled(p.Lo(), b.end, [b], {ClipSet([p.range], [b])}))) && FirstBlocks(p, [b], 1)
  {
    hide Reachable, Net.Valid, FirstBlocks, Plain, CanStart, Started, Filled, Owning, Net.Lo;
    NoBlocks(p);
    MoreBlocks(p, [], 0, b);
    assert [] + [b] == [b];
    OwningReachable(p);
    FirstStarts(p, b);
    StartBlock(p, [], 0, NEW, b);
    FillBlock(p, [b], 1, {});
    assert {} + {ClipSet([p.range], [b])} == {ClipSet([p.range], [b])};
  }

  function BothFormed(p: Net, b: SimpleRange, c: SimpleRange): set<seq<Range>> {
    {ClipSet([p.range], [b]), ClipSet([p.range], [b, c])}
  }

  /** Then it leases the second block and fills it. */
  lemma FillSecond(p: Net, b: SimpleRange, c: SimpleRange)
    requires p.Valid() && Plain(p, b) && b.start == p.Lo() && b.end == b.start + p.Num() - 1
    requires Plain(p, c) && c.start == b.end + 1 && c.end == c.start + p.Num() - 1 && c.end <= p.range.end
    ensures Reachable(p, Owning([b, c], Filled(p.Lo(), c.end, [b, c], BothFormed(p, b, c))))
    ensures FirstBlocks(p, [b, c], 2)
  {
    hide Reachable, Net.Valid, FirstBlocks, Plain, CanStart, Started, Owning, Net.Lo, FilledFiles;
    FillFirst(p, b);
    var formed := {ClipSet([p.range], [b])};
    MoreBlocks(p, [b], 1, c);
    assert [b] + [c] == [b, c];
    SecondStarts(p, p.Lo(), b, c, formed);
    StartBlock(p, [b], 1, Filled(p.Lo(), b.end, [b], formed), c);
    FillBlock(p, [b, c], 2, formed);
    assert formed + {ClipSet([p.range], [b, c])} == BothFormed(p, b, c);
  }

  /** Cutting the range to the cache once more changes nothing, and Get on the pieces never returns, for whichever
      new container. */
  ghost predicate IsStuck(p: Net, nd: Node) {
    var rs := ClipSet([p.range], nd.cache);
    && PruneSets([[p.range]], nd.cache, nd.cache) == nd.cache && rs in nd.formed && Iterable(rs)
    && forall id, ifname :: HoldsOne(nd.files, rs, id, ifname) || GetHangs(rs, LastOf(nd.last, 0), nd.files, id, ifname)
  }

  lemma FilledIsStuck(p: Net, l: seq<SimpleRange>, formed: set<seq<Range>>)
    requires p.Valid() && FirstBlocks(p, l, 2) && l[1].end <= p.range.end && ClipSet([p.range], l) in formed
    ensures IsStuck(p, Filled(p.Lo(), l[1].end, l, formed))
  {
    hide Range.Valid, Iterable, Hangs, HoldsOne, ClipSet, PruneSets, Record;
    FirstBlocksInside(p, l, 2);
    NothingDropped(p, l);
    var files := FilledFiles(p.Lo(), l[1].end);
    forall x, a: uint32 | x in l && x.Has(a) ensures a in files {
    }
    FullBlocksHang(p.range, l, 1, files);
  }

  /** The lowest free block is the one behind the second. */
  lemma ThirdIsFree(p: Net, l: seq<SimpleRange>, nd: Node)
    requires p.Valid() && FirstBlocks(p, l, 2) && l[1].end + p.Num() <= p.range.end
    ensures IsListing(l, Owning(l, nd).leases)
    ensures FreeRange(l, p.range, p.unit) == Some(SimpleRange(l[1].end + 1, l[1].end + p.Num()))
  {
    FirstBlocksListing(p, l, 2);
    hide FreeRange, IsListing, Net.Valid;
    NextGridBlock(p, l, 2, l[1].end + 1);
  }

  /** A history the code allows for every network whose first two blocks fit and hold neither gateway nor reserve: one
      node fills its first block, leases the second and fills it. Then the next request hangs, whoever makes it, and
      the third block is never applied for although it is free. */
  lemma SecondBlockHangs(p: Net) returns (s: Cluster)
    requires p.Valid() && p.Lo() + 2 * p.Num() <= p.range.end + 1
    requires !(p.Lo() <= p.range.gateway < p.Lo() + 2 * p.Num())
    requires forall r :: r in p.range.reserves ==> !(p.Lo() <= r < p.Lo() + 2 * p.Num())
    ensures Reachable(p, s) && A in s.live && s.live[A].pc.Idle? && |s.live[A].cache| == 2 && IsStuck(p, s.live[A])
    ensures p.Lo() + 3 * p.Num() <= p.range.end + 1 ==>
              exists l :: IsListing(l, s.leases) &&
                FreeRange(l, p.range, p.unit) == Some(SimpleRange(p.Lo() + 2 * p.Num(), p.Lo() + 3 * p.Num() - 1))
  {
    hide Reachable, FirstBlocks, IsListing, FreeRange, IsStuck, FilledFiles, Net.Valid, Net.Lo;
    var b := SimpleRange(p.Lo(), p.Lo() + p.Num() - 1);
    var c := SimpleRange(b.end + 1, b.end + p.Num());
    var l := [b, c];
    FillSecond(p, b, c);
    s := Owning(l, Filled(p.Lo(), c.end, l, BothFormed(p, b, c)));
    FilledIsStuck(p, l, BothFormed(p, b, c));
    if p.Lo() + 3 * p.Num() <= p.range.end + 1 {
      ThirdIsFree(p, l, s.live[A]);
    }
  }
}

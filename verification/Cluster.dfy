/** The cluster as a transition system: nodes apply for blocks, hand out addresses, reconcile, come and go,
    and interleave freely between their single accesses to etcd. */
module Cluster {
  import opened Words
  import opened Blocks
  import opened RangeSets
  import opened RangeIteration
  import opened DiskStore
  import opened Etcd
  import opened FirstFit
  import opened Allocator
  import opened Reconcile
  import opened Clipping

  /** The network: its one configured range and the exponent of its block size. */
  datatype Net = Net(range: Range, unit: nat) {

    /** A loaded range with its ends in order. */
    ghost predicate Valid() {
      GoodRange(range) && unit < 32
    }

    function Lo(): uint32 { EffectiveStart(range) }

    function Num(): nat { Pow2(unit) }

    /** `k` whole blocks end right at the range end; `k == 0` is an empty range. */
    predicate Fills(k: nat) {
      Lo() + k * Num() == range.end + 1
    }

    /** The usable addresses are not a whole number of blocks. */
    ghost predicate Uneven() {
      Lo() <= range.end && !exists k: nat :: Fills(k)
    }

    /** A block of the grid that starts at the first usable address. */
    ghost predicate Grid(b: SimpleRange) {
      IsBlock(b, Num()) && b.end <= range.end && exists k: nat :: b.start == Lo() + k * Num()
    }
  }

  /** Where the one serialised activity of a node stands. */
  datatype Pc =
    | Idle
    | Chosen(b: SimpleRange)     // holds the directory mutex: the free block is computed but not yet written
    | Written(b: SimpleRange)    // the lease is written but not yet cached
    | Fresh(b: SimpleRange)      // cached, about to allocate from the new block
    | Checking(own: seq<SimpleRange>, i: nat, caches: seq<SimpleRange>)    // reconciling, first loop
    | Comparing(own: seq<SimpleRange>, caches: seq<SimpleRange>, j: nat)   // reconciling, second loop
    | Absent(own: seq<SimpleRange>, caches: seq<SimpleRange>, j: nat)    // TransPutKey has read that the key is absent

  /** A node; `formed` are the range sets its allocation calls have cut to the cache and may still be using. */
  datatype Node = Node(cache: seq<SimpleRange>, files: Files, last: map<nat, uint32>, formed: set<seq<Range>>, pc: Pc)

  datatype Cluster = Cluster(leases: Leases, live: map<string, Node>, dead: set<string>, purging: seq<SimpleRange>)

  datatype Action =
    | Join(n: string)
    | Die(n: string)
    | PurgeRead(n: string, keys: seq<SimpleRange>)
    | PurgeDelete
    | ApplyRead(n: string, listing: seq<SimpleRange>)
    | ApplyPut(n: string)
    | ApplyAppend(n: string)
    | GetFresh(n: string, id: string, ifname: string)
    | Form(n: string)
    | Get(n: string, rs: seq<Range>, id: string, ifname: string)
    | Release(n: string, id: string, ifname: string)
    | Free(n: string, a: uint32)
    | CheckStart(n: string, own: seq<SimpleRange>)
    | CheckLeaseOf(n: string)
    | CheckReload(n: string)
    | Compare(n: string)
    | ComparePut(n: string)
    | Abort(n: string)

  const INIT: Cluster := Cluster(map[], map[], {}, [])

  const NEW: Node := Node([], map[], map[], {}, Idle)

  function Update(s: Cluster, n: string, nd: Node): Cluster {
    s.(live := s.live[n := nd])
  }

  /** The range set of a freshly leased block. */
  function FreshSet(p: Net, b: SimpleRange): seq<Range> {
    [p.range.(start := b.start, end := b.end)]
  }

  /** Get on a range set that can be iterated and returns. */
  predicate CanGet(rs: seq<Range>, nd: Node, id: string, ifname: string) {
    && Iterable(rs)
    && !GetHangs(rs, LastOf(nd.last, 0), nd.files, id, ifname)
  }

  function AfterGet(rs: seq<Range>, nd: Node, id: string, ifname: string): Node
    requires Iterable(rs)
  {
    var res := GetOutcome(rs, LastOf(nd.last, 0), nd.files, id, ifname);
    nd.(files := FilesAfter(nd.files, res, id, ifname), last := LastAfter(nd.last, res, 0))
  }

  /** The node after one cached block has been compared in the second loop. */
  function Compared(nd: Node, leases: Leases): Node
    requires nd.pc.Comparing? && nd.pc.j < |nd.pc.caches|
  {
    var pc, csr := nd.pc, nd.pc.caches[nd.pc.j];
    if AnyMatches(csr, pc.own) then nd.(pc := Comparing(pc.own, pc.caches, pc.j + 1))
    else if csr.Canonicalize() in leases then
      nd.(cache := Deleted(nd.cache, csr), pc := Comparing(pc.own, pc.caches, pc.j + 1))
    else nd.(pc := Absent(pc.own, pc.caches, pc.j))
  }

  /** One atomic step. An action of a node needs the node to be alive. */
  ghost predicate Next(p: Net, s: Cluster, a: Action, s': Cluster) {
    match a
    case Join(n) => n !in s.live && n !in s.dead && s' == Update(s, n, NEW)
    case Die(n) => n in s.live && s' == s.(live := s.live - {n}, dead := s.dead + {n})
    case PurgeRead(n, keys) =>
      n in s.dead && s.purging == [] && ListsOwn(keys, s.leases, n) && s' == s.(purging := keys)
    case PurgeDelete => s.purging != [] && s' == s.(leases := s.leases - {s.purging[0]}, purging := s.purging[1..])
    case ApplyRead(n, listing) =>
      && n in s.live && s.live[n].pc.Idle?
      && (forall m :: m in s.live ==> !s.live[m].pc.Chosen?)
      && IsListing(listing, s.leases)
      && p.unit < 32 && FreeRange(listing, p.range, p.unit).Some?
      && s' == Update(s, n, s.live[n].(pc := Chosen(FreeRange(listing, p.range, p.unit).value)))
    case ApplyPut(n) =>
      && n in s.live && s.live[n].pc.Chosen?
      && var b := s.live[n].pc.b; s' == Update(s, n, s.live[n].(pc := Written(b))).(leases := s.leases[b := n])
    case ApplyAppend(n) =>
      && n in s.live && s.live[n].pc.Written?
      && var nd, b := s.live[n], s.live[n].pc.b;
         s' == Update(s, n, nd.(cache := Appended(nd.cache, b).GetOr(nd.cache), pc := Fresh(b)))
    case GetFresh(n, id, ifname) =>
      && n in s.live && s.live[n].pc.Fresh?
      && var nd, rs := s.live[n], FreshSet(p, s.live[n].pc.b);
         CanGet(rs, nd, id, ifname) && s' == Update(s, n, AfterGet(rs, nd, id, ifname).(pc := Idle))
    case Form(n) =>
      && n in s.live
      && var nd := s.live[n];
         s' == Update(s, n, nd.(cache := PruneSets([[p.range]], nd.cache, nd.cache),
                                formed := nd.formed + {ClipSet([p.range], nd.cache)}))
    case Get(n, rs, id, ifname) =>
      && n in s.live && rs in s.live[n].formed && CanGet(rs, s.live[n], id, ifname)
      && s' == Update(s, n, AfterGet(rs, s.live[n], id, ifname))
    case Release(n, id, ifname) =>
      n in s.live && s' == Update(s, n, s.live[n].(files := AfterRelease(s.live[n].files, id, ifname)))
    case Free(n, a) => n in s.live && s' == Update(s, n, s.live[n].(files := s.live[n].files - {a}))
    case CheckStart(n, own) =>
      && n in s.live && s.live[n].pc.Idle? && ListsOwn(own, s.leases, n)
      && s' == Update(s, n, s.live[n].(pc := Checking(own, 0, s.live[n].cache)))
    case CheckLeaseOf(n) =>
      && n in s.live && s.live[n].pc.Checking? && s.live[n].pc.i < |s.live[n].pc.own|
      && var nd, pc := s.live[n], s.live[n].pc;
         var t := CheckLease(pc.own[pc.i], pc.caches, State(nd.cache, s.leases));
         s' == Update(s, n, nd.(cache := t.cache, pc := pc.(i := pc.i + 1))).(leases := t.leases)
    case CheckReload(n) =>
      && n in s.live && s.live[n].pc.Checking? && s.live[n].pc.i == |s.live[n].pc.own|
      && s' == Update(s, n, s.live[n].(pc := Comparing(s.live[n].pc.own, s.live[n].cache, 0)))
    case Compare(n) =>
      && n in s.live && s.live[n].pc.Comparing? && s.live[n].pc.j < |s.live[n].pc.caches|
      && s' == Update(s, n, Compared(s.live[n], s.leases))
    case ComparePut(n) =>
      && n in s.live && s.live[n].pc.Absent? && s.live[n].pc.j < |s.live[n].pc.caches|
      && var nd, pc := s.live[n], s.live[n].pc;
         s' == Update(s, n, nd.(pc := Comparing(pc.own, pc.caches, pc.j + 1)))
               .(leases := s.leases[pc.caches[pc.j].Canonicalize() := n])
    case Abort(n) => n in s.live && s' == Update(s, n, s.live[n].(pc := Idle))
  }

  ghost predicate Step(p: Net, s: Cluster, s': Cluster) {
    exists a :: Next(p, s, a, s')
  }

  /** A finite history from the empty cluster. */
  ghost predicate IsRun(p: Net, run: seq<Cluster>) {
    && run != [] && run[0] == INIT
    && forall i :: 0 <= i < |run| - 1 ==> Step(p, run[i], run[i + 1])
  }

  /** No two live nodes hold the same address. */
  ghost predicate UniqueAddresses(s: Cluster) {
    forall n, m :: n in s.live && m in s.live && n != m ==> s.live[n].files.Keys !! s.live[m].files.Keys
  }

  /* ---------- the block behind the range ---------- */

  /** The block behind the range does not wrap past 2^32. */
  predicate HasRoom(p: Net) {
    p.range.Valid() && Max(p.Lo(), p.range.end + 1) + p.Num() <= TWO32
  }

  /** The block that an exhausted range yields: right behind the range, or at the first usable address
      of an empty range. */
  function Overflow(p: Net): SimpleRange
    requires HasRoom(p)
  {
    EffectiveStartBounds(p.range);
    var w := Max(p.Lo(), p.range.end + 1);
    SimpleRange(w, w + p.Num() - 1)
  }

  /** No address of that block is handed out: it holds but the gateway and a reserve in first place. */
  ghost predicate Barren(p: Net) {
    HasRoom(p) && forall a: uint32 :: !Handed(FreshSet(p, Overflow(p)), true, a)
  }

  /** The block behind the range, when the range can run out but that block hands out nothing. */
  ghost predicate Spare(p: Net, b: SimpleRange) {
    !p.Uneven() && Barren(p) && b == Overflow(p)
  }

  /** A block that may be leased. */
  ghost predicate Lot(p: Net, b: SimpleRange) {
    p.Grid(b) || Spare(p, b)
  }

  /** What keeps addresses unique: the range never runs out, or the block behind it is of no use. */
  ghost predicate Safe(p: Net) {
    p.Uneven() || Barren(p)
  }

  lemma OverflowBounds(p: Net)
    requires HasRoom(p)
    ensures var w := Overflow(p);
            p.range.end < w.start && p.Lo() <= w.start <= w.end && IsBlock(w, p.Num())
  {
    EffectiveStartBounds(p.range);
  }

  /* ---------- the grid ---------- */

  lemma MulGap(i: nat, j: nat, num: nat)
    requires i < j
    ensures i * num + num <= j * num
  {
    assert j * num == i * num + (j - i) * num;
    assert (j - i) * num == num + (j - i - 1) * num;
  }

  /** Grid blocks that meet are equal. */
  lemma GridDisjoint(p: Net, a: SimpleRange, b: SimpleRange)
    requires p.Grid(a) && p.Grid(b) && Intersects(a, b)
    ensures a == b
  {
    var i: nat :| a.start == p.Lo() + i * p.Num();
    var j: nat :| b.start == p.Lo() + j * p.Num();
    if i < j { MulGap(i, j, p.Num()); }
    if j < i { MulGap(j, i, p.Num()); }
  }

  ghost predicate AllLots(p: Net, s: set<SimpleRange>) {
    forall b :: b in s ==> Lot(p, b)
  }

  lemma LotBounds(p: Net, b: SimpleRange)
    requires Lot(p, b)
    ensures p.Lo() <= b.start <= b.end && IsBlock(b, p.Num())
    ensures if Spare(p, b) then p.range.end < b.start else b.end <= p.range.end && p.Grid(b)
  {
    if p.Grid(b) {
      GridBounds(p, b);
    }
    if Spare(p, b) {
      OverflowBounds(p);
    }
  }

  /** Lots that meet are equal. */
  lemma LotDisjoint(p: Net, a: SimpleRange, b: SimpleRange)
    requires Lot(p, a) && Lot(p, b) && Intersects(a, b)
    ensures a == b
  {
    LotBounds(p, a);
    LotBounds(p, b);
    if p.Grid(a) && p.Grid(b) {
      GridDisjoint(p, a, b);
    }
  }

  lemma GridBounds(p: Net, b: SimpleRange)
    requires p.Grid(b)
    ensures p.Lo() <= b.start <= b.end <= p.range.end && IsBlock(b, p.Num())
  {
    var k: nat :| b.start == p.Lo() + k * p.Num();
    assert 0 <= k * p.Num();
  }

  lemma ListingSorted(p: Net, listing: seq<SimpleRange>, leases: Leases)
    requires AllLots(p, leases.Keys) && IsListing(listing, leases)
    ensures Sorted(listing) && NoneStartsBelow(listing, p.Lo())
  {
    hide Lot, Net.Lo, Net.Num, Spare;
    forall i | 0 <= i < |listing| ensures Lot(p, listing[i]) && p.Lo() <= listing[i].start <= listing[i].end {
      assert listing[i] in listing;
      LotBounds(p, listing[i]);
    }
    forall i, j | 0 <= i < j < |listing| ensures listing[i].end < listing[j].start {
      if listing[j].start <= listing[i].end {
        LotDisjoint(p, listing[i], listing[j]);
      }
    }
  }

  /** With an uneven size no grid block ends at the range end, so that address is never leased. */
  lemma EndNotLeased(p: Net, listing: seq<SimpleRange>)
    requires p.Valid() && p.Uneven() && forall b :: b in listing ==> Lot(p, b)
    ensures !Leased(listing, p.range.end)
  {
    if i :| 0 <= i < |listing| && listing[i].Has(p.range.end) {
      var b := listing[i];
      assert b in listing;
      var k: nat :| b.start == p.Lo() + k * p.Num();
      assert (k + 1) * p.Num() == k * p.Num() + p.Num();
      assert p.Fills(k + 1);
    }
  }

  /** A lowest free block starts at the first usable address or right behind a lease. */
  lemma FirstFitFollows(p: Net, listing: seq<SimpleRange>, b: SimpleRange)
    requires p.Valid() && forall l :: l in listing ==> Lot(p, l)
    requires IsFirstFit(listing, p.Lo(), p.range.end, p.Num(), Some(b))
    ensures p.Grid(b) && b !in listing
  {
    if b.start == p.Lo() {
      assert b.start == p.Lo() + 0 * p.Num();
    } else {
      assert Blocked(listing, b.start - 1, p.Num());
      var i :| 0 <= i < |listing| && listing[i].start <= b.start - 1 + p.Num() - 1 && b.start - 1 <= listing[i].end;
      var l := listing[i];
      assert l in listing;
      LotBounds(p, l);
      var k: nat :| l.start == p.Lo() + k * p.Num();
      assert (k + 1) * p.Num() == k * p.Num() + p.Num();
      assert b.start == p.Lo() + (k + 1) * p.Num();
    }
  }

  /** On leases of lots, an application gets a free grid block or the block behind the range, and the latter only
      if the size is not uneven. */
  lemma AppliedBlockIsNewOrOverflow(p: Net, listing: seq<SimpleRange>, leases: Leases)
    requires p.Valid() && (p.Uneven() || HasRoom(p)) && AllLots(p, leases.Keys) && IsListing(listing, leases)
    requires FreeRange(listing, p.range, p.unit).Some?
    ensures var b := FreeRange(listing, p.range, p.unit).value;
            (p.Grid(b) && b !in leases) || (!p.Uneven() && b == Overflow(p))
  {
    ListingSorted(p, listing, leases);
    FirstFitExactly(listing, p.range, p.unit);
    var b := FreeRange(listing, p.range, p.unit).value;
    if IsFirstFit(listing, p.Lo(), p.range.end, p.Num(), Some(b)) {
      FirstFitFollows(p, listing, b);
    } else {
      if p.Uneven() {
        EndNotLeased(p, listing);
      }
      OverflowYielded(p, listing);
    }
  }

  /** What comes back when the scan is not first fit. */
  lemma OverflowYielded(p: Net, listing: seq<SimpleRange>)
    requires p.Valid() && HasRoom(p) && Sorted(listing) && NoneStartsBelow(listing, p.Lo())
    requires p.Lo() <= p.range.end ==>
               Leased(listing, p.range.end) && !HasFreeBlock(listing, p.Lo(), p.range.end, p.Num())
    ensures FreeRange(listing, p.range, p.unit) == Some(Overflow(p))
  {
    Pow2Below32(p.unit);
    EffectiveStartBounds(p.range);
    if p.range.end < p.Lo() {
      SkipRest(listing, 0, p.Lo(), p.range.end, p.Num());
      assert listing[0..] == listing;
      SegmentShape(p.Lo(), p.Num());
    } else {
      ExhaustedRangeWraps(listing, p.range, p.unit);
      SegmentShape(p.range.end + 1, p.Num());
    }
  }

  /* ---------- the invariant ---------- */

  /** The blocks a node owns, apart from the spare one, which several nodes may hold. */
  ghost function Held(p: Net, leases: Leases, n: string): set<SimpleRange> {
    set b | b in leases && leases[b] == n && !Spare(p, b)
  }

  ghost predicate Inside(p: Net, l: seq<SimpleRange>, own: set<SimpleRange>) {
    forall b :: b in l ==> b in own || Spare(p, b)
  }

  ghost predicate Lists(p: Net, l: seq<SimpleRange>, own: set<SimpleRange>) {
    && (forall b :: b in own ==> b in l) && Inside(p, l, own)
    && (forall i, j :: 0 <= i < j < |l| ==> l[i] != l[j])
  }

  ghost predicate Within(files: Files, own: set<SimpleRange>) {
    forall a :: a in files ==> exists b :: b in own && b.Has(a)
  }

  /** Every address of the ranges lies in an owned block. */
  ghost predicate RangesWithin(rs: seq<Range>, own: set<SimpleRange>) {
    forall i, a: uint32 :: 0 <= i < |rs| && InRange(rs, i, a) ==> exists b :: b in own && b.Has(a)
  }

  /** What the activity of a node may rely on, given the blocks it owns. */
  ghost predicate PcOk(p: Net, nd: Node, own: set<SimpleRange>) {
    match nd.pc
    case Idle => true
    case Chosen(_) => true
    case Written(b) => b in own || Spare(p, b)
    case Fresh(b) => b in own || Spare(p, b)
    case Checking(l, i, caches) =>
      && Lists(p, l, own) && i <= |l| && Tidy(caches, p.unit) && Inside(p, caches, own)
      && forall c :: c in nd.cache ==> c in caches || c in l[..i]
    case Comparing(l, caches, _) => Lists(p, l, own) && Inside(p, caches, own)
    case Absent(l, caches, j) => Lists(p, l, own) && Inside(p, caches, own) && j < |caches| && Spare(p, caches[j])
  }

  ghost predicate NodeOk(p: Net, nd: Node, own: set<SimpleRange>) {
    && Tidy(nd.cache, p.unit) && Inside(p, nd.cache, own) && Within(nd.files, own)
    && (0 in nd.last ==> nd.last[0] <= p.range.end)
    && (forall rs :: rs in nd.formed ==> RangesWithin(rs, own))
    && PcOk(p, nd, own)
  }

  /** Leases are lots; every live node's cache and reservations lie in blocks it owns, but for the spare block;
      a chosen block is still free or spare; what is being purged belongs to the dead or is spare. */
  ghost predicate Inv(p: Net, s: Cluster) {
    && s.live.Keys !! s.dead
    && AllLots(p, s.leases.Keys)
    && (forall n :: n in s.live ==> NodeOk(p, s.live[n], Held(p, s.leases, n)))
    && (forall n :: n in s.live && s.live[n].pc.Chosen? ==>
          Spare(p, s.live[n].pc.b) || (p.Grid(s.live[n].pc.b) && s.live[n].pc.b !in s.leases))
    && (forall n, m :: n in s.live && m in s.live && s.live[n].pc.Chosen? && s.live[m].pc.Chosen? ==> n == m)
    && (forall b :: b in s.purging ==> Spare(p, b) || (b in s.leases && s.leases[b] in s.dead))
    && (forall i, j :: 0 <= i < j < |s.purging| ==> s.purging[i] != s.purging[j])
  }

  lemma InvGivesUniqueAddresses(p: Net, s: Cluster)
    requires Inv(p, s)
    ensures UniqueAddresses(s)
  {
    forall n, m, a | n in s.live && m in s.live && n != m && a in s.live[n].files && a in s.live[m].files
      ensures false
    {
      assert NodeOk(p, s.live[n], Held(p, s.leases, n)) && NodeOk(p, s.live[m], Held(p, s.leases, m));
      var b :| b in Held(p, s.leases, n) && b.Has(a);
      var c :| c in Held(p, s.leases, m) && c.Has(a);
      assert p.Grid(b) && p.Grid(c);
      GridDisjoint(p, b, c);
    }
  }

  /* ---------- steps that change one node and no lease ---------- */

  /** Replacing one node by one that is fine keeps the invariant, if it does not enter the mutex. */
  lemma UpdateKeepsInv(p: Net, s: Cluster, n: string, nd: Node)
    requires Inv(p, s) && n !in s.dead && NodeOk(p, nd, Held(p, s.leases, n))
    requires nd.pc.Chosen? ==> n in s.live && nd.pc == s.live[n].pc
    ensures Inv(p, Update(s, n, nd))
  {
    hide NodeOk, Held, Spare, Net.Grid;
  }

  lemma CachedIsLot(p: Net, leases: Leases, n: string, b: SimpleRange)
    requires AllLots(p, leases.Keys) && (b in Held(p, leases, n) || Spare(p, b))
    ensures Lot(p, b) && IsBlock(b, p.Num()) && b.start <= b.end
  {
    LotBounds(p, b);
  }

  /** A new entry of the cache that the node owns. */
  lemma AppendOwned(p: Net, leases: Leases, n: string, cache: seq<SimpleRange>, b: SimpleRange)
    requires AllLots(p, leases.Keys) && Tidy(cache, p.unit) && Inside(p, cache, Held(p, leases, n))
    requires b in Held(p, leases, n) || Spare(p, b)
    ensures var c := Appended(cache, b).GetOr(cache); Tidy(c, p.unit) && Inside(p, c, Held(p, leases, n))
    ensures b !in cache ==> Appended(cache, b) == Some(cache + [b])
  {
    hide Spare, Held, Net.Grid;
    CachedIsLot(p, leases, n, b);
    AppendExactly(cache, b, p.unit);
    if b !in cache {
      forall i | 0 <= i < |cache| ensures !Intersects(cache[i], b) {
        assert cache[i] in cache;
        CachedIsLot(p, leases, n, cache[i]);
        if Intersects(cache[i], b) { LotDisjoint(p, cache[i], b); }
      }
    }
  }

  ghost predicate LastBelow(nd: Node, end: int) {
    0 in nd.last ==> nd.last[0] <= end
  }

  /** Handing out an address of a range set that lies in owned blocks. */
  lemma GetStaysWithin(p: Net, rs: seq<Range>, nd: Node, id: string, ifname: string, own: set<SimpleRange>)
    requires Iterable(rs) && Within(nd.files, own) && LastBelow(nd, p.range.end)
    requires RangesWithin(rs, own) && forall b :: b in own ==> b.end <= p.range.end
    ensures var after := AfterGet(rs, nd, id, ifname); Within(after.files, own) && LastBelow(after, p.range.end)
  {
    var res := GetOutcome(rs, LastOf(nd.last, 0), nd.files, id, ifname);
    if res.Got? {
      GotIsFirstFree(rs, LastOf(nd.last, 0), nd.files, id, ifname);
      var i :| 0 <= i < |rs| && InRange(rs, i, res.addr);
    }
  }

  lemma HeldEnds(p: Net, leases: Leases, n: string)
    requires AllLots(p, leases.Keys)
    ensures forall b :: b in Held(p, leases, n) ==> b.end <= p.range.end
  {
    forall b | b in Held(p, leases, n) ensures b.end <= p.range.end {
      LotBounds(p, b);
    }
  }

  /** The cached part of the range lies in the blocks the node owns, and clipping only drops cache entries. */
  lemma ClippedWithin(p: Net, leases: Leases, n: string, cache: seq<SimpleRange>)
    requires p.Valid() && AllLots(p, leases.Keys) && Tidy(cache, p.unit) && Inside(p, cache, Held(p, leases, n))
    ensures var c := PruneSets([[p.range]], cache, cache); Tidy(c, p.unit) && forall b :: b in c ==> b in cache
    ensures RangesWithin(ClipSet([p.range], cache), Held(p, leases, n))
  {
    hide Touches, Clip, PruneSets, Held, Spare, Net.Grid, Net.Lo, Net.Num;
    var at := PruneSetsExactly([[p.range]], cache, p.unit);
    var rs := ClipSet([p.range], cache);
    ClipSetMembers([p.range], cache);
    forall i, a: uint32 | 0 <= i < |rs| && InRange(rs, i, a) ensures exists b :: b in Held(p, leases, n) && b.Has(a) {
      assert rs[i] in rs && RangeHas(rs[i], a);
      var ro, c :| ro in [p.range] && c in cache && Touches(ro, c) && rs[i] == Clip(ro, c);
      CachedIsLot(p, leases, n, c);
      LotBounds(p, c);
      ClipExactly(p.range, c);
      assert RangeHas(Clip(p.range, c), a);
    }
  }

  lemma PrunedKeepsOk(p: Net, nd: Node, own: set<SimpleRange>, cache: seq<SimpleRange>, rs: seq<Range>)
    requires NodeOk(p, nd, own) && Tidy(cache, p.unit) && forall c :: c in cache ==> c in nd.cache
    requires RangesWithin(rs, own)
    ensures NodeOk(p, nd.(cache := cache, formed := nd.formed + {rs}), own)
  {
    hide Spare, RangesWithin;
  }

  lemma FormKeepsInv(p: Net, s: Cluster, n: string, s': Cluster)
    requires p.Valid() && Inv(p, s) && Next(p, s, Form(n), s')
    ensures Inv(p, s')
  {
    hide Held, Spare, PruneSets, ClipSet, RangesWithin;
    var nd, own := s.live[n], Held(p, s.leases, n);
    assert NodeOk(p, nd, own);
    ClippedWithin(p, s.leases, n, nd.cache);
    var cache, rs := PruneSets([[p.range]], nd.cache, nd.cache), ClipSet([p.range], nd.cache);
    PrunedKeepsOk(p, nd, own, cache, rs);
    UpdateKeepsInv(p, s, n, nd.(cache := cache, formed := nd.formed + {rs}));
  }

  lemma GetKeepsInv(p: Net, s: Cluster, n: string, rs: seq<Range>, id: string, ifname: string, s': Cluster)
    requires p.Valid() && Inv(p, s) && Next(p, s, Get(n, rs, id, ifname), s')
    ensures Inv(p, s')
  {
    hide Iterable, GetOutcome, GetHangs, AfterRelease, Held, Spare, RangesWithin;
    var nd, own := s.live[n], Held(p, s.leases, n);
    assert NodeOk(p, nd, own);
    HeldEnds(p, s.leases, n);
    GetStaysWithin(p, rs, nd, id, ifname, own);
    UpdateKeepsInv(p, s, n, AfterGet(rs, nd, id, ifname));
  }

  lemma FreshWithin(p: Net, b: SimpleRange, own: set<SimpleRange>)
    requires b in own
    ensures RangesWithin(FreshSet(p, b), own)
  {
    forall i, a: uint32 | 0 <= i < |FreshSet(p, b)| && InRange(FreshSet(p, b), i, a)
      ensures exists b :: b in own && b.Has(a)
    {
      assert b.Has(a);
    }
  }

  /** The spare block hands out nothing to a node whose marks lie in the range. */
  lemma SpareGivesNothing(p: Net, nd: Node, b: SimpleRange, id: string, ifname: string)
    requires Spare(p, b) && Iterable(FreshSet(p, b)) && LastBelow(nd, p.range.end)
    ensures AfterGet(FreshSet(p, b), nd, id, ifname) == nd
  {
    OverflowBounds(p);
    var rs, last := FreshSet(p, b), LastOf(nd.last, 0);
    assert !Resumes(rs, last);
    NothingFreeExactly(rs, last, nd.files);
  }

  lemma GetFreshKeepsInv(p: Net, s: Cluster, n: string, id: string, ifname: string, s': Cluster)
    requires p.Valid() && Inv(p, s) && Next(p, s, GetFresh(n, id, ifname), s')
    ensures Inv(p, s')
  {
    hide Iterable, GetOutcome, GetHangs, AfterRelease, Held, Spare;
    var nd, own := s.live[n], Held(p, s.leases, n);
    assert NodeOk(p, nd, own);
    var b := nd.pc.b;
    var rs := FreshSet(p, b);
    if Spare(p, b) {
      SpareGivesNothing(p, nd, b, id, ifname);
    } else {
      FreshWithin(p, b, own);
      HeldEnds(p, s.leases, n);
      GetStaysWithin(p, rs, nd, id, ifname, own);
    }
    UpdateKeepsInv(p, s, n, AfterGet(rs, nd, id, ifname).(pc := Idle));
  }

  lemma ApplyAppendKeepsInv(p: Net, s: Cluster, n: string, s': Cluster)
    requires p.Valid() && Inv(p, s) && Next(p, s, ApplyAppend(n), s')
    ensures Inv(p, s')
  {
    hide Appended, Held, Spare;
    var nd, b := s.live[n], s.live[n].pc.b;
    assert NodeOk(p, nd, Held(p, s.leases, n));
    AppendOwned(p, s.leases, n, nd.cache, b);
    UpdateKeepsInv(p, s, n, nd.(cache := Appended(nd.cache, b).GetOr(nd.cache), pc := Fresh(b)));
  }

  /** One lease of the first loop, when the loaded cache and the cache lie in the node's leases: a lease that is
      not cached is appended, and nothing else happens. */
  lemma CheckLeaseAppends(p: Net, leases: Leases, n: string, caches: seq<SimpleRange>, cache: seq<SimpleRange>,
                      l: SimpleRange)
    requires AllLots(p, leases.Keys) && (l in Held(p, leases, n) || Spare(p, l))
    requires Tidy(caches, p.unit) && Inside(p, caches, Held(p, leases, n))
    requires Tidy(cache, p.unit) && Inside(p, cache, Held(p, leases, n))
    requires l !in caches ==> l !in cache
    ensures var c := if l in caches then cache else cache + [l];
            && CheckLease(l, caches, State(cache, leases)) == State(c, leases)
            && Tidy(c, p.unit) && Inside(p, c, Held(p, leases, n))
  {
    hide Appended, ScanCache, Spare, Held, Net.Grid;
    CachedIsLot(p, leases, n, l);
    forall b | b in caches && Intersects(b, l) ensures b == l {
      CachedIsLot(p, leases, n, b);
      LotDisjoint(p, b, l);
    }
    ScanCacheExactly(caches, l, cache, p.unit);
    AppendOwned(p, leases, n, cache, l);
  }

  /** While the node is not applying for blocks itself, reconciling finds its cache inside its leases: the first
      loop only adds missing leases, and no lease is given up. */
  lemma CheckLeaseKeepsInv(p: Net, s: Cluster, n: string, s': Cluster)
    requires p.Valid() && Inv(p, s) && Next(p, s, CheckLeaseOf(n), s')
    ensures Inv(p, s') && s'.leases == s.leases
  {
    hide CheckLease, Tidy, Spare, Held;
    var nd, pc, own := s.live[n], s.live[n].pc, Held(p, s.leases, n);
    assert NodeOk(p, nd, own);
    var l := pc.own[pc.i];
    assert l in pc.own && l !in pc.own[..pc.i];
    assert pc.own[..pc.i + 1] == pc.own[..pc.i] + [l];
    CheckLeaseAppends(p, s.leases, n, pc.caches, nd.cache, l);
    var cache := if l in pc.caches then nd.cache else nd.cache + [l];
    UpdateKeepsInv(p, s, n, nd.(cache := cache, pc := Checking(pc.own, pc.i + 1, pc.caches)));
  }

  lemma ComparedIsOk(p: Net, leases: Leases, n: string, nd: Node)
    requires p.Valid() && AllLots(p, leases.Keys) && NodeOk(p, nd, Held(p, leases, n))
    requires nd.pc.Comparing? && nd.pc.j < |nd.pc.caches|
    ensures NodeOk(p, Compared(nd, leases), Held(p, leases, n))
  {
    hide Spare, Held, Deleted;
    var pc, own := nd.pc, Held(p, leases, n);
    var csr := pc.caches[pc.j];
    assert csr in pc.caches;
    if csr in own {
      var i :| 0 <= i < |pc.own| && pc.own[i] == csr;
      assert csr.Match(pc.own[i]);
    } else {
      CachedIsLot(p, leases, n, csr);
      DeletedMembers(nd.cache, csr, p.unit);
    }
  }

  /** In the second loop every cached block has its lease, so that nothing is put or deleted but the spare block. */
  lemma CompareKeepsInv(p: Net, s: Cluster, n: string, s': Cluster)
    requires p.Valid() && Inv(p, s) && Next(p, s, Compare(n), s')
    ensures Inv(p, s') && s'.leases == s.leases
  {
    hide Spare, Held, NodeOk, Compared, Net.Grid, AllLots;
    ComparedIsOk(p, s.leases, n, s.live[n]);
    ComparedStays(s.live[n], s.leases);
    UpdateKeepsInv(p, s, n, Compared(s.live[n], s.leases));
  }

  lemma ComparedStays(nd: Node, leases: Leases)
    requires nd.pc.Comparing? && nd.pc.j < |nd.pc.caches|
    ensures !Compared(nd, leases).pc.Chosen?
  {
  }

  /** Changing one node and the lease of one block that no other node counts on keeps the invariant. */
  lemma LeaseUpdateKeepsInv(p: Net, s: Cluster, n: string, nd: Node, b: SimpleRange)
    requires Inv(p, s) && n in s.live && Lot(p, b) && !nd.pc.Chosen?
    requires NodeOk(p, nd, Held(p, s.leases[b := n], n))
    requires forall m :: m in s.live && m != n ==> Held(p, s.leases[b := n], m) == Held(p, s.leases, m)
    requires Spare(p, b) || (s.live[n].pc.Chosen? && b !in s.leases)
    ensures Inv(p, Update(s, n, nd).(leases := s.leases[b := n]))
  {
    var s' := Update(s, n, nd).(leases := s.leases[b := n]);
    hide NodeOk, Held, Spare, Net.Grid, Lot;
    assert forall c :: c in s'.leases.Keys ==> c == b || c in s.leases.Keys;
    forall m | m in s'.live && s'.live[m].pc.Chosen?
      ensures Spare(p, s'.live[m].pc.b) || (p.Grid(s'.live[m].pc.b) && s'.live[m].pc.b !in s'.leases) {
      assert m in s.live && s.live[m].pc.Chosen? && m != n;
    }
  }

  /** The write of the second loop concerns the spare block only. */
  lemma ComparePutKeepsInv(p: Net, s: Cluster, n: string, s': Cluster)
    requires p.Valid() && Inv(p, s) && Next(p, s, ComparePut(n), s')
    ensures Inv(p, s') && Spare(p, s.live[n].pc.caches[s.live[n].pc.j])
  {
    hide Spare, Held, Net.Grid, PcOk;
    var nd, pc := s.live[n], s.live[n].pc;
    assert NodeOk(p, nd, Held(p, s.leases, n));
    var w := pc.caches[pc.j];
    AbsentMovesOn(p, nd, Held(p, s.leases, n));
    SpareCanonical(p, w);
    SpareChangesNothing(p, s.leases, s.leases[w := n], w);
    hide Inv, NodeOk, Lot;
    LeaseUpdateKeepsInv(p, s, n, nd.(pc := Comparing(pc.own, pc.caches, pc.j + 1)), w);
  }

  lemma AbsentMovesOn(p: Net, nd: Node, own: set<SimpleRange>)
    requires NodeOk(p, nd, own) && nd.pc.Absent?
    ensures nd.pc.j < |nd.pc.caches| && Spare(p, nd.pc.caches[nd.pc.j])
    ensures NodeOk(p, nd.(pc := Comparing(nd.pc.own, nd.pc.caches, nd.pc.j + 1)), own)
  {
    hide Spare;
  }

  lemma SpareCanonical(p: Net, w: SimpleRange)
    requires p.Valid() && Spare(p, w)
    ensures w.Canonicalize() == w && Lot(p, w)
  {
    OverflowBounds(p);
    BlockIsSegment(w, p.unit);
  }

  /** A change of the spare lease changes what no node owns. */
  lemma SpareChangesNothing(p: Net, leases: Leases, leases': Leases, w: SimpleRange)
    requires Spare(p, w) && leases - {w} == leases' - {w}
    ensures forall m :: Held(p, leases', m) == Held(p, leases, m)
  {
    hide Spare;
    forall b | b != w ensures b in leases <==> b in leases'
                      ensures b in leases ==> leases[b] == leases'[b] {
      assert b in leases <==> b in leases - {w};
      assert b in leases' <==> b in leases' - {w};
      if b in leases { assert (leases - {w})[b] == (leases' - {w})[b]; }
    }
  }

  /** The other steps of one node on its own state. */
  lemma LocalKeepsInv(p: Net, s: Cluster, a: Action, s': Cluster)
    requires p.Valid() && Inv(p, s) && Next(p, s, a, s')
    requires a.Join? || a.Release? || a.Free? || a.CheckStart? || a.CheckReload? || a.Abort?
    ensures Inv(p, s')
  {
    hide AfterRelease, Inv, Held, Spare;
    match a
    case Join(n) =>
      JoinIsFine(p, s, n);
    case Release(n, id, ifname) =>
      ReleaseShrinks(s.live[n].files, id, ifname);
      LocalUpdate(p, s, n, s.live[n].(files := AfterRelease(s.live[n].files, id, ifname)));
    case Free(n, x) =>
      LocalUpdate(p, s, n, s.live[n].(files := s.live[n].files - {x}));
    case CheckStart(n, own) =>
      LocalUpdate(p, s, n, s.live[n].(pc := Checking(own, 0, s.live[n].cache)));
    case CheckReload(n) =>
      LocalUpdate(p, s, n, s.live[n].(pc := Comparing(s.live[n].pc.own, s.live[n].cache, 0)));
    case Abort(n) =>
      LocalUpdate(p, s, n, s.live[n].(pc := Idle));
  }

  lemma JoinIsFine(p: Net, s: Cluster, n: string)
    requires p.Valid() && Inv(p, s) && n !in s.dead
    ensures Inv(p, Update(s, n, NEW))
  {
    hide Held, Spare;
    UpdateKeepsInv(p, s, n, NEW);
  }

  /** A node that keeps its cache, does not gain reservations and moves on within its activity. */
  lemma LocalUpdate(p: Net, s: Cluster, n: string, nd: Node)
    requires p.Valid() && Inv(p, s) && n in s.live
    requires nd.cache == s.live[n].cache && nd.last == s.live[n].last && nd.formed == s.live[n].formed
    requires nd.files.Keys <= s.live[n].files.Keys
    requires || nd.pc == s.live[n].pc
             || nd.pc == Idle
             || (nd.pc.Checking? && nd.pc.i == 0 && nd.pc.caches == nd.cache && ListsOwn(nd.pc.own, s.leases, n))
             || (&& nd.pc.Comparing? && nd.pc.caches == nd.cache
                 && s.live[n].pc.Checking? && nd.pc.own == s.live[n].pc.own)
    ensures Inv(p, Update(s, n, nd))
  {
    hide Spare;
    assert NodeOk(p, s.live[n], Held(p, s.leases, n));
    UpdateKeepsInv(p, s, n, nd);
  }

  lemma ReleaseShrinks(files: Files, id: string, ifname: string)
    ensures AfterRelease(files, id, ifname).Keys <= files.Keys
  {
  }

  /* ---------- steps on the leases and on the set of nodes ---------- */

  lemma ApplyReadKeepsInv(p: Net, s: Cluster, n: string, listing: seq<SimpleRange>, s': Cluster)
    requires p.Valid() && Safe(p) && Inv(p, s) && Next(p, s, ApplyRead(n, listing), s')
    ensures Inv(p, s')
  {
    hide FreeRange, Held, Net.Grid, Net.Uneven;
    assert NodeOk(p, s.live[n], Held(p, s.leases, n));
    AppliedBlockIsNewOrOverflow(p, listing, s.leases);
  }

  /** Writing the lease of a free or spare block changes what no other node owns. */
  lemma ApplyPutKeepsInv(p: Net, s: Cluster, n: string, s': Cluster)
    requires p.Valid() && Inv(p, s) && Next(p, s, ApplyPut(n), s')
    ensures Inv(p, s')
  {
    hide Net.Grid, Spare;
    var nd, b := s.live[n], s.live[n].pc.b;
    assert NodeOk(p, nd, Held(p, s.leases, n));
    HeldAfterPut(p, s.leases, n, b);
    hide Inv, Held;
    GainKeepsOk(p, nd, Held(p, s.leases, n), Held(p, s'.leases, n), b);
    LeaseUpdateKeepsInv(p, s, n, nd.(pc := Written(b)), b);
  }

  lemma HeldAfterPut(p: Net, leases: Leases, n: string, b: SimpleRange)
    requires Spare(p, b) || b !in leases
    ensures forall m :: Held(p, leases[b := n], m) ==
                        if m == n && !Spare(p, b) then Held(p, leases, m) + {b} else Held(p, leases, m)
  {
    hide Spare;
    if Spare(p, b) {
      SpareChangesNothing(p, leases, leases[b := n], b);
    }
  }

  lemma GainKeepsOk(p: Net, nd: Node, own: set<SimpleRange>, own': set<SimpleRange>, b: SimpleRange)
    requires NodeOk(p, nd, own) && own' == if Spare(p, b) then own else own + {b}
    ensures NodeOk(p, nd.(pc := Written(b)), own')
  {
    hide Spare;
  }

  lemma PurgeKeepsInv(p: Net, s: Cluster, a: Action, s': Cluster)
    requires p.Valid() && Inv(p, s) && Next(p, s, a, s') && (a.Die? || a.PurgeRead? || a.PurgeDelete?)
    ensures Inv(p, s')
  {
    hide Spare;
    if a.PurgeDelete? {
      PurgeDeleteKeepsHeld(p, s, s');
    }
    hide Held;
    forall m | m in s'.live ensures NodeOk(p, s'.live[m], Held(p, s'.leases, m)) {
      assert NodeOk(p, s.live[m], Held(p, s.leases, m));
    }
    if a.PurgeDelete? {
      forall b | b in s'.purging ensures Spare(p, b) || (b in s'.leases && s'.leases[b] in s'.dead) {
        assert b in s.purging;
        var j :| 0 <= j < |s'.purging| && s'.purging[j] == b;
        assert s.purging[j + 1] == b;
      }
    }
  }

  lemma PurgeDeleteKeepsHeld(p: Net, s: Cluster, s': Cluster)
    requires Inv(p, s) && Next(p, s, PurgeDelete, s')
    ensures forall m :: m in s'.live ==> Held(p, s'.leases, m) == Held(p, s.leases, m)
  {
    hide Spare, NodeOk;
    assert s.purging[0] in s.purging;
  }

  /** Every step keeps the invariant. */
  lemma StepKeepsInv(p: Net, s: Cluster, a: Action, s': Cluster)
    requires p.Valid() && Safe(p) && Inv(p, s) && Next(p, s, a, s')
    ensures Inv(p, s')
  {
    hide Inv, Safe;
    match a
    case Join(_) => LocalKeepsInv(p, s, a, s');
    case Die(_) => PurgeKeepsInv(p, s, a, s');
    case PurgeRead(_, _) => PurgeKeepsInv(p, s, a, s');
    case PurgeDelete => PurgeKeepsInv(p, s, a, s');
    case ApplyRead(n, listing) => ApplyReadKeepsInv(p, s, n, listing, s');
    case ApplyPut(n) => ApplyPutKeepsInv(p, s, n, s');
    case ApplyAppend(n) => ApplyAppendKeepsInv(p, s, n, s');
    case GetFresh(n, id, ifname) => GetFreshKeepsInv(p, s, n, id, ifname, s');
    case Form(n) => FormKeepsInv(p, s, n, s');
    case Get(n, rs, id, ifname) => GetKeepsInv(p, s, n, rs, id, ifname, s');
    case Release(_, _, _) => LocalKeepsInv(p, s, a, s');
    case Free(_, _) => LocalKeepsInv(p, s, a, s');
    case CheckStart(_, _) => LocalKeepsInv(p, s, a, s');
    case CheckLeaseOf(n) => CheckLeaseKeepsInv(p, s, n, s');
    case CheckReload(_) => LocalKeepsInv(p, s, a, s');
    case Compare(n) => CompareKeepsInv(p, s, n, s');
    case ComparePut(n) => ComparePutKeepsInv(p, s, n, s');
    case Abort(_) => LocalKeepsInv(p, s, a, s');
  }

  /** No step takes a lease but the spare one from a node that stays alive. */
  lemma StepKeepsLeases(p: Net, s: Cluster, a: Action, s': Cluster)
    requires p.Valid() && Safe(p) && Inv(p, s) && Next(p, s, a, s')
    ensures forall b :: b in s.leases && s.leases[b] in s'.live && !Spare(p, b) ==>
              b in s'.leases && s'.leases[b] == s.leases[b]
  {
    hide Spare, Safe, NodeOk, CheckLease, Deleted, CanGet, AfterGet, FreeRange, AllLots;
    match a
    case PurgeDelete => assert s.purging[0] in s.purging;
    case CheckLeaseOf(n) => CheckLeaseKeepsInv(p, s, n, s');
    case Compare(n) => CompareKeepsInv(p, s, n, s');
    case ComparePut(n) =>
      ComparePutKeepsInv(p, s, n, s');
      SpareCanonical(p, s.live[n].pc.caches[s.live[n].pc.j]);
    case _ =>
  }

  lemma EmptyClusterIsFine(p: Net)
    ensures Inv(p, INIT)
  {
  }

  lemma {:induction false} RunKeepsInv(p: Net, run: seq<Cluster>, i: nat)
    requires p.Valid() && Safe(p) && IsRun(p, run) && i < |run|
    ensures Inv(p, run[i])
  {
    if i == 0 {
      EmptyClusterIsFine(p);
    } else {
      hide Inv, Next, Safe;
      RunKeepsInv(p, run, i - 1);
      assert Step(p, run[i - 1], run[i - 1 + 1]);
      var a :| Next(p, run[i - 1], a, run[i]);
      StepKeepsInv(p, run[i - 1], a, run[i]);
    }
  }

  /** In every history of the cluster, at every point, no two live nodes hold the same address; when the range
      never runs out, also every lease is a block of the range and every live node's cache lies in its leases. */
  lemma AddressesStayUnique(p: Net, run: seq<Cluster>, i: nat)
    requires p.Valid() && Safe(p) && IsRun(p, run) && i < |run|
    ensures UniqueAddresses(run[i])
    ensures p.Uneven() ==>
              && (forall b :: b in run[i].leases ==> p.Grid(b))
              && (forall n, c :: n in run[i].live && c in run[i].live[n].cache ==>
                    c in run[i].leases && run[i].leases[c] == n)
  {
    RunKeepsInv(p, run, i);
    InvGivesUniqueAddresses(p, run[i]);
    if p.Uneven() {
      hide Net.Grid;
      forall n, c | n in run[i].live && c in run[i].live[n].cache ensures c in run[i].leases && run[i].leases[c] == n {
        assert NodeOk(p, run[i].live[n], Held(p, run[i].leases, n));
        assert c in Held(p, run[i].leases, n);
      }
    }
  }

  /** In every history no step takes a lease from a node that stays alive, when the range never runs out. */
  lemma LiveLeasesStay(p: Net, run: seq<Cluster>, i: nat)
    requires p.Valid() && p.Uneven() && IsRun(p, run) && i + 1 < |run|
    ensures forall b :: b in run[i].leases && run[i].leases[b] in run[i + 1].live ==>
              b in run[i + 1].leases && run[i + 1].leases[b] == run[i].leases[b]
  {
    RunKeepsInv(p, run, i);
    assert Step(p, run[i], run[i + 1]);
    var a :| Next(p, run[i], a, run[i + 1]);
    StepKeepsLeases(p, run[i], a, run[i + 1]);
    assert forall b :: !Spare(p, b);
    hide Next, Inv, Net.Uneven;
  }

  /** In every history reconciling never gets as far as writing a lease, when the range never runs out. */
  lemma NeverAbsent(p: Net, run: seq<Cluster>, i: nat, n: string)
    requires p.Valid() && p.Uneven() && IsRun(p, run) && i < |run| && n in run[i].live
    ensures !run[i].live[n].pc.Absent?
  {
    RunKeepsInv(p, run, i);
    assert NodeOk(p, run[i].live[n], Held(p, run[i].leases, n));
  }

}

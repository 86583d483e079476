/** Allocating the addresses of a container: from the cached blocks, then from newly leased ones, or not at all. */
module Allocation {
  import opened Words
  import opened Blocks
  import opened RangeSets
  import opened RangeIteration
  import opened DiskStore
  import opened Etcd
  import opened FirstFit
  import opened Allocator
  import opened Reconcile
  import opened Clipping
  import opened Fairness
  import opened AllocationRuns
  import Text

  /** `node` leases the lowest free block; the directory mutex keeps other applications out. */
  method ApplyIPRange(dir: LeaseDir, r: Range, n: nat, node: string)
    returns (res: Option<SimpleRange>, ghost listing: seq<SimpleRange>)
    requires n < 32
    modifies dir
    ensures IsListing(listing, old(dir.leases)) && res == FreeRange(listing, r, n)
    ensures dir.leases == if res.Some? then old(dir.leases)[res.value := node] else old(dir.leases)
  {
    var kvs := dir.List();
    listing := kvs;
    res := GetFreeIPRange(kvs, r, n);
    if res.Some? {
      SegmentHostSize(res.value.start, n);
      dir.Put(res.value, node);
    }
  }

  datatype OneResult = One(addr: uint32, gateway: uint32, alloc: IPAllocator) | OneFailed | OneHung

  /** The addresses and their gateways, or none. */
  datatype AllocResult = Allocated(ips: seq<uint32>, gateways: seq<uint32>) | Failed | Hung

  lemma {:induction false} CursorBound(leases: seq<SimpleRange>, last: uint32, hi: uint32, num: nat)
    requires hi + 1 < TWO32
    ensures Cursor(leases, last, hi, num) <= Max(last, hi + 1)
    decreases leases
  {
    if leases != [] {
      var l := leases[0];
      CursorBound(leases[1..], last, hi, num);
      CursorBound(leases[1..], Add32(Min(l.end, hi), 1), hi, num);
    }
  }

  /** A block handed out by the scan does not wrap around. */
  lemma FreeRangeIsBlock(leases: seq<SimpleRange>, r: Range, n: nat)
    requires n < 32 && GoodRange(r) && Max(EffectiveStart(r), r.end + 1) + Pow2(n) <= TWO32
    requires FreeRange(leases, r, n).Some?
    ensures IsBlock(FreeRange(leases, r, n).value, Pow2(n))
  {
    Pow2Below32(n);
    EffectiveStartBounds(r);
    CursorBound(leases, EffectiveStart(r), r.end, Pow2(n));
    SegmentShape(Cursor(leases, EffectiveStart(r), r.end, Pow2(n)), Pow2(n));
  }

  /** The block is cached, or refused because another cached block meets it. */
  ghost predicate CachedOrMet(b: SimpleRange, cache: seq<SimpleRange>) {
    b in cache || exists d :: d in cache && d != b && Intersects(d, b)
  }

  /** No lease and no cache entry is lost; a lease that changes becomes the node's and is cached, unless a cached
      block meets it; a new cache entry is a lease of the node. */
  ghost predicate Grows(was: Stock, now: Stock, node: string) {
    && was.cache <= now.cache
    && (forall b :: b in was.leases ==> b in now.leases)
    && (forall b :: b in now.leases && !(b in was.leases && now.leases[b] == was.leases[b]) ==>
          now.leases[b] == node && CachedOrMet(b, now.cache))
    && (forall b :: b in now.cache ==> b in was.cache || (b in now.leases && now.leases[b] == node))
  }

  /** The address lies in a block that the node leases and has cached, unless another cached block meets that. */
  ghost predicate FromBlock(a: uint32, s: Stock, node: string) {
    exists b :: b in s.leases && s.leases[b] == node && b.Has(a) && CachedOrMet(b, s.cache)
  }

  lemma NothingGrows(s: Stock, node: string)
    ensures Grows(s, s, node)
  {
  }

  lemma MoreCached(b: SimpleRange, c: seq<SimpleRange>, d: seq<SimpleRange>)
    requires c <= d && CachedOrMet(b, c)
    ensures CachedOrMet(b, d)
  {
    if b !in c {
      var e :| e in c && e != b && Intersects(e, b);
      assert e in d;
    }
  }

  lemma GrowsMore(was: Stock, mid: Stock, now: Stock, node: string)
    requires Grows(was, mid, node) && Grows(mid, now, node)
    ensures Grows(was, now, node)
  {
    hide CachedOrMet;
    forall b | b in now.leases && !(b in was.leases && now.leases[b] == was.leases[b])
      ensures now.leases[b] == node && CachedOrMet(b, now.cache)
    {
      if b in mid.leases && now.leases[b] == mid.leases[b] {
        MoreCached(b, mid.cache, now.cache);
      }
    }
  }

  lemma FromBlockStays(a: uint32, was: Stock, now: Stock, node: string)
    requires FromBlock(a, was, node) && Grows(was, now, node)
    ensures FromBlock(a, now, node)
  {
    hide CachedOrMet;
    var b :| b in was.leases && was.leases[b] == node && b.Has(a) && CachedOrMet(b, was.cache);
    MoreCached(b, was.cache, now.cache);
  }

  /** The stock after a try that found `b`: the lease is the node's, and the block is cached behind the others exactly
      if none of them meets it. */
  ghost predicate HasTaken(was: Stock, now: Stock, node: string, b: SimpleRange) {
    && now.leases == was.leases[b := node]
    && (if forall d :: d in was.cache ==> !Intersects(d, b) then now.cache == was.cache + [b]
        else now.cache == was.cache)
  }

  lemma TakenGrows(was: Stock, now: Stock, node: string, b: SimpleRange)
    requires HasTaken(was, now, node, b)
    ensures Grows(was, now, node) && CachedOrMet(b, now.cache)
  {
    if d :| d in was.cache && Intersects(d, b) {
      assert CachedOrMet(b, was.cache);
    }
  }

  /** A new lease is a block; caching it, or being refused, keeps the cache tidy. */
  lemma NewBlock(cfg: Config, listing: seq<SimpleRange>, was: Stock, node: string, b: SimpleRange)
    requires Usable(cfg) && Tidy(was.cache, cfg.unit)
    requires FreeRange(listing, cfg.ranges[0][0], cfg.unit) == Some(b)
    ensures IsBlock(b, Pow2(cfg.unit)) && b.start <= b.end
    ensures var c := Appended(was.cache, b).GetOr(was.cache);
            Tidy(c, cfg.unit) && HasTaken(was, Stock(was.leases[b := node], c), node, b)
  {
    assert cfg.ranges[0][0] in cfg.ranges[0];
    FreeRangeIsBlock(listing, cfg.ranges[0][0], cfg.unit);
    AppendExactly(was.cache, b, cfg.unit);
  }

  /** A set of one range can be iterated, the iterator stops, and what Get finds lies in the range, with its gateway. */
  lemma OneRange(r: Range, last: Option<uint32>, files: Files, id: string, subIf: string)
    requires r.start <= r.end
    ensures Iterable([r]) && !Hangs([r], last, files)
    ensures var res := GetOutcome([r], last, files, id, subIf);
            res.Got? ==> res.addr !in files && r.start <= res.addr <= r.end && res.gateway == r.gateway
  {
    assert Stops([r], last);
    if GetOutcome([r], last, files, id, subIf).Got? {
      GotIsFirstFree([r], last, files, id, subIf);
    }
  }

  /** One of the up to three tries with a new block: lease it, cache it, allocate from it. */
  method TryNewBlock(c: Call, dir: LeaseDir, store: Store, subIf: string)
    returns (applied: bool, got: GetResult, alloc: IPAllocator, ghost block: Option<SimpleRange>)
    requires Usable(c.cfg) && Tidy(store.cache, c.cfg.unit)
    modifies dir, store
    ensures Tidy(store.cache, c.cfg.unit) && alloc.store == store
    ensures applied <==> block.Some?
    ensures Takes(c, Stock(old(dir.leases), old(store.cache)), Stock(dir.leases, store.cache), block)
    ensures got == match block
                   case None => Exhausted
                   case Some(b) => GetOutcome(FreshSet(c.cfg, b), LastOf(old(store.last), 0), old(store.files),
                                              c.id, subIf)
    ensures match block
            case None => dir.leases == old(dir.leases) && store.cache == old(store.cache)
            case Some(b) => && b.end == b.start + Pow2(c.cfg.unit) - 1 && dir.leases == old(dir.leases)[b := c.node]
                            && store.cache == if forall d :: d in old(store.cache) ==> !Intersects(d, b)
                                              then old(store.cache) + [b] else old(store.cache)
    ensures got.Got? ==> && block.Some? && block.value.Has(got.addr) && got.addr !in old(store.files)
                         && got.gateway == c.cfg.ranges[0][0].gateway
    ensures store.files == FilesAfter(old(store.files), got, c.id, subIf)
    ensures store.last == LastAfter(old(store.last), got, 0)
  {
    hide Tidy, Iterable, HoldsOne, Intersects;
    hide Hangs, GetOutcome, Appended, FreeRange, Record, GoodRanges, IsListing;
    ghost var was, files, last := Stock(dir.leases, store.cache), store.files, LastOf(store.last, 0);
    ghost var listing;
    var sr;
    sr, listing := ApplyIPRange(dir, c.cfg.ranges[0][0], c.cfg.unit, c.node);
    block := sr;
    if sr.None? {
      alloc := new IPAllocator([], store, 0);
      return false, Exhausted, alloc, block;
    }
    NewBlock(c.cfg, listing, was, c.node, sr.value);
    var ok := store.AppendCache(sr.value);
    var r := c.cfg.ranges[0][0].(start := sr.value.start, end := sr.value.end);
    alloc := new IPAllocator([r], store, 0);
    OneRange(r, last, files, c.id, subIf);
    got := alloc.Get(c.id, subIf, None);
    applied := true;
  }

  /** The result of a pass is what the run answers. */
  predicate Replies(res: OneResult, ans: Option<GetResult>) {
    match ans
    case None => res.OneHung?
    case Some(Got(a, g)) => res.One? && res.addr == a && res.gateway == g
    case Some(_) => res.OneFailed?
  }

  /** The blocks are leased to the node and Get found nothing free in them. */
  ghost predicate Spent(c: Call, subIf: string, last: Option<uint32>, files: Files, leases: Leases,
                        spent: seq<SimpleRange>)
    requires Usable(c.cfg)
  {
    forall b :: b in spent ==>
      && b in leases && leases[b] == c.node && b.start <= b.end
      && GetOutcome(FreshSet(c.cfg, b), last, files, c.id, subIf) == Exhausted
  }

  /** The scan finds no block among the leases. */
  ghost predicate NoBlock(cfg: Config, leases: Leases)
    requires Usable(cfg)
  {
    exists listing :: IsListing(listing, leases) && FreeRange(listing, cfg.ranges[0][0], cfg.unit).None?
  }

  /** What a try adds to the blocks spent. */
  lemma SpentNext(c: Call, subIf: string, last: Option<uint32>, files: Files, cur: Stock, now: Stock,
                  block: Option<SimpleRange>, spent: seq<SimpleRange>)
    requires Usable(c.cfg) && Takes(c, cur, now, block) && Spent(c, subIf, last, files, cur.leases, spent)
    ensures Spent(c, subIf, last, files, now.leases, spent)
    ensures match block
            case None => NoBlock(c.cfg, now.leases)
            case Some(b) =>
              && b.start <= b.end
              && (GetOutcome(FreshSet(c.cfg, b), last, files, c.id, subIf) == Exhausted ==>
                    Spent(c, subIf, last, files, now.leases, spent + [b]))
  {
    hide GetOutcome, FreshSet, FreeRange, IsListing, Usable;
  }

  lemma TryGrows(c: Call, was: Stock, cur: Stock, now: Stock, block: Option<SimpleRange>)
    requires Grows(was, cur, c.node)
    requires if block.Some? then HasTaken(cur, now, c.node, block.value) else now == cur
    ensures Grows(was, now, c.node) && (block.Some? ==> CachedOrMet(block.value, now.cache))
  {
    hide Grows, CachedOrMet, Intersects;
    if block.Some? {
      TakenGrows(cur, now, c.node, block.value);
      GrowsMore(was, cur, now, c.node);
    }
  }

  /** One pass of the sub-interface loop: the cached ranges first, then up to three new blocks; `spent` are those in
      which nothing was free. `OneHung` stands for a call of Get that never returns. */
  method AllocateOne(c: Call, rs: seq<Range>, dir: LeaseDir, store: Store, subIf: string)
    returns (res: OneResult, ghost ans: Option<GetResult>, ghost spent: seq<SimpleRange>)
    requires Usable(c.cfg) && Tidy(store.cache, c.cfg.unit) && (rs != [] ==> Iterable(rs))
    modifies dir, store
    ensures OneRun(c, rs, subIf, LastOf(old(store.last), 0), old(store.files),
                   Stock(old(dir.leases), old(store.cache)), Stock(dir.leases, store.cache), ans)
    ensures Replies(res, ans)
    ensures CachedAnswer(rs, LastOf(old(store.last), 0), old(store.files), c.id, subIf) != Some(Exhausted) ==>
              spent == [] && dir.leases == old(dir.leases) && store.cache == old(store.cache)
    ensures Spent(c, subIf, LastOf(old(store.last), 0), old(store.files), dir.leases, spent)
    ensures |spent| <= 3 && (|spent| == 3 ==> ans == Some(Exhausted))
    ensures ans == Some(Exhausted) ==> |spent| == 3 || NoBlock(c.cfg, dir.leases)
    ensures res.One? ==>
              if CachedAnswer(rs, LastOf(old(store.last), 0), old(store.files), c.id, subIf) == Some(Exhausted)
              then FromBlock(res.addr, Stock(dir.leases, store.cache), c.node)
                   && res.gateway == c.cfg.ranges[0][0].gateway
              else AnswersGateway(rs, res.addr, res.gateway)
    ensures Tidy(store.cache, c.cfg.unit)
    ensures res.One? ==> res.addr !in old(store.files) && res.alloc.store == store
    ensures store.files == if res.One? then old(store.files)[res.addr := Record(c.id, subIf)] else old(store.files)
    ensures store.last == if res.One? then old(store.last)[0 := res.addr] else old(store.last)
    ensures Grows(Stock(old(dir.leases), old(store.cache)), Stock(dir.leases, store.cache), c.node)
  {
    hide GetOutcome, Hangs, Grows, FromBlock, Intersects, Tidy, Usable, Iterable, HoldsOne, Record, AnswersGateway;
    hide Takes, TriesEnd, OneRun, FreshSet, Leads, CachedOrMet, Spent, NoBlock, IsBlock;
    ghost var last, files0, last0 := LastOf(store.last, 0), store.files, store.last;
    ghost var was := Stock(dir.leases, store.cache);
    NothingGrows(was, c.node);
    NothingSpent(c, subIf, last, files0, was.leases);
    RunBegins(c, rs, subIf, last, files0, was);
    spent := [];
    var got := Exhausted;
    var alloc := new IPAllocator(rs, store, 0);
    if |rs| > 0 {
      if GetHangs(rs, LastOf(store.last, 0), store.files, c.id, subIf) {
        return OneHung, None, spent;
      }
      GotWasFree(rs, last, files0, c.id, subIf);
      got := alloc.Get(c.id, subIf, None);
      if got.Got? {
        return One(got.addr, got.gateway, alloc), Some(got), spent;
      }
    }
    ghost var first := got;
    var noAddress := got == Exhausted;
    for i := 0 to 3
      invariant Tidy(store.cache, c.cfg.unit) && alloc.store == store
      invariant (noAddress <==> got == Exhausted) && !got.Got?
      invariant |spent| <= i && (noAddress ==> |spent| == i)
      invariant first != Exhausted ==> spent == [] && Stock(dir.leases, store.cache) == was && got == first
      invariant Spent(c, subIf, last, files0, dir.leases, spent)
      invariant if noAddress then Leads(c, rs, subIf, last, files0, was, Stock(dir.leases, store.cache), 3 - i)
                else |spent| < 3 && OneRun(c, rs, subIf, last, files0, was, Stock(dir.leases, store.cache), Some(got))
      invariant store.files == files0 && store.last == last0
      invariant Grows(was, Stock(dir.leases, store.cache), c.node)
    {
      if noAddress {
        ghost var cur := Stock(dir.leases, store.cache);
        ghost var block;
        var applied;
        applied, got, alloc, block := TryNewBlock(c, dir, store, subIf);
        ghost var now := Stock(dir.leases, store.cache);
        TryGrows(c, was, cur, now, block);
        TryLeads(c, rs, subIf, last, files0, was, cur, now, block, 3 - i);
        SpentNext(c, subIf, last, files0, cur, now, block, spent);
        noAddress := applied && got == Exhausted;
        if noAddress {
          spent := spent + [block.value];
        }
        if got.Got? {
          BlockGives(got.addr, cur, now, c.node, block.value);
        }
        if applied && !got.Got? {
          continue;
        }
      }
      break;
    }
    if noAddress {
      TriesOver(c, rs, subIf, last, files0, was, Stock(dir.leases, store.cache));
    }
    ans := Some(got);
    if got.Got? {
      return One(got.addr, got.gateway, alloc), ans, spent;
    }
    return OneFailed, ans, spent;
  }

  lemma NothingSpent(c: Call, subIf: string, last: Option<uint32>, files: Files, leases: Leases)
    requires Usable(c.cfg)
    ensures Spent(c, subIf, last, files, leases, [])
  {
  }

  lemma BlockGives(a: uint32, cur: Stock, now: Stock, node: string, b: SimpleRange)
    requires HasTaken(cur, now, node, b) && CachedOrMet(b, now.cache) && b.Has(a)
    ensures FromBlock(a, now, node)
  {
    hide CachedOrMet;
  }

  lemma GotWasFree(rs: seq<Range>, last: Option<uint32>, files: Files, id: string, subIf: string)
    requires Iterable(rs)
    ensures var res := GetOutcome(rs, last, files, id, subIf);
            res.Got? ==>
              res.addr !in files && !Hangs(rs, last, files) && AnswersGateway(rs, res.addr, res.gateway)
  {
    if GetOutcome(rs, last, files, id, subIf).Got? {
      GotIsFirstFree(rs, last, files, id, subIf);
    }
  }

  /** The files after the addresses `ips` went to the first sub-interfaces. */
  function WithRecords(files: Files, id: string, ifname: string, ips: seq<uint32>): Files {
    if ips == [] then files
    else WithRecords(files, id, ifname, ips[..|ips| - 1])[ips[|ips| - 1] := Record(id, SubInterface(ifname, |ips| - 1))]
  }

  /** The files after the roll-back of `k` allocations. */
  function RolledBack(files: Files, id: string, ifname: string, k: nat): Files {
    if k == 0 then files
    else if k == 1 then Without(files, Record(id, ifname))
    else Without(files, Text.Trim(id, SPACE))
  }

  lemma TidyIsRegular(rso: seq<Range>, caches: seq<SimpleRange>, n: nat)
    requires GoodRanges(rso) && Tidy(caches, n) && ClipSet(rso, caches) != []
    ensures Regular(ClipSet(rso, caches))
  {
    ClippedIsIterable(rso, caches);
    ClipSetDisjoint(rso, caches);
    var s := ClipSet(rso, caches);
    forall i | 0 <= i < |s| ensures s[i].Valid() {
      assert s[i] in s;
    }
  }

  lemma FormedIsTidy(cfg: Config, cache: seq<SimpleRange>)
    requires Usable(cfg) && Tidy(cache, cfg.unit)
    ensures SubnetsProper(cfg.ranges) && cfg.ranges != []
    ensures var p := PruneSets(cfg.ranges, cache, cache); Tidy(p, cfg.unit) && forall b :: b in p ==> b in cache
    ensures var rs := ClipSet(cfg.ranges[0], cache); rs != [] ==> Regular(rs)
  {
    hide Tidy, PruneSets, ClipSet, Regular, GoodRanges;
    var at := PruneSetsExactly(cfg.ranges, cache, cfg.unit);
    if ClipSet(cfg.ranges[0], cache) != [] {
      TidyIsRegular(cfg.ranges[0], cache, cfg.unit);
    }
  }

  /** An address of a configured range and of a cached block, with the gateway of that range. */
  ghost predicate FromCached(rso: seq<Range>, cache: seq<SimpleRange>, a: uint32, gateway: uint32) {
    exists ro, b :: ro in rso && b in cache && RangeHas(ro, a) && b.Has(a) && gateway == ro.gateway
  }

  lemma ClippedAnswers(rso: seq<Range>, cache: seq<SimpleRange>, n: nat, a: uint32, gateway: uint32)
    requires GoodRanges(rso) && Tidy(cache, n) && AnswersGateway(ClipSet(rso, cache), a, gateway)
    ensures FromCached(rso, cache, a, gateway)
  {
    var rs := ClipSet(rso, cache);
    ClipSetMembers(rso, cache);
    var i :| 0 <= i < |rs| && RangeIteration.InRange(rs, i, a) && gateway == rs[i].gateway;
    assert rs[i] in rs;
    var ro, b :| ro in rso && b in cache && Touches(ro, b) && rs[i] == Clip(ro, b);
    ClipExactly(ro, b);
    assert RangeHas(Clip(ro, b), a);
  }

  /** Where the addresses come from: cached blocks before the call, or new ones. */
  ghost predicate Sourced(c: Call, cache: seq<SimpleRange>, s: Stock, ips: seq<uint32>, gateways: seq<uint32>)
    requires Usable(c.cfg)
  {
    |gateways| == |ips| && forall i :: 0 <= i < |ips| ==>
      || FromCached(c.cfg.ranges[0], cache, ips[i], gateways[i])
      || (FromBlock(ips[i], s, c.node) && gateways[i] == c.cfg.ranges[0][0].gateway)
  }

  lemma NoSource(c: Call, cache: seq<SimpleRange>, s: Stock)
    requires Usable(c.cfg)
    ensures Sourced(c, cache, s, [], [])
  {
  }

  lemma OneMoreSource(c: Call, cache: seq<SimpleRange>, cur: Stock, now: Stock, ips: seq<uint32>,
                      gateways: seq<uint32>, rs: seq<Range>, a: uint32, gateway: uint32)
    requires Usable(c.cfg) && Tidy(cache, c.cfg.unit) && rs == ClipSet(c.cfg.ranges[0], cache)
    requires Sourced(c, cache, cur, ips, gateways) && Grows(cur, now, c.node)
    requires AnswersGateway(rs, a, gateway)
             || (FromBlock(a, now, c.node) && gateway == c.cfg.ranges[0][0].gateway)
    ensures Sourced(c, cache, now, ips + [a], gateways + [gateway])
  {
    hide FromBlock, Grows, FromCached, ClipSet, Tidy, AnswersGateway, GoodRanges;
    forall i | 0 <= i < |ips| && FromBlock(ips[i], cur, c.node) ensures FromBlock(ips[i], now, c.node) {
      FromBlockStays(ips[i], cur, now, c.node);
    }
    if AnswersGateway(rs, a, gateway) {
      ClippedAnswers(c.cfg.ranges[0], cache, c.cfg.unit, a, gateway);
    }
  }

  /** allocateIP: one address for each sub-interface, or none at all. */
  method AllocateIP(c: Call, dir: LeaseDir, store: Store)
    returns (res: AllocResult, ghost rs: seq<Range>, ghost done: seq<uint32>, ghost end: End)
    requires Usable(c.cfg) && Tidy(store.cache, c.cfg.unit)
    requires Text.Trim(c.id, SPACE) != ""
    modifies dir, store
    ensures rs == ClipSet(c.cfg.ranges[0], old(store.cache)) && (rs != [] ==> Regular(rs))
    ensures AllRuns(c, rs, 0, LastOf(old(store.last), 0), old(store.files),
                    Stock(old(dir.leases), PruneSets(c.cfg.ranges, old(store.cache), old(store.cache))),
                    Stock(dir.leases, store.cache), done, end)
    ensures NewAddresses(old(store.files), done)
    ensures match end
            case Complete => && res.Allocated? && res.ips == done && |done| == Max(c.cfg.num, 0)
                             && Sourced(c, old(store.cache), Stock(dir.leases, store.cache), done, res.gateways)
                             && store.files == WithRecords(old(store.files), c.id, c.ifname, done)
            case Refused => && res == Failed && |done| < c.cfg.num
                            && store.files == RolledBack(old(store.files), c.id, c.ifname, |done|)
            case Stuck => && res == Hung && |done| < c.cfg.num
                          && store.files == WithRecords(old(store.files), c.id, c.ifname, done)
    ensures Enough(rs, 0, c.cfg.num, LastOf(old(store.last), 0), old(store.files), c.id, c.ifname) ==>
              && end == Complete && dir.leases == old(dir.leases)
              && store.cache == PruneSets(c.cfg.ranges, old(store.cache), old(store.cache))
              && done == CachedRun(rs, 0, c.cfg.num, LastOf(old(store.last), 0), old(store.files), c.id, c.ifname)
    ensures Tidy(store.cache, c.cfg.unit)
    ensures Grows(Stock(old(dir.leases), PruneSets(c.cfg.ranges, old(store.cache), old(store.cache))),
                  Stock(dir.leases, store.cache), c.node)
  {
    hide AfterRelease, Record, Without, Deleted, PruneSets, ClipSet, GoodRanges, Iterable, Tidy, AnswersGateway;
    hide Grows, FromBlock, GetOutcome, GetHangs, RolledBack, Usable, WithRecords, NewAddresses, Sourced, Spent;
    hide LeadsAll, AllRuns, OneRun, CachedRun, CachedAnswer, Enough, NoBlock;
    ghost var last0, files0, c0 := LastOf(store.last, 0), store.files, store.cache;
    FormedIsTidy(c.cfg, c0);
    NoRecords(files0, c.id, c.ifname);
    var rss := FormRangeSets(c.cfg.ranges, store);
    var rs0 := rss[0];
    rs := rs0;
    ghost var was := Stock(dir.leases, store.cache);
    NothingGrows(was, c.node);
    NoSource(c, c0, was);
    NoPass(c, rs, last0, files0, was);
    var allocs: seq<IPAllocator>, ips: seq<uint32>, gateways: seq<uint32> := [], [], [];
    var s := 0;
    while s < c.cfg.num
      invariant 0 <= s <= Max(c.cfg.num, 0) && s == |ips| == |allocs|
      invariant Tidy(store.cache, c.cfg.unit)
      invariant LeadsAll(c, rs, s, last0, files0, was, LastOf(store.last, 0), store.files,
                         Stock(dir.leases, store.cache), ips)
      invariant Grows(was, Stock(dir.leases, store.cache), c.node)
      invariant Sourced(c, c0, Stock(dir.leases, store.cache), ips, gateways)
      invariant NewAddresses(files0, ips)
      invariant store.files == WithRecords(files0, c.id, c.ifname, ips)
      invariant forall a :: a in allocs ==> a.store == store
    {
      ghost var last, files, cur := LastOf(store.last, 0), store.files, Stock(dir.leases, store.cache);
      ghost var ans, spent;
      var one;
      one, ans, spent := AllocateOne(c, rs0, dir, store, SubInterface(c.ifname, s));
      ghost var now := Stock(dir.leases, store.cache);
      GrowsMore(was, cur, now, c.node);
      PassLeads(c, rs, s, last0, files0, was, last, files, cur, ips, now, ans);
      if !one.One? {
        end := if one.OneHung? then Stuck else Refused;
        RunsMean(c, rs, last0, files0, was, now, ips, end);
        if one.OneHung? {
          return Hung, rs, ips, end;
        }
        RollBack(allocs, store, c.id, c.ifname, files0, ips);
        return Failed, rs, ips, end;
      }
      OneMoreRecord(files0, c.id, c.ifname, ips, one.addr);
      OneMoreSource(c, c0, cur, now, ips, gateways, rs, one.addr, one.gateway);
      allocs := allocs + [one.alloc];
      ips, gateways := ips + [one.addr], gateways + [one.gateway];
      s := s + 1;
    }
    LastPass(c, rs, s, last0, files0, was, LastOf(store.last, 0), store.files, Stock(dir.leases, store.cache), ips);
    RunsMean(c, rs, last0, files0, was, Stock(dir.leases, store.cache), ips, Complete);
    return Allocated(ips, gateways), rs, ips, Complete;
  }

  /** The roll-back loop of allocateIP. */
  method RollBack(allocs: seq<IPAllocator>, store: Store, id: string, ifname: string, ghost files: Files,
                  ghost ips: seq<uint32>)
    requires Text.Trim(id, SPACE) != "" && NewAddresses(files, ips) && |allocs| == |ips|
    requires forall a :: a in allocs ==> a.store == store
    requires store.files == WithRecords(files, id, ifname, ips)
    modifies store`files
    ensures store.files == RolledBack(files, id, ifname, |allocs|)
  {
    for j := 0 to |allocs|
      invariant store.files == if j == 0 then WithRecords(files, id, ifname, ips) else RolledBack(files, id, ifname, j)
    {
      assert allocs[j] in allocs;
      ReleaseRollsBack(files, id, ifname, ips, j);
      allocs[j].Release(id, ifname);
    }
  }

  predicate NewAddresses(files: Files, ips: seq<uint32>) {
    && (forall a :: a in ips ==> a !in files)
    && (forall i, j :: 0 <= i < j < |ips| ==> ips[i] != ips[j])
  }

  lemma {:induction false} WithRecordsKeys(files: Files, id: string, ifname: string, ips: seq<uint32>)
    ensures forall a :: a in WithRecords(files, id, ifname, ips) <==> a in files || a in ips
    ensures NewAddresses(files, ips) ==>
              && (forall a :: a in files ==> WithRecords(files, id, ifname, ips)[a] == files[a])
              && (forall s :: 0 <= s < |ips| ==>
                    WithRecords(files, id, ifname, ips)[ips[s]] == Record(id, ifname + "." + Text.Decimal(s)))
  {
    hide WithRecords, Record;
    if ips == [] {
      NoRecords(files, id, ifname);
    } else {
      var init, a := ips[..|ips| - 1], ips[|ips| - 1];
      WithRecordsKeys(files, id, ifname, init);
      assert ips == init + [a];
      NextRecord(files, id, ifname, init, a);
      if NewAddresses(files, ips) {
        assert NewAddresses(files, init);
      }
    }
  }

  lemma NoRecords(files: Files, id: string, ifname: string)
    ensures WithRecords(files, id, ifname, []) == files && NewAddresses(files, [])
  {
  }

  lemma OneMoreRecord(files: Files, id: string, ifname: string, ips: seq<uint32>, a: uint32)
    requires NewAddresses(files, ips) && a !in WithRecords(files, id, ifname, ips)
    ensures NewAddresses(files, ips + [a])
    ensures WithRecords(files, id, ifname, ips + [a]) ==
            WithRecords(files, id, ifname, ips)[a := Record(id, SubInterface(ifname, |ips|))]
  {
    hide Record, WithRecords;
    WithRecordsKeys(files, id, ifname, ips);
    NextRecord(files, id, ifname, ips, a);
  }

  lemma NextRecord(files: Files, id: string, ifname: string, ips: seq<uint32>, a: uint32)
    ensures WithRecords(files, id, ifname, ips + [a]) ==
            WithRecords(files, id, ifname, ips)[a := Record(id, SubInterface(ifname, |ips|))]
  {
    hide Record;
    assert (ips + [a])[..|ips|] == ips;
  }

  /* ---------- a new block serves the next call ---------- */

  /** A cached block of a configured range that still has a free address is enough for one more sub-interface that
      holds none, unless the iterator starts afresh and the address is a reserve. */
  lemma RestOfBlockServes(c: Call, cache: seq<SimpleRange>, b: SimpleRange, ro: Range, a: uint32,
                          last: Option<uint32>, files: Files)
    requires Usable(c.cfg) && Tidy(cache, c.cfg.unit) && b in cache && ro in c.cfg.ranges[0]
    requires RangeHas(ro, a) && b.Has(a) && !StrictlyContains(b, ro) && a != ro.gateway && a !in files
    ensures var rs := ClipSet(c.cfg.ranges[0], cache);
            && rs != [] && Regular(rs)
            && (!HoldsOne(files, rs, c.id, c.Sub(0)) && (Resumes(rs, last) || a !in ro.reserves) ==>
                  Enough(rs, 0, 1, last, files, c.id, c.ifname))
  {
    hide Tidy, ClipSet, GoodRanges, EffectiveStart, HoldsOne, FirstContaining, Pick, FreeSeq, Flat, SubInterface;
    var rs := ClipSet(c.cfg.ranges[0], cache);
    assert GoodRange(ro) by { assert GoodRanges(c.cfg.ranges[0]); GoodMember(c.cfg.ranges[0], ro); }
    var i := PieceOf(c.cfg.ranges[0], cache, b, ro, a);
    FormedIsTidy(c.cfg, cache);
    NothingFreeExactly(rs, last, files);
    FreeSeqExactly(rs, files);
    assert Handed(rs, false, a);
    if Resumes(rs, last) || a !in ro.reserves {
      FirstIsReserve(rs, i, a);
      assert Handed(rs, !Resumes(rs, last), a);
    }
  }

  lemma GoodMember(rs: seq<Range>, r: Range)
    requires GoodRanges(rs) && r in rs
    ensures GoodRange(r)
  {
  }

  /** The address is in a piece that the range and the block leave. */
  lemma PieceOf(rso: seq<Range>, cache: seq<SimpleRange>, b: SimpleRange, ro: Range, a: uint32) returns (i: nat)
    requires GoodRange(ro) && b in cache && ro in rso
    requires RangeHas(ro, a) && b.Has(a) && !StrictlyContains(b, ro)
    ensures var rs := ClipSet(rso, cache);
            && i < |rs| && RangeIteration.InRange(rs, i, a) && rs[i].gateway == ro.gateway
            && rs[i].reserves == ro.reserves
  {
    hide ClipSet, Touches;
    var rs := ClipSet(rso, cache);
    ClipSetMembers(rso, cache);
    ClipExactly(ro, b);
    assert Touches(ro, b) && RangeHas(Clip(ro, b), a);
    var p := Clip(ro, b);
    assert p in rs && p.gateway == ro.gateway && p.reserves == ro.reserves;
    i :| 0 <= i < |rs| && rs[i] == p;
    assert RangeHas(rs[i], a);
  }

  /** An address that its own range does not reserve is no reserve of the first range either, where it matters. */
  lemma FirstIsReserve(rs: seq<Range>, i: nat, a: uint32)
    requires Iterable(rs) && i < |rs| && RangeIteration.InRange(rs, i, a)
    ensures a == rs[0].start ==> i == 0
  {
    assert i > 0 ==> Apart(rs[0], rs[i]);
  }

  /* ---------- the roll-back ---------- */

  lemma SubRecordMatches(id: string, ifname: string, s: nat)
    requires Text.Trim(id, SPACE) != ""
    ensures HasPrefix(Record(id, SubInterface(ifname, s)), Record(id, ifname))
    ensures HasPrefix(Record(id, SubInterface(ifname, s)), Text.Trim(id, SPACE))
  {
    var sub := SubInterface(ifname, s);
    assert sub[|sub| - 1] == Text.Decimal(s)[|Text.Decimal(s)| - 1];
    RecordTrimmed(id, sub);
    assert Record(id, sub) == Record(id, ifname) + ("." + Text.Decimal(s));
    assert Record(id, sub) == Text.Trim(id, SPACE) + (LINE_BREAK + sub);
  }

  /** Removing by a prefix that all new records have removes the new records. */
  lemma WithoutNewRecords(files: Files, id: string, ifname: string, ips: seq<uint32>, prefix: string)
    requires NewAddresses(files, ips)
    requires forall s: nat :: HasPrefix(Record(id, SubInterface(ifname, s)), prefix)
    ensures Without(WithRecords(files, id, ifname, ips), prefix) == Without(files, prefix)
  {
    hide HasPrefix, WithRecords;
    var f := WithRecords(files, id, ifname, ips);
    WithRecordsKeys(files, id, ifname, ips);
    forall a | a in f && a in ips ensures HasPrefix(f[a], prefix) {
      var s :| 0 <= s < |ips| && ips[s] == a;
      assert f[a] == Record(id, SubInterface(ifname, s));
    }
  }

  /** The first release of a roll-back takes the interface's records; every later one finds none and takes all
      records of the container. */
  lemma ReleaseRollsBack(files: Files, id: string, ifname: string, ips: seq<uint32>, j: nat)
    requires Text.Trim(id, SPACE) != "" && NewAddresses(files, ips) && j < |ips|
    ensures var f := if j == 0 then WithRecords(files, id, ifname, ips) else RolledBack(files, id, ifname, j);
            AfterRelease(f, id, ifname) == RolledBack(files, id, ifname, j + 1)
  {
    hide WithRecords, SubInterface;
    var key, all := Record(id, ifname), Text.Trim(id, SPACE);
    assert all <= key;
    forall s: nat ensures HasPrefix(Record(id, SubInterface(ifname, s)), key) {
      SubRecordMatches(id, ifname, s);
    }
    if j == 0 {
      var f := WithRecords(files, id, ifname, ips);
      WithRecordsKeys(files, id, ifname, ips);
      WithoutNewRecords(files, id, ifname, ips, key);
      assert ips[0] in f && ips[0] !in Without(f, key);
    } else {
      var f := RolledBack(files, id, ifname, j);
      assert Without(f, key) == f;
      assert Without(f, all) == Without(files, all);
    }
  }

  /** After a failure no address of this call stays reserved, every remaining record is as before, and a record
      goes exactly if something was rolled back and it starts with the id and the interface or, from the second
      release on, with the id. */
  lemma FailureLeavesExactly(files: Files, id: string, ifname: string, k: nat)
    ensures var f, key := RolledBack(files, id, ifname, k), if k == 1 then Record(id, ifname) else Text.Trim(id, SPACE);
            && (forall a :: a in f <==> a in files && (k == 0 || !HasPrefix(files[a], key)))
            && (forall a :: a in f ==> f[a] == files[a])
            && (f == files <==> k == 0 || !AnyHasPrefix(files, key))
  {
    hide HasPrefix, Record;
    var f := RolledBack(files, id, ifname, k);
    if k > 0 {
      var key := if k == 1 then Record(id, ifname) else Text.Trim(id, SPACE);
      assert f == Without(files, key);
      if AnyHasPrefix(files, key) {
        var a :| a in files && HasPrefix(files[a], key);
        assert a !in f;
      }
    }
  }

  /** Wherever a call for `num` sub-interfaces fails, the earlier records stay, exactly if it asks for one address,
      or for two with nothing recorded under the interface, or nothing is recorded under the id. */
  lemma FailureHarmlessExactly(files: Files, id: string, ifname: string, num: nat)
    ensures (forall k: nat :: k < num ==> RolledBack(files, id, ifname, k) == files) <==>
            num <= 1 || !AnyHasPrefix(files, if num == 2 then Record(id, ifname) else Text.Trim(id, SPACE))
  {
    assert Text.Trim(id, SPACE) <= Record(id, ifname);
    assert AnyHasPrefix(files, Record(id, ifname)) ==> AnyHasPrefix(files, Text.Trim(id, SPACE));
    hide HasPrefix, Record, RolledBack, AnyHasPrefix;
    forall k: nat ensures RolledBack(files, id, ifname, k) == files <==>
                          k == 0 || !AnyHasPrefix(files, if k == 1 then Record(id, ifname) else Text.Trim(id, SPACE)) {
      FailureLeavesExactly(files, id, ifname, k);
    }
    if num == 2 {
      assert RolledBack(files, id, ifname, 1) == files ==> !AnyHasPrefix(files, Record(id, ifname));
    } else if num > 2 {
      assert RolledBack(files, id, ifname, 2) == files ==> !AnyHasPrefix(files, Text.Trim(id, SPACE));
    }
  }

  /** The roll-back of one allocation releases the interfaces whose name starts with this one, the roll-back of
      two or more every interface of the container. */
  lemma RollBackReleasesOtherExactly(files: Files, id: string, ifname: string, other: string, a: uint32, k: nat)
    requires ProperNames(id, other) && a in files && files[a] == Record(id, other)
    ensures a !in RolledBack(files, id, ifname, k) <==> k >= 2 || (k == 1 && ifname <= other)
  {
    FailureLeavesExactly(files, id, ifname, k);
    RecordPrefixExactly(id, ifname, other);
    hide HasPrefix, Record, RolledBack;
  }

  /** One success before the failure is enough to lose another interface whose name starts with this one. */
  lemma RollBackReleasesOtherInterface(a: uint32)
    ensures RolledBack(map[a := Record("c1", "net10.0")], "c1", "net1", 1) == map[]
  {
    TrimProper("c1");
    RollBackReleasesOtherExactly(map[a := Record("c1", "net10.0")], "c1", "net1", "net10.0", a, 1);
  }

  /** The release loop of cmdDel: with two or more range sets it takes all records of the container. */
  method DeleteContainer(sets: seq<seq<Range>>, store: Store, id: string, ifname: string)
    modifies store`files
    ensures store.files == if |sets| == 0 then old(store.files)
                           else if |sets| == 1 then AfterRelease(old(store.files), id, ifname)
                           else Without(old(store.files), Text.Trim(id, SPACE))
  {
    hide AfterRelease, Without;
    TwoReleasesTakeTheContainer(store.files, id, ifname);
    for idx := 0 to |sets|
      invariant store.files == if idx == 0 then old(store.files)
                               else if idx == 1 then AfterRelease(old(store.files), id, ifname)
                               else Without(old(store.files), Text.Trim(id, SPACE))
    {
      var ipAllocator := new IPAllocator(sets[idx], store, idx);
      ipAllocator.Release(id, ifname);
    }
  }
}

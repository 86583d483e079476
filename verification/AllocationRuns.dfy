/** What one run of allocateIP does to the leases, the cache and the reservations, as a relation. */
module AllocationRuns {
  import opened Words
  import opened Blocks
  import opened RangeSets
  import opened RangeIteration
  import opened DiskStore
  import opened Etcd
  import opened FirstFit
  import opened Allocator
  import opened Clipping
  import opened Fairness
  import Text

  datatype Config = Config(ranges: seq<seq<Range>>, unit: nat, num: int)

  /** A loaded configuration; a block behind its first range ends below 2^32. */
  ghost predicate Usable(cfg: Config) {
    && cfg.unit < 32 && cfg.ranges != [] && cfg.ranges[0] != []
    && SubnetsProper(cfg.ranges) && GoodRanges(cfg.ranges[0])
    && var r := cfg.ranges[0][0]; Max(EffectiveStart(r), r.end + 1) + Pow2(cfg.unit) <= TWO32
  }

  function SubInterface(ifname: string, s: nat): string {
    ifname + "." + Text.Decimal(s)
  }

  /** A call on a node for the interface of a container. */
  datatype Call = Call(cfg: Config, node: string, id: string, ifname: string) {
    function Sub(s: nat): string { SubInterface(ifname, s) }
  }

  /** What a call may take from: the leases of the network and the cache of the node. */
  datatype Stock = Stock(leases: Leases, cache: seq<SimpleRange>)

  /** The set of one range that is formed from a new block. */
  function FreshSet(cfg: Config, b: SimpleRange): (rs: seq<Range>)
    requires cfg.ranges != [] && cfg.ranges[0] != []
    ensures b.start <= b.end ==> Iterable(rs)
  {
    [cfg.ranges[0][0].(start := b.start, end := b.end)]
  }

  /** The node leases the block that the scan finds, if any, and caches it unless a cached one meets it. */
  ghost predicate Takes(c: Call, was: Stock, now: Stock, block: Option<SimpleRange>)
    requires Usable(c.cfg)
  {
    && (exists listing :: IsListing(listing, was.leases)
                          && block == FreeRange(listing, c.cfg.ranges[0][0], c.cfg.unit))
    && match block
       case None => now == was
       case Some(b) =>
         b.start <= b.end && now == Stock(was.leases[b := c.node], Appended(was.cache, b).GetOr(was.cache))
  }

  /** At most `left` tries with new blocks: they go on as long as a block is found and nothing in it is free. */
  ghost predicate TriesEnd(c: Call, subIf: string, last: Option<uint32>, files: Files, was: Stock, left: nat,
                           now: Stock, ans: GetResult)
    requires Usable(c.cfg)
    decreases left
  {
    if left == 0 then now == was && ans == Exhausted
    else
      exists block: Option<SimpleRange>, mid :: Takes(c, was, mid, block) &&
        match block
        case None => now == mid && ans == Exhausted
        case Some(b) =>
          var got := GetOutcome(FreshSet(c.cfg, b), last, files, c.id, subIf);
          if got == Exhausted then TriesEnd(c, subIf, last, files, mid, left - 1, now, ans)
          else now == mid && ans == got
  }

  /** What the ranges formed from the cache answer; None stands for a call of Get that never returns. */
  function CachedAnswer(rs: seq<Range>, last: Option<uint32>, files: Files, id: string, subIf: string)
    : Option<GetResult>
    requires rs != [] ==> Iterable(rs)
  {
    if rs == [] then Some(Exhausted)
    else if GetHangs(rs, last, files, id, subIf) then None
    else Some(GetOutcome(rs, last, files, id, subIf))
  }

  /** One pass of the sub-interface loop: new blocks are tried exactly if the cached ranges have nothing free. */
  ghost predicate OneRun(c: Call, rs: seq<Range>, subIf: string, last: Option<uint32>, files: Files,
                         was: Stock, now: Stock, ans: Option<GetResult>)
    requires Usable(c.cfg) && (rs != [] ==> Iterable(rs))
  {
    if CachedAnswer(rs, last, files, c.id, subIf) == Some(Exhausted) then
      ans.Some? && TriesEnd(c, subIf, last, files, was, 3, now, ans.value)
    else
      now == was && ans == CachedAnswer(rs, last, files, c.id, subIf)
  }

  datatype End = Complete | Refused | Stuck

  /** The passes from sub-interface `s` on: `done` are the addresses they get, `end` is how they end. */
  ghost predicate AllRuns(c: Call, rs: seq<Range>, s: nat, last: Option<uint32>, files: Files,
                          was: Stock, now: Stock, done: seq<uint32>, end: End)
    requires Usable(c.cfg) && (rs != [] ==> Iterable(rs))
    decreases c.cfg.num - s
  {
    if s >= c.cfg.num then now == was && done == [] && end == Complete
    else
      exists mid, ans: Option<GetResult> :: OneRun(c, rs, c.Sub(s), last, files, was, mid, ans) &&
        match ans
        case None => now == mid && done == [] && end == Stuck
        case Some(Got(a, _)) =>
          && done != [] && done[0] == a
          && AllRuns(c, rs, s + 1, Some(a), files[a := Record(c.id, c.Sub(s))], mid, now, done[1..], end)
        case Some(_) => now == mid && done == [] && end == Refused
  }

  /** A new block serves a sub-interface exactly if that holds no address of it and the block has a free one that is
      not the gateway, nor the first address as a reserve when nothing of the block was reserved last. */
  lemma FreshServesExactly(cfg: Config, b: SimpleRange, last: Option<uint32>, files: Files, id: string, subIf: string)
    requires Usable(cfg) && b.start <= b.end
    ensures var rs, r := FreshSet(cfg, b), cfg.ranges[0][0];
            GetOutcome(rs, last, files, id, subIf).Got? <==>
            && !HoldsOne(files, rs, id, subIf)
            && exists a: uint32 :: && b.Has(a) && a !in files && a != r.gateway
                                   && !(a == b.start && a in r.reserves && !Resumes(rs, last))
  {
    hide HoldsOne, Pick, FirstContaining, EffectiveStart;
    var rs := FreshSet(cfg, b);
    NothingFreeExactly(rs, last, files);
    forall a: uint32
      ensures Handed(rs, !Resumes(rs, last), a) <==>
              && b.Has(a) && a != rs[0].gateway
              && !(a == b.start && a in rs[0].reserves && !Resumes(rs, last))
    {
      if b.Has(a) {
        assert InRange(rs, 0, a);
      }
    }
  }

  /* ---------- the steps of the loops ---------- */

  /** The tries that are left to go from `cur` complete a run that began with `was`. */
  ghost predicate Leads(c: Call, rs: seq<Range>, subIf: string, last: Option<uint32>, files: Files,
                        was: Stock, cur: Stock, left: nat)
    requires Usable(c.cfg) && (rs != [] ==> Iterable(rs))
  {
    forall now, ans :: TriesEnd(c, subIf, last, files, cur, left, now, ans) ==>
                         OneRun(c, rs, subIf, last, files, was, now, Some(ans))
  }

  lemma TryLeads(c: Call, rs: seq<Range>, subIf: string, last: Option<uint32>, files: Files,
                 was: Stock, cur: Stock, next: Stock, block: Option<SimpleRange>, left: nat)
    requires Usable(c.cfg) && (rs != [] ==> Iterable(rs)) && left > 0
    requires Leads(c, rs, subIf, last, files, was, cur, left) && Takes(c, cur, next, block)
    ensures match block
            case None => OneRun(c, rs, subIf, last, files, was, next, Some(Exhausted))
            case Some(b) =>
              var got := GetOutcome(FreshSet(c.cfg, b), last, files, c.id, subIf);
              if got == Exhausted then Leads(c, rs, subIf, last, files, was, next, left - 1)
              else OneRun(c, rs, subIf, last, files, was, next, Some(got))
  {
    hide Usable, Takes, OneRun, GetOutcome, FreshSet, Iterable;
  }

  lemma RunBegins(c: Call, rs: seq<Range>, subIf: string, last: Option<uint32>, files: Files, was: Stock)
    requires Usable(c.cfg) && (rs != [] ==> Iterable(rs))
    ensures var first := CachedAnswer(rs, last, files, c.id, subIf);
            if first == Some(Exhausted) then Leads(c, rs, subIf, last, files, was, was, 3)
            else OneRun(c, rs, subIf, last, files, was, was, first)
  {
    hide Usable, Iterable, CachedAnswer, TriesEnd;
  }

  lemma TriesOver(c: Call, rs: seq<Range>, subIf: string, last: Option<uint32>, files: Files, was: Stock, now: Stock)
    requires Usable(c.cfg) && (rs != [] ==> Iterable(rs)) && Leads(c, rs, subIf, last, files, was, now, 0)
    ensures OneRun(c, rs, subIf, last, files, was, now, Some(Exhausted))
  {
    hide Usable, Iterable, OneRun;
    assert TriesEnd(c, subIf, last, files, now, 0, now, Exhausted);
  }

  /** The passes from `s` on complete the passes that began at sub-interface 0 and got `ips` so far. */
  ghost predicate LeadsAll(c: Call, rs: seq<Range>, s: nat, last0: Option<uint32>, files0: Files, was: Stock,
                           last: Option<uint32>, files: Files, cur: Stock, ips: seq<uint32>)
    requires Usable(c.cfg) && (rs != [] ==> Iterable(rs))
  {
    forall now, more, end :: AllRuns(c, rs, s, last, files, cur, now, more, end) ==>
                               AllRuns(c, rs, 0, last0, files0, was, now, ips + more, end)
  }

  lemma PassLeads(c: Call, rs: seq<Range>, s: nat, last0: Option<uint32>, files0: Files, was: Stock,
                  last: Option<uint32>, files: Files, cur: Stock, ips: seq<uint32>,
                  next: Stock, ans: Option<GetResult>)
    requires Usable(c.cfg) && (rs != [] ==> Iterable(rs)) && s < c.cfg.num
    requires LeadsAll(c, rs, s, last0, files0, was, last, files, cur, ips)
    requires OneRun(c, rs, c.Sub(s), last, files, cur, next, ans)
    ensures match ans
            case None => AllRuns(c, rs, 0, last0, files0, was, next, ips, Stuck)
            case Some(Got(a, _)) => LeadsAll(c, rs, s + 1, last0, files0, was, Some(a),
                                             files[a := Record(c.id, c.Sub(s))], next, ips + [a])
            case Some(_) => AllRuns(c, rs, 0, last0, files0, was, next, ips, Refused)
  {
    hide Usable, OneRun, Iterable, Record;
    if ans.Some? && ans.value.Got? {
      var a := ans.value.addr;
      var files' := files[a := Record(c.id, c.Sub(s))];
      forall now, more, end | AllRuns(c, rs, s + 1, Some(a), files', next, now, more, end)
        ensures AllRuns(c, rs, 0, last0, files0, was, now, ips + [a] + more, end)
      {
        assert ([a] + more)[1..] == more;
        assert AllRuns(c, rs, s, last, files, cur, now, [a] + more, end);
        assert ips + ([a] + more) == ips + [a] + more;
      }
    } else {
      assert ips + [] == ips;
      assert AllRuns(c, rs, s, last, files, cur, next, [], if ans.None? then Stuck else Refused);
    }
  }

  lemma NoPass(c: Call, rs: seq<Range>, last: Option<uint32>, files: Files, was: Stock)
    requires Usable(c.cfg) && (rs != [] ==> Iterable(rs))
    ensures LeadsAll(c, rs, 0, last, files, was, last, files, was, [])
  {
    forall now, more, end | AllRuns(c, rs, 0, last, files, was, now, more, end)
      ensures AllRuns(c, rs, 0, last, files, was, now, [] + more, end)
    {
      assert [] + more == more;
    }
  }

  lemma LastPass(c: Call, rs: seq<Range>, s: nat, last0: Option<uint32>, files0: Files, was: Stock,
                 last: Option<uint32>, files: Files, cur: Stock, ips: seq<uint32>)
    requires Usable(c.cfg) && (rs != [] ==> Iterable(rs)) && s >= c.cfg.num
    requires LeadsAll(c, rs, s, last0, files0, was, last, files, cur, ips)
    ensures AllRuns(c, rs, 0, last0, files0, was, cur, ips, Complete)
  {
    assert AllRuns(c, rs, s, last, files, cur, cur, [], Complete);
    assert ips + [] == ips;
  }

  /* ---------- when the cached ranges are enough ---------- */

  /** The addresses that the sub-interfaces from `s` on get from the cached ranges alone. */
  function CachedRun(rs: seq<Range>, s: nat, num: int, last: Option<uint32>, files: Files, id: string,
                     ifname: string): (ips: seq<uint32>)
    requires rs != [] ==> Iterable(rs)
    decreases num - s
  {
    if s >= num || rs == [] then []
    else
      match GetOutcome(rs, last, files, id, SubInterface(ifname, s))
      case Got(a, _) =>
        [a] + CachedRun(rs, s + 1, num, Some(a), files[a := Record(id, SubInterface(ifname, s))], id, ifname)
      case _ => []
  }

  lemma GotIsNoHang(rs: seq<Range>, last: Option<uint32>, files: Files, id: string, subIf: string)
    requires rs != [] ==> Iterable(rs)
    ensures rs != [] && GetOutcome(rs, last, files, id, subIf).Got? ==>
              CachedAnswer(rs, last, files, id, subIf) == Some(GetOutcome(rs, last, files, id, subIf))
  {
  }

  /** Every run begins with what the cached ranges give; if that is enough, it succeeds and takes no block. */
  lemma {:induction false} CachedRangesFirst(c: Call, rs: seq<Range>, s: nat, last: Option<uint32>, files: Files,
                                             was: Stock, now: Stock, done: seq<uint32>, end: End)
    requires Usable(c.cfg) && (rs != [] ==> Iterable(rs))
    requires AllRuns(c, rs, s, last, files, was, now, done, end)
    ensures CachedRun(rs, s, c.cfg.num, last, files, c.id, c.ifname) <= done
    ensures |CachedRun(rs, s, c.cfg.num, last, files, c.id, c.ifname)| == Max(c.cfg.num - s, 0) ==>
              end == Complete && now == was
    ensures |done| <= Max(c.cfg.num - s, 0) && (end == Complete <==> |done| == Max(c.cfg.num - s, 0))
    decreases c.cfg.num - s
  {
    hide Usable, Iterable, Record, GetOutcome, TriesEnd, CachedAnswer;
    if s < c.cfg.num {
      var mid, ans: Option<GetResult> :| OneRun(c, rs, c.Sub(s), last, files, was, mid, ans) &&
        match ans
        case None => now == mid && done == [] && end == Stuck
        case Some(Got(a, _)) =>
          && done != [] && done[0] == a
          && AllRuns(c, rs, s + 1, Some(a), files[a := Record(c.id, c.Sub(s))], mid, now, done[1..], end)
        case Some(_) => now == mid && done == [] && end == Refused;
      GotIsNoHang(rs, last, files, c.id, c.Sub(s));
      if ans.Some? && ans.value.Got? {
        var a := ans.value.addr;
        CachedRangesFirst(c, rs, s + 1, Some(a), files[a := Record(c.id, c.Sub(s))], mid, now, done[1..], end);
      }
    }
  }

  /** The cached ranges hold a first address to hand out, enough free ones, and none of the sub-interfaces'. */
  ghost predicate Enough(rs: seq<Range>, s: nat, num: int, last: Option<uint32>, files: Files, id: string,
                         ifname: string)
    requires rs != [] ==> Iterable(rs)
  {
    s >= num || (
      && rs != [] && Pick(rs, last, files).Some?
      && num - s <= |FreeSeq(rs, files, Flat(rs))|
      && forall t: nat :: s <= t < num ==> !HoldsOne(files, rs, id, SubInterface(ifname, t)))
  }

  /** The cached ranges serve all sub-interfaces exactly if they are enough. */
  lemma {:induction false} CachedServesExactly(rs: seq<Range>, s: nat, num: int, last: Option<uint32>, files: Files,
                                               id: string, ifname: string)
    requires (rs != [] ==> Regular(rs)) && Text.Trim(id, SPACE) != ""
    ensures |CachedRun(rs, s, num, last, files, id, ifname)| == Max(num - s, 0) <==>
            Enough(rs, s, num, last, files, id, ifname)
    decreases num - s
  {
    hide Enough, GetOutcome, Record, Iterable, Ordered, SubInterface;
    if s >= num || rs == [] || !GetOutcome(rs, last, files, id, SubInterface(ifname, s)).Got? {
      NotEnough(rs, s, num, last, files, id, ifname);
    } else {
      var a := GetOutcome(rs, last, files, id, SubInterface(ifname, s)).addr;
      var files' := files[a := Record(id, SubInterface(ifname, s))];
      CachedServesExactly(rs, s + 1, num, Some(a), files', id, ifname);
      EnoughSteps(rs, s, num, last, files, id, ifname);
    }
  }

  lemma NotEnough(rs: seq<Range>, s: nat, num: int, last: Option<uint32>, files: Files, id: string, ifname: string)
    requires rs != [] ==> Iterable(rs)
    requires s >= num || rs == [] || !GetOutcome(rs, last, files, id, SubInterface(ifname, s)).Got?
    ensures Enough(rs, s, num, last, files, id, ifname) <==> s >= num
  {
    hide Pick, FreeSeq, Flat, HoldsOne, Record, Iterable, Ordered, SubInterface;
  }

  lemma EnoughSteps(rs: seq<Range>, s: nat, num: int, last: Option<uint32>, files: Files, id: string, ifname: string)
    requires Regular(rs) && Text.Trim(id, SPACE) != "" && s < num
    requires GetOutcome(rs, last, files, id, SubInterface(ifname, s)).Got?
    ensures var a := GetOutcome(rs, last, files, id, SubInterface(ifname, s)).addr;
            Enough(rs, s, num, last, files, id, ifname) <==>
            Enough(rs, s + 1, num, Some(a), files[a := Record(id, SubInterface(ifname, s))], id, ifname)
  {
    hide Pick, FreeSeq, Flat, HoldsOne, Record, Apart, FirstContaining, SubInterface, Iterable, Ordered;
    GotTakesOne(rs, last, files, id, ifname, s);
  }

  /** An address for sub-interface `s` is one free address less and, for a later one, nothing it holds; while one is
      free the next is found. */
  lemma GotTakesOne(rs: seq<Range>, last: Option<uint32>, files: Files, id: string, ifname: string, s: nat)
    requires Regular(rs) && Text.Trim(id, SPACE) != ""
    requires GetOutcome(rs, last, files, id, SubInterface(ifname, s)).Got?
    ensures var a := GetOutcome(rs, last, files, id, SubInterface(ifname, s)).addr;
            var files' := files[a := Record(id, SubInterface(ifname, s))];
            && |FreeSeq(rs, files', Flat(rs))| == |FreeSeq(rs, files, Flat(rs))| - 1
            && (FreeSeq(rs, files', Flat(rs)) != [] <==> Pick(rs, Some(a), files').Some?)
            && forall t: nat :: s < t ==>
                 (HoldsOne(files', rs, id, SubInterface(ifname, t)) <==>
                  HoldsOne(files, rs, id, SubInterface(ifname, t)))
  {
    hide Pick, FreeSeq, Flat, Record, Apart, FirstContaining, SubInterface, HoldsOne;
    var a := GetOutcome(rs, last, files, id, SubInterface(ifname, s)).addr;
    var rec := Record(id, SubInterface(ifname, s));
    GotIsFirstFree(rs, last, files, id, SubInterface(ifname, s));
    FreeSeqExactly(rs, files);
    FlatExactly(rs);
    FreeSeqTaken(rs, files, Flat(rs), a, rec);
    HandedResumes(rs, a);
    NextIsFound(rs, a, files[a := rec]);
    forall t: nat | s < t
      ensures HoldsOne(files[a := rec], rs, id, SubInterface(ifname, t)) <==>
              HoldsOne(files, rs, id, SubInterface(ifname, t))
    {
      LaterHoldsNothing(files, rs, id, ifname, s, t, a);
    }
  }

  /** Reserving an address takes it out of the free ones. */
  lemma {:induction false} FreeSeqTaken(rs: seq<Range>, files: Files, s: seq<Slot>, a: uint32, rec: string)
    requires DistinctSlots(s)
    ensures var g, g' := FreeSeq(rs, files, s), FreeSeq(rs, files[a := rec], s);
            |g'| == if a in g then |g| - 1 else |g|
  {
    if s != [] {
      FreeSeqTaken(rs, files, s[1..], a, rec);
      FreeSeqMembers(rs, files, s[1..]);
      var rest := FreeSeq(rs, files, s[1..]);
      assert s[0].addr !in rest;
      assert FreeSeq(rs, files, s) == if FreeSlot(rs, files, s[0]) then [s[0].addr] + rest else rest;
    }
  }

  lemma HandedResumes(rs: seq<Range>, a: uint32)
    requires Regular(rs) && Handed(rs, false, a)
    ensures Resumes(rs, Some(a))
  {
    var i :| 0 <= i < |rs| && InRange(rs, i, a);
    LastSlotIs(rs, Slot(i, a));
  }

  lemma NextIsFound(rs: seq<Range>, a: uint32, files: Files)
    requires Iterable(rs) && Resumes(rs, Some(a))
    ensures FreeSeq(rs, files, Flat(rs)) != [] <==> Pick(rs, Some(a), files).Some?
  {
    hide Pick, FreeSeq, Flat, Apart, FirstContaining;
    NothingFreeExactly(rs, Some(a), files);
    FreeSeqExactly(rs, files);
    if FreeSeq(rs, files, Flat(rs)) != [] {
      FirstRoundFailsExactly(rs, Some(a), files);
    }
  }

  lemma {:induction false} PrefixParsesLess(p: string, s: string)
    requires Text.AllDigits(s) && p <= s
    ensures Text.AllDigits(p) && Text.ParseNat(p) <= Text.ParseNat(s)
  {
    if p != s {
      PrefixParsesLess(p, s[..|s| - 1]);
    }
  }

  /** The record of an earlier sub-interface is not taken for one of a later: its number is smaller. */
  lemma EarlierIsNotLater(id: string, ifname: string, s: nat, t: nat)
    requires Text.Trim(id, SPACE) != "" && s < t
    ensures !OwnedBy(Record(id, SubInterface(ifname, s)), id, SubInterface(ifname, t))
  {
    var sub, later := SubInterface(ifname, s), SubInterface(ifname, t);
    assert sub[|sub| - 1] == Text.Decimal(s)[|Text.Decimal(s)| - 1];
    RecordPrefixExactly(id, later, sub);
    RecordTrimmed(id, sub);
    if later <= sub {
      var n := |ifname + "."|;
      assert Text.Decimal(t) == later[n..] && Text.Decimal(s) == sub[n..];
      PrefixParsesLess(Text.Decimal(t), Text.Decimal(s));
      Text.ParseDecimal(s);
      Text.ParseDecimal(t);
    }
  }

  lemma LaterHoldsNothing(files: Files, rs: seq<Range>, id: string, ifname: string, s: nat, t: nat, a: uint32)
    requires Text.Trim(id, SPACE) != "" && s < t && a !in files
    ensures HoldsOne(files[a := Record(id, SubInterface(ifname, s))], rs, id, SubInterface(ifname, t)) <==>
            HoldsOne(files, rs, id, SubInterface(ifname, t))
  {
    EarlierIsNotLater(id, ifname, s, t);
    hide OwnedBy, Record, SubInterface, FirstContaining;
    var f := files[a := Record(id, SubInterface(ifname, s))];
    assert Owned(f, id, SubInterface(ifname, t)) == Owned(files, id, SubInterface(ifname, t));
  }

  /** Cached ranges that are enough serve the whole call, which then takes no block. */
  lemma RunsMean(c: Call, rs: seq<Range>, last: Option<uint32>, files: Files, was: Stock, now: Stock,
                 done: seq<uint32>, end: End)
    requires Usable(c.cfg) && (rs != [] ==> Regular(rs)) && Text.Trim(c.id, SPACE) != ""
    requires AllRuns(c, rs, 0, last, files, was, now, done, end)
    ensures Enough(rs, 0, c.cfg.num, last, files, c.id, c.ifname) ==>
              end == Complete && now == was && done == CachedRun(rs, 0, c.cfg.num, last, files, c.id, c.ifname)
  {
    hide Usable, Iterable, AllRuns, Enough, CachedRun;
    CachedRangesFirst(c, rs, 0, last, files, was, now, done, end);
    CachedServesExactly(rs, 0, c.cfg.num, last, files, c.id, c.ifname);
  }
}

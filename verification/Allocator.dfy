/** Handing out and taking back single addresses of a range set on one node. */
module Allocator {
  import opened Words
  import opened RangeSets
  import opened RangeIteration
  import opened DiskStore

  datatype GetResult =
    | Got(addr: uint32, gateway: uint32)
    | NotInSet | IsGateway | IsReserve | NotAvailable   // answers to a requested address
    | Duplicate | Exhausted

  /** The interface already holds an address of the set. */
  predicate HoldsOne(files: Files, rs: seq<Range>, id: string, ifname: string) {
    exists a :: a in Owned(files, id, ifname) && FirstContaining(rs, a).Some?
  }

  /** The first position from `k` on that is handed out and not reserved. */
  function FirstFree(rs: seq<Range>, o: seq<Slot>, anew: bool, files: Files, k: nat): (j: Option<nat>)
    requires k <= |o| && Indexed(rs, o)
    ensures j.Some? ==> k <= j.value < |o| && Candidate(rs, o, anew, j.value) && o[j.value].addr !in files
    decreases |o| - k
  {
    if k == |o| then None
    else if Candidate(rs, o, anew, k) && o[k].addr !in files then Some(k)
    else FirstFree(rs, o, anew, files, k + 1)
  }

  lemma {:induction false} FirstFreeIsFirst(rs: seq<Range>, o: seq<Slot>, anew: bool, files: Files, k: nat)
    requires k <= |o| && Indexed(rs, o)
    ensures forall i :: k <= i < |o| && Candidate(rs, o, anew, i) && o[i].addr !in files ==>
                          FirstFree(rs, o, anew, files, k).Some? && FirstFree(rs, o, anew, files, k).value <= i
    decreases |o| - k
  {
    if k < |o| {
      FirstFreeIsFirst(rs, o, anew, files, k + 1);
    }
  }

  lemma {:induction false} FirstFreeFromCandidate(rs: seq<Range>, o: seq<Slot>, anew: bool, files: Files, k: nat)
    requires k <= |o| && Indexed(rs, o)
    ensures FirstFree(rs, o, anew, files, k) ==
            match NextCandidate(rs, o, anew, k)
            case None => None
            case Some(j) => if o[j].addr !in files then Some(j) else FirstFree(rs, o, anew, files, j + 1)
    decreases |o| - k
  {
    if k < |o| {
      FirstFreeFromCandidate(rs, o, anew, files, k + 1);
    }
  }

  /** The first free position in the order behind the last reserved address. */
  function Pick(rs: seq<Range>, last: Option<uint32>, files: Files): (j: Option<nat>)
    requires Iterable(rs)
    ensures j.Some? ==> j.value < |Order(rs, last)|
  {
    FirstFree(rs, Order(rs, last), !Resumes(rs, last), files, 0)
  }

  /** The loop of Get never ends: the iterator cannot stop and nothing is free. */
  predicate Hangs(rs: seq<Range>, last: Option<uint32>, files: Files)
    requires Iterable(rs)
  {
    !Stops(rs, last) && Pick(rs, last, files).None?
  }

  /** A call of Get never returns: it comes to the loop, which never ends. */
  predicate GetHangs(rs: seq<Range>, last: Option<uint32>, files: Files, id: string, ifname: string)
    requires Iterable(rs)
  {
    !HoldsOne(files, rs, id, ifname) && Hangs(rs, last, files)
  }

  /** What Get answers without a requested address. */
  function GetOutcome(rs: seq<Range>, last: Option<uint32>, files: Files, id: string, ifname: string): GetResult
    requires Iterable(rs)
  {
    if HoldsOne(files, rs, id, ifname) then Duplicate
    else
      match Pick(rs, last, files)
      case Some(j) => var s := Order(rs, last)[j]; Got(s.addr, rs[s.idx].gateway)
      case None => Exhausted
  }

  /** What Get answers for a requested address. */
  function RequestOutcome(rs: seq<Range>, files: Files, ip: uint32): GetResult {
    match FirstContaining(rs, ip)
    case None => NotInSet
    case Some(i) =>
      if ip == rs[i].gateway then IsGateway
      else if ip in rs[i].reserves then IsReserve
      else if ip in files then NotAvailable
      else Got(ip, rs[i].gateway)
  }

  function FilesAfter(files: Files, res: GetResult, id: string, ifname: string): Files {
    if res.Got? then files[res.addr := Record(id, ifname)] else files
  }

  function LastAfter(last: map<nat, uint32>, res: GetResult, rangeID: nat): map<nat, uint32> {
    if res.Got? then last[rangeID := res.addr] else last
  }

  function LastOf(last: map<nat, uint32>, rangeID: nat): Option<uint32> {
    if rangeID in last then Some(last[rangeID]) else None
  }

  /** When Get hangs, the iterator cannot stop and each address it comes to is taken. */
  lemma AllTaken(rs: seq<Range>, last: Option<uint32>, files: Files)
    requires Iterable(rs) && Hangs(rs, last, files)
    ensures Resumes(rs, last) && Order(rs, last) != [] && Order(rs, last)[0].idx != StartRange(rs, last)
    ensures forall k, j :: 0 <= k <= |Order(rs, last)| && NextCandidate(rs, Order(rs, last), false, k) == Some(j) ==>
              Order(rs, last)[j].addr in files
  {
    StopTestExactly(rs, last);
    var o := Order(rs, last);
    FirstFreeIsFirst(rs, o, false, files, 0);
  }

  class IPAllocator {
    const rangeset: seq<Range>
    const store: Store
    const rangeID: nat

    constructor (rs: seq<Range>, store: Store, rangeID: nat)
      ensures this.rangeset == rs && this.store == store && this.rangeID == rangeID
    {
      this.rangeset, this.store, this.rangeID := rs, store, rangeID;
    }

    method Get(id: string, ifname: string, requested: Option<uint32>) returns (res: GetResult)
      requires requested.None? ==>
                 && Iterable(rangeset)
                 && !GetHangs(rangeset, LastOf(store.last, rangeID), store.files, id, ifname)
      modifies store`files, store`last
      ensures res == match requested
                     case Some(ip) => RequestOutcome(rangeset, old(store.files), ip)
                     case None => GetOutcome(rangeset, LastOf(old(store.last), rangeID), old(store.files), id, ifname)
      ensures store.files == FilesAfter(old(store.files), res, id, ifname)
      ensures store.last == LastAfter(old(store.last), res, rangeID)
    {
      if requested.Some? {
        var ip := requested.value;
        var i := RangeFor(rangeset, ip);
        if i.None? {
          return NotInSet;
        }
        var r := rangeset[i.value];
        if ip == r.gateway {
          return IsGateway;
        }
        if ip in r.reserves {
          return IsReserve;
        }
        var reserved := store.Reserve(id, ifname, ip, rangeID);
        if !reserved {
          return NotAvailable;
        }
        return Got(ip, r.gateway);
      }

      var allocatedIPs := store.GetByID(id, ifname);
      for k := 0 to |allocatedIPs|
        invariant forall j :: 0 <= j < k ==> FirstContaining(rangeset, allocatedIPs[j]).None?
        invariant store.files == old(store.files) && store.last == old(store.last)
      {
        var i := RangeFor(rangeset, allocatedIPs[k]);
        if i.Some? {
          assert allocatedIPs[k] in Owned(store.files, id, ifname);
          return Duplicate;
        }
      }
      assert !HoldsOne(store.files, rangeset, id, ifname);
      res := Iterate(id, ifname);
    }

    /** The loop of Get over the iterator; the source has it inline. */
    method Iterate(id: string, ifname: string) returns (res: GetResult)
      requires Iterable(rangeset) && !Hangs(rangeset, LastOf(store.last, rangeID), store.files)
      requires !HoldsOne(store.files, rangeset, id, ifname)
      modifies store`files, store`last
      ensures res == GetOutcome(rangeset, LastOf(old(store.last), rangeID), old(store.files), id, ifname)
      ensures store.files == FilesAfter(old(store.files), res, id, ifname)
      ensures store.last == LastAfter(old(store.last), res, rangeID)
    {
      hide Order, FirstFree, NextCandidate, Candidate, Flat, HoldsOne, SlotOf, NextSlot, FirstContaining;
      var last := store.LastReservedIP(rangeID);
      assert !Stops(rangeset, last) ==> Pick(rangeset, last, store.files).Some?;
      assert Stops(rangeset, last) <==> Order(rangeset, last)[0].idx == StartRange(rangeset, last) by {
        StopTestExactly(rangeset, last);
      }
      var iter := new RangeIter(rangeset, last);
      ghost var rs, o, anew, files := rangeset, iter.order, iter.anew, store.files;
      ghost var free := FirstFree(rs, o, anew, files, 0);
      while true
        invariant fresh(iter) && iter.Valid() && iter.rangeset == rs && iter.order == o && iter.anew == anew
        invariant iter.Stoppable() || free.Some?
        invariant store.files == old(store.files) && store.last == old(store.last)
        invariant FirstFree(rs, o, anew, files, iter.count) == free
        decreases |o| - iter.count
      {
        FirstFreeFromCandidate(rs, o, anew, files, 0);
        FirstFreeFromCandidate(rs, o, anew, files, iter.count);
        var ip, gateway := iter.Next();
        if ip.None? {
          return Exhausted;
        }
        var reserved := store.Reserve(id, ifname, ip.value, rangeID);
        if reserved {
          return Got(ip.value, gateway);
        }
      }
    }

    /** The first `n` rounds of that loop when Get hangs: every one gets an address, every address is taken,
        nothing changes and the loop goes on. */
    method KeepTrying(id: string, ifname: string, n: nat) returns (tried: seq<uint32>)
      requires Iterable(rangeset) && Hangs(rangeset, LastOf(store.last, rangeID), store.files)
      requires NextCandidate(rangeset, Order(rangeset, LastOf(store.last, rangeID)), false, 0).Some?
      modifies store`files, store`last
      ensures |tried| == n && forall a :: a in tried ==> a in store.files
      ensures store.files == old(store.files) && store.last == old(store.last)
    {
      hide Order, NextCandidate, Candidate, Flat, SlotOf, NextSlot, FirstContaining, Hangs;
      var last := store.LastReservedIP(rangeID);
      AllTaken(rangeset, last, store.files);
      var iter := new RangeIter(rangeset, last);
      ghost var o := iter.order;
      tried := [];
      for i := 0 to n
        invariant fresh(iter) && iter.Valid() && iter.rangeset == rangeset && iter.order == o && !iter.anew
        invariant |tried| == i && forall a :: a in tried ==> a in store.files
        invariant store.files == old(store.files) && store.last == old(store.last)
      {
        var ip, gateway := iter.Next();
        var reserved := store.Reserve(id, ifname, ip.value, rangeID);
        assert !reserved;
        tried := tried + [ip.value];
      }
    }

    method Release(id: string, ifname: string)
      modifies store`files
      ensures store.files == AfterRelease(old(store.files), id, ifname)
    {
      store.ReleaseByID(id, ifname);
    }
  }

  /* ---------- what Get means ---------- */

  /** Success reserves the first free address that is handed out behind the last reserved one, and answers the gateway
      of a range that holds it. */
  lemma GotIsFirstFree(rs: seq<Range>, last: Option<uint32>, files: Files, id: string, ifname: string)
    requires Iterable(rs) && GetOutcome(rs, last, files, id, ifname).Got?
    ensures var a := GetOutcome(rs, last, files, id, ifname).addr;
            && a !in files && Handed(rs, !Resumes(rs, last), a)
            && exists j :: 0 <= j < |Order(rs, last)| && Order(rs, last)[j].addr == a
                 && forall i :: 0 <= i < j && Candidate(rs, Order(rs, last), !Resumes(rs, last), i) ==>
                      Order(rs, last)[i].addr in files
    ensures var res := GetOutcome(rs, last, files, id, ifname);
            exists i :: 0 <= i < |rs| && InRange(rs, i, res.addr) && res.gateway == rs[i].gateway
  {
    OrderIsCycle(rs, last);
    var o, anew := Order(rs, last), !Resumes(rs, last);
    var j := FirstFree(rs, o, anew, files, 0).value;
    FirstFreeIsFirst(rs, o, anew, files, 0);
    CandidateIsHanded(rs, last, j);
    assert SlotOf(rs, o[j]) && InRange(rs, o[j].idx, o[j].addr);
  }

  /** The gateway is that of a range with the address. */
  ghost predicate AnswersGateway(rs: seq<Range>, a: uint32, gateway: uint32) {
    exists i :: 0 <= i < |rs| && InRange(rs, i, a) && gateway == rs[i].gateway
  }

  /** What each answer to a requested address means. */
  lemma RequestExactly(rs: seq<Range>, files: Files, ip: uint32)
    requires Iterable(rs) && forall i :: 0 <= i < |rs| ==> rs[i].Valid()
    ensures var res := RequestOutcome(rs, files, ip);
            && (res == NotInSet <==> forall i :: 0 <= i < |rs| ==> !InRange(rs, i, ip))
            && (res == IsGateway <==> AnswersGateway(rs, ip, ip))
            && (res == IsReserve <==> exists i :: && 0 <= i < |rs| && InRange(rs, i, ip) && ip != rs[i].gateway
                                                  && ip in rs[i].reserves)
            && (res.Got? <==> ip !in files && exists i :: && 0 <= i < |rs| && InRange(rs, i, ip)
                                                          && ip != rs[i].gateway && ip !in rs[i].reserves)
            && (res.Got? ==> res.addr == ip && AnswersGateway(rs, ip, res.gateway))
            && res != Duplicate && res != Exhausted
  {
    hide FirstContaining, Iterable, Ordered, Range.Valid;
    OneContains(rs, ip);
    if FirstContaining(rs, ip).Some? {
      assert InRange(rs, FirstContaining(rs, ip).value, ip);
    }
  }

  /** At most one range holds an address. */
  lemma OneContains(rs: seq<Range>, a: uint32)
    requires Iterable(rs) && forall i :: 0 <= i < |rs| ==> rs[i].Valid()
    ensures match FirstContaining(rs, a)
            case None => forall i :: 0 <= i < |rs| ==> !InRange(rs, i, a)
            case Some(k) => k < |rs| && forall i :: 0 <= i < |rs| ==> (InRange(rs, i, a) <==> i == k)
  {
    hide Range.Contains, Range.Valid;
    forall i | 0 <= i < |rs| ensures rs[i].Contains(a) <==> InRange(rs, i, a) {
      ContainsExactly(rs[i], a);
    }
    forall i, j | 0 <= i < j < |rs| ensures !(InRange(rs, i, a) && InRange(rs, j, a)) {
      assert Apart(rs[i], rs[j]);
    }
  }

  /** Get finds nothing exactly when every address it may hand out is reserved. */
  lemma NothingFreeExactly(rs: seq<Range>, last: Option<uint32>, files: Files)
    requires Iterable(rs)
    ensures Pick(rs, last, files).None? <==> forall a: uint32 :: Handed(rs, !Resumes(rs, last), a) ==> a in files
  {
    OrderIsCycle(rs, last);
    var o, anew := Order(rs, last), !Resumes(rs, last);
    FirstFreeIsFirst(rs, o, anew, files, 0);
    if Pick(rs, last, files).None? {
      forall a: uint32 | Handed(rs, anew, a) ensures a in files {
        var j := HandedIsCandidate(rs, last, a);
      }
    } else {
      CandidateIsHanded(rs, last, Pick(rs, last, files).value);
    }
  }

  /** Without a requested address Get is refused as a duplicate exactly when the interface holds an address of the set,
      and finds nothing exactly when otherwise every address that may be handed out is reserved. */
  lemma GetFailsExactly(rs: seq<Range>, last: Option<uint32>, files: Files, id: string, ifname: string)
    requires Iterable(rs)
    ensures var res := GetOutcome(rs, last, files, id, ifname);
            && (res == Duplicate <==> exists a :: a in Owned(files, id, ifname) && FirstContaining(rs, a).Some?)
            && (res == Exhausted <==>
                  (res != Duplicate && forall a: uint32 :: Handed(rs, !Resumes(rs, last), a) ==> a in files))
            && (res.Got? || res == Duplicate || res == Exhausted)
  {
    hide Pick, FirstContaining, Iterable;
    NothingFreeExactly(rs, last, files);
  }

  /** The loop of Get hangs, by `KeepTrying` and `RangeIter.NeverReturns`, exactly when the set has several ranges,
      the last reserved address ends one of them, and every address that may be handed out is reserved. */
  lemma LoopHangsExactly(rs: seq<Range>, last: Option<uint32>, files: Files)
    requires Iterable(rs)
    ensures Hangs(rs, last, files) <==>
            && |rs| > 1 && Resumes(rs, last) && last.value == rs[LastSlot(rs, last).idx].end
            && forall a: uint32 :: Handed(rs, false, a) ==> a in files
  {
    NothingFreeExactly(rs, last, files);
  }

  /** Get hangs exactly when, besides, the interface holds no address of the set, which Get looks for first. */
  lemma HangsExactly(rs: seq<Range>, last: Option<uint32>, files: Files, id: string, ifname: string)
    requires Iterable(rs)
    ensures GetHangs(rs, last, files, id, ifname) <==>
            && (forall a :: a in Owned(files, id, ifname) ==> FirstContaining(rs, a).None?)
            && |rs| > 1 && Resumes(rs, last) && last.value == rs[LastSlot(rs, last).idx].end
            && forall a: uint32 :: Handed(rs, false, a) ==> a in files
  {
    LoopHangsExactly(rs, last, files);
  }
}

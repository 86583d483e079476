/** The periodic comparison of a node's block cache with its leases. */
module Reconcile {
  import opened Words
  import opened Blocks
  import opened DiskStore
  import opened Etcd

  datatype State = State(cache: seq<SimpleRange>, leases: Leases)

  /** The inner loop over the cache as loaded: drops every block that overlaps the lease without matching it,
      and stops at a match. */
  function ScanCache(caches: seq<SimpleRange>, l: SimpleRange, cache: seq<SimpleRange>): (bool, seq<SimpleRange>) {
    if caches == [] then (false, cache)
    else if !caches[0].Overlaps(l) then ScanCache(caches[1..], l, cache)
    else if caches[0].Match(l) then (true, cache)
    else ScanCache(caches[1..], l, Deleted(cache, caches[0]))
  }

  /** What one lease of the first loop does. */
  function CheckLease(l: SimpleRange, caches: seq<SimpleRange>, s: State): State {
    var (found, cache) := ScanCache(caches, l, s.cache);
    if found then State(cache, s.leases)
    else
      match Appended(cache, l)
      case Some(c) => State(c, s.leases)
      case None => State(cache, s.leases - {l.Canonicalize()})
  }

  /** The first loop: the leases against the cache. */
  function CheckLeases(own: seq<SimpleRange>, caches: seq<SimpleRange>, s: State): State {
    if own == [] then s else CheckLeases(own[1..], caches, CheckLease(own[0], caches, s))
  }

  predicate AnyMatches(csr: SimpleRange, own: seq<SimpleRange>) {
    exists i :: 0 <= i < |own| && csr.Match(own[i])
  }

  /** What one cached block of the second loop does. */
  function CheckCached(csr: SimpleRange, own: seq<SimpleRange>, id: string, s: State): State {
    if AnyMatches(csr, own) then s
    else if csr.Canonicalize() in s.leases then State(Deleted(s.cache, csr), s.leases)
    else State(s.cache, s.leases[csr.Canonicalize() := id])
  }

  /** The second loop: the reloaded cache against the leases. */
  function CheckCache(caches: seq<SimpleRange>, own: seq<SimpleRange>, id: string, s: State): State {
    if caches == [] then s else CheckCache(caches[1..], own, id, CheckCached(caches[0], own, id, s))
  }

  /** ipamCheckNet for the leases `own` of node `id`. */
  function CheckNet(own: seq<SimpleRange>, id: string, s: State): State {
    var t := CheckLeases(own, s.cache, s);
    CheckCache(t.cache, own, id, t)
  }

  /** The run makes no write when each lease is cached and is all that it overlaps in the cache. */
  predicate Calm(l: SimpleRange, caches: seq<SimpleRange>) {
    l.start <= l.end && l in caches && forall c :: c in caches && c.Overlaps(l) ==> c == l
  }

  /** ipamCheckNet; `writes` counts the calls that write the cache file or etcd, whatever they change. */
  method CheckNetwork(dir: LeaseDir, store: Store, id: string, own: seq<SimpleRange>) returns (ghost writes: nat)
    modifies dir, store`cache
    ensures State(store.cache, dir.leases) == CheckNet(own, id, old(State(store.cache, dir.leases)))
    ensures writes == 0 ==>
              (forall l :: l in own ==> l in old(store.cache)) && (forall c :: c in old(store.cache) ==> c in own)
    ensures (forall l :: l in own ==> Calm(l, old(store.cache))) && (forall c :: c in old(store.cache) ==> c in own) ==>
              writes == 0
  {
    hide CheckLease, CheckCached, Calm;
    ghost var s0 := State(store.cache, dir.leases);
    writes := 0;
    var caches := store.LoadCache();
    for i := 0 to |own|
      invariant CheckLeases(own[i..], caches, State(store.cache, dir.leases)) == CheckLeases(own, caches, s0)
      invariant writes == 0 ==> store.cache == caches && forall k :: 0 <= k < i ==> own[k] in caches
      invariant (forall l :: l in own ==> Calm(l, caches)) ==> writes == 0
    {
      assert own[i..][0] == own[i] && own[i..][1..] == own[i + 1..];
      ghost var more := CheckOneLease(dir, store, caches, own[i]);
      writes := writes + more;
    }

    ghost var t, first := State(store.cache, dir.leases), writes;
    assert own[|own|..] == [];
    caches := store.LoadCache();
    for i := 0 to |caches|
      invariant CheckCache(caches[i..], own, id, State(store.cache, dir.leases)) == CheckCache(caches, own, id, t)
      invariant first <= writes
      invariant writes == first <==> forall k :: 0 <= k < i ==> caches[k] in own
    {
      assert caches[i..][0] == caches[i] && caches[i..][1..] == caches[i + 1..];
      ghost var more := CheckOneCached(dir, store, id, own, caches[i]);
      writes := writes + more;
    }
    assert caches[|caches|..] == [];
  }

  /** The body of the first loop, with the loop over the loaded cache. */
  method CheckOneLease(dir: LeaseDir, store: Store, caches: seq<SimpleRange>, l: SimpleRange)
    returns (ghost writes: nat)
    modifies dir, store`cache
    ensures State(store.cache, dir.leases) == CheckLease(l, caches, old(State(store.cache, dir.leases)))
    ensures writes == 0 ==> store.cache == old(store.cache) && l in caches
    ensures Calm(l, caches) ==> writes == 0
  {
    ghost var s := State(store.cache, dir.leases);
    writes := 0;
    var last := false;
    for j := 0 to |caches|
      invariant dir.leases == s.leases
      invariant !last && ScanCache(caches[j..], l, store.cache) == ScanCache(caches, l, s.cache)
      invariant writes == 0 ==> store.cache == s.cache
      invariant Calm(l, caches) ==> writes == 0 && l in caches[j..]
    {
      var csr := caches[j];
      assert caches[j..][0] == csr && caches[j..][1..] == caches[j + 1..];
      if csr.Overlaps(l) {
        if csr.Match(l) {
          last := true;
          break;
        } else {
          store.DeleteCache(csr);
          writes := writes + 1;
        }
      }
    }
    assert (last, store.cache) == ScanCache(caches, l, s.cache);
    if !last {
      var ok := store.AppendCache(l);
      writes := writes + 1;
      if !ok {
        dir.Delete(l);
        writes := writes + 1;
      }
    }
  }

  /** The body of the second loop. */
  method CheckOneCached(dir: LeaseDir, store: Store, id: string, own: seq<SimpleRange>, csr: SimpleRange)
    returns (ghost writes: nat)
    modifies dir, store`cache
    ensures State(store.cache, dir.leases) == CheckCached(csr, own, id, old(State(store.cache, dir.leases)))
    ensures writes == 0 <==> csr in own
  {
    writes := 0;
    var last := false;
    for j := 0 to |own|
      invariant !last && forall k :: 0 <= k < j ==> !csr.Match(own[k])
    {
      if csr.Match(own[j]) {
        last := true;
        break;
      }
    }
    if !last {
      var ok := dir.PutIfAbsent(csr, id);
      writes := writes + 1;
      if !ok {
        store.DeleteCache(csr);
        writes := writes + 1;
      }
    }
  }

  /* ---------- the state a run starts from ---------- */

  function OwnSet(leases: Leases, id: string): set<SimpleRange> {
    set b | b in leases && leases[b] == id
  }

  /** The listing of the node's own leases that the run works on. */
  ghost predicate ListsOwn(own: seq<SimpleRange>, leases: Leases, id: string) {
    && (forall b :: b in own <==> b in leases && leases[b] == id)
    && (forall i, j :: 0 <= i < j < |own| ==> own[i] != own[j])
  }

  ghost predicate DisjointSet(s: set<SimpleRange>) {
    forall a, b :: a in s && b in s && a != b ==> !Intersects(a, b)
  }

  ghost predicate BlockSet(s: set<SimpleRange>, num: nat) {
    forall b :: b in s ==> IsBlock(b, num)
  }

  /** Cache entries and own leases are blocks of one size, each kind pairwise disjoint. */
  ghost predicate Sound(s: State, id: string, n: nat) {
    && n < 32
    && AllBlocks(s.cache, Pow2(n)) && PairwiseDisjoint(s.cache)
    && BlockSet(OwnSet(s.leases, id), Pow2(n)) && DisjointSet(OwnSet(s.leases, id))
  }

  ghost predicate Agrees(s: State, id: string) {
    forall b :: b in s.cache <==> b in OwnSet(s.leases, id)
  }

  /** No cached block meets two leases of the node. */
  ghost predicate MeetsOneLease(s: State, id: string) {
    forall c, l, m :: c in s.cache && l in OwnSet(s.leases, id) && m in OwnSet(s.leases, id) ==>
                        Intersects(c, l) && Intersects(c, m) ==> l == m
  }

  /* ---------- the list operations on disjoint blocks, as sets ---------- */

  ghost predicate Tidy(c: seq<SimpleRange>, n: nat) {
    n < 32 && AllBlocks(c, Pow2(n)) && PairwiseDisjoint(c)
  }

  lemma DisjointMembers(c: seq<SimpleRange>, n: nat, a: SimpleRange, b: SimpleRange)
    requires n < 32 && AllBlocks(c, Pow2(n)) && PairwiseDisjoint(c) && a in c && b in c && a != b
    ensures !Intersects(a, b)
  {
    var i :| 0 <= i < |c| && c[i] == a;
    var j :| 0 <= j < |c| && c[j] == b;
    assert Intersects(a, b) <==> Intersects(b, a);
  }

  lemma CutAt(c: seq<SimpleRange>, k: nat, n: nat)
    requires Tidy(c, n) && k < |c|
    ensures var d := c[..k] + c[k + 1..];
            Tidy(d, n) && c[k] !in d && (forall b :: b in d <==> b in c && b != c[k])
  {
    var d := c[..k] + c[k + 1..];
    forall i | 0 <= i < |c| && i != k ensures c[i] in d && c[i] != c[k] {
      assert c[i] == d[if i < k then i else i - 1];
      assert c[k] in c && IsBlock(c[k], Pow2(n));
      assert Intersects(c[k], c[k]);
    }
    forall i | 0 <= i < |d| ensures d[i] == c[if i < k then i else i + 1] {
    }
  }

  lemma DeletedMembers(c: seq<SimpleRange>, csr: SimpleRange, n: nat)
    requires Tidy(c, n) && IsBlock(csr, Pow2(n))
    ensures var d := Deleted(c, csr);
            && Tidy(d, n) && csr !in d
            && (forall b :: b in d ==> b in c)
            && (csr in c ==> forall b :: b in c && b != csr ==> b in d)
            && (!AnyOverlaps(c, csr) ==> d == c)
  {
    DeleteExactly(c, csr, n);
    if csr in c {
      var k :| 0 <= k < |c| && c[k] == csr;
      DeleteMember(c, k, n);
      CutAt(c, k, n);
      assert c[k].Overlaps(csr);
    } else if AnyOverlaps(c, csr) {
      var k := FirstOverlap(c, csr);
      RemoveFirstAt(c, csr, k);
      CutAt(c, k, n);
      CanonicalizedBlocks(c[..k] + c[k + 1..], n);
    }
  }

  /* ---------- the first loop ---------- */

  /** Scanning for a lease: a match leaves the cache alone, otherwise every block of the loaded cache that
      meets the lease is gone, and nothing is added. */
  lemma {:induction false} ScanCacheExactly(caches: seq<SimpleRange>, l: SimpleRange, c: seq<SimpleRange>, n: nat)
    requires Tidy(caches, n) && Tidy(c, n) && IsBlock(l, Pow2(n))
    ensures var (found, d) := ScanCache(caches, l, c);
            && found == (l in caches)
            && (found ==> d == c)
            && Tidy(d, n) && (forall b :: b in d ==> b in c)
            && (!found ==> forall b :: b in caches && Intersects(b, l) ==> b !in d)
            && ((forall b :: b in caches && Intersects(b, l) ==> b == l) ==> d == c)
  {
    if caches != [] {
      var csr := caches[0];
      assert csr in caches;
      assert Tidy(caches[1..], n) by {
        assert forall b :: b in caches[1..] ==> b in caches;
      }
      BlockOverlapIsIntersection(csr, l, Pow2(n));
      if !csr.Overlaps(l) {
        ScanCacheExactly(caches[1..], l, c, n);
      } else if csr.Match(l) {
      } else {
        DeletedMembers(c, csr, n);
        ScanCacheExactly(caches[1..], l, Deleted(c, csr), n);
        if l in caches {
          DisjointMembers(caches, n, csr, l);
        }
      }
    }
  }

  /** What holds of the cache when the leases `done` have been looked at: each entry is one of them,
      or an old entry that misses them all. */
  ghost predicate Progress(c: seq<SimpleRange>, loaded: seq<SimpleRange>, done: set<SimpleRange>, n: nat) {
    && Tidy(c, n)
    && forall b :: b in c ==> b in done || (b in loaded && forall l :: l in done ==> !Intersects(b, l))
  }

  lemma CheckLeaseProgress(l: SimpleRange, caches: seq<SimpleRange>, s: State, done: set<SimpleRange>, n: nat)
    requires Tidy(caches, n) && IsBlock(l, Pow2(n)) && Progress(s.cache, caches, done, n)
    requires l !in done && forall k :: k in done ==> !Intersects(k, l)
    ensures var t := CheckLease(l, caches, s);
            && t.leases == s.leases && Progress(t.cache, caches, done + {l}, n)
            && ((forall b :: b in caches && Intersects(b, l) ==> b == l) ==>
                  t.cache == if l in caches then s.cache else s.cache + [l])
  {
    ScanCacheExactly(caches, l, s.cache, n);
    var (found, d) := ScanCache(caches, l, s.cache);
    if found {
      forall b | b in s.cache
        ensures b in done + {l} || (b in caches && forall k :: k in done + {l} ==> !Intersects(b, k))
      {
        if b !in done && b != l {
          DisjointMembers(caches, n, b, l);
        }
      }
    } else {
      forall i | 0 <= i < |d| ensures !Intersects(d[i], l) {
        assert d[i] in d;
        assert d[i] in s.cache;
      }
      AppendExactly(d, l, n);
      assert CheckLease(l, caches, s).cache == d + [l];
    }
  }

  lemma {:induction false} CheckLeasesProgress(own: seq<SimpleRange>, caches: seq<SimpleRange>, s: State,
                      done: set<SimpleRange>, n: nat)
    requires Tidy(caches, n) && Progress(s.cache, caches, done, n)
    requires AllBlocks(own, Pow2(n)) && PairwiseDisjoint(own)
    requires forall k, l :: k in done && l in own ==> k != l && !Intersects(k, l)
    ensures var t := CheckLeases(own, caches, s);
            t.leases == s.leases && Progress(t.cache, caches, done + (set l | l in own), n)
    decreases own
  {
    if own == [] {
      assert done + (set l | l in own) == done;
    } else {
      var l := own[0];
      assert l in own;
      CheckLeaseProgress(l, caches, s, done, n);
      var done' := done + {l};
      forall k, m | k in done' && m in own[1..] ensures k != m && !Intersects(k, m) {
        assert m in own;
        var j :| 0 <= j < |own| - 1 && own[1..][j] == m;
        assert own[j + 1] == m && !Intersects(own[0], own[j + 1]);
        assert Intersects(m, m);
      }
      CheckLeasesProgress(own[1..], caches, CheckLease(l, caches, s), done', n);
      assert done' + (set m | m in own[1..]) == done + (set m | m in own);
    }
  }

  /** Without a partial overlap the first loop drops nothing and adds the missing leases. */
  lemma {:induction false} CheckLeasesAdds(own: seq<SimpleRange>, caches: seq<SimpleRange>, s: State,
                      done: set<SimpleRange>, n: nat)
    requires Tidy(caches, n) && Progress(s.cache, caches, done, n)
    requires AllBlocks(own, Pow2(n)) && PairwiseDisjoint(own)
    requires forall k, l :: k in done && l in own ==> k != l && !Intersects(k, l)
    requires forall b, l :: b in caches && l in own && Intersects(b, l) ==> b == l
    ensures var t := CheckLeases(own, caches, s);
            && s.cache <= t.cache
            && (forall l :: l in own ==> l in caches || l in t.cache)
            && ((forall l :: l in own ==> l in caches) ==> t == s)
    decreases own
  {
    if own != [] {
      var l := own[0];
      assert l in own;
      CheckLeaseProgress(l, caches, s, done, n);
      var done', t := done + {l}, CheckLease(l, caches, s);
      forall k, m | k in done' && m in own[1..] ensures k != m && !Intersects(k, m) {
        assert m in own;
        var j :| 0 <= j < |own| - 1 && own[1..][j] == m;
        assert own[j + 1] == m && !Intersects(own[0], own[j + 1]);
        assert Intersects(m, m);
      }
      CheckLeasesAdds(own[1..], caches, t, done', n);
      var u := CheckLeases(own[1..], caches, t);
      if l !in caches {
        assert t.cache[|t.cache| - 1] == l;
        assert u.cache[|t.cache| - 1] == l;
      }
    }
  }

  /** If no two entries meet a block, deleting that block removes exactly the entries that meet it. */
  lemma DeletedMeets(c: seq<SimpleRange>, csr: SimpleRange, n: nat)
    requires Tidy(c, n) && IsBlock(csr, Pow2(n))
    requires forall a, b :: a in c && b in c && Intersects(a, csr) && Intersects(b, csr) ==> a == b
    ensures Tidy(Deleted(c, csr), n)
    ensures forall b :: b in Deleted(c, csr) <==> b in c && !Intersects(b, csr)
  {
    forall b | b in c ensures b.Overlaps(csr) <==> Intersects(b, csr) {
      BlockOverlapIsIntersection(b, csr, Pow2(n));
    }
    DeleteExactly(c, csr, n);
    if AnyOverlaps(c, csr) {
      var k := FirstOverlap(c, csr);
      RemoveFirstAt(c, csr, k);
      CutAt(c, k, n);
      CanonicalizedBlocks(c[..k] + c[k + 1..], n);
      assert c[k] in c;
    } else {
      forall b | b in c ensures !Intersects(b, csr) {
        var i :| 0 <= i < |c| && c[i] == b;
      }
    }
  }

  /** A loaded block lies across the two leases. */
  ghost predicate Bridged(caches: seq<SimpleRange>, l: SimpleRange, m: SimpleRange) {
    exists x :: x in caches && Intersects(x, l) && Intersects(x, m)
  }

  /** Each loaded block that meets the lease meets at most one cache entry. */
  ghost predicate MeetOne(caches: seq<SimpleRange>, l: SimpleRange, c: seq<SimpleRange>) {
    forall x, a, b :: x in caches && Intersects(x, l) && a in c && b in c ==>
                        Intersects(a, x) && Intersects(b, x) ==> a == b
  }

  /** Then the scan for a lease that is not cached removes exactly the entries that share a loaded block with it. */
  lemma {:induction false} ScanCacheMembers(caches: seq<SimpleRange>, l: SimpleRange, c: seq<SimpleRange>, n: nat)
    requires Tidy(caches, n) && Tidy(c, n) && IsBlock(l, Pow2(n)) && l !in caches && MeetOne(caches, l, c)
    ensures forall b :: b in ScanCache(caches, l, c).1 <==> b in c && !Bridged(caches, l, b)
  {
    if caches != [] {
      var csr := caches[0];
      assert csr in caches;
      assert forall x :: x in caches <==> x == csr || x in caches[1..];
      BlockOverlapIsIntersection(csr, l, Pow2(n));
      if !csr.Overlaps(l) {
        ScanCacheMembers(caches[1..], l, c, n);
      } else {
        DeletedMeets(c, csr, n);
        var d := Deleted(c, csr);
        ScanCacheMembers(caches[1..], l, d, n);
        forall b ensures b in ScanCache(caches, l, c).1 <==> b in c && !Bridged(caches, l, b) {
          assert Intersects(b, csr) <==> Intersects(csr, b);
        }
      }
    }
  }

  /** Three blocks of one size that miss each other do not all meet a fourth. */
  lemma ThreeDoNotMeet(x: SimpleRange, a: SimpleRange, b: SimpleRange, l: SimpleRange, num: nat)
    requires 1 <= num && IsBlock(x, num) && IsBlock(a, num) && IsBlock(b, num) && IsBlock(l, num)
    requires Intersects(x, a) && Intersects(x, b) && Intersects(x, l)
    requires !Intersects(a, l) && !Intersects(b, l)
    ensures Intersects(a, b)
  {
  }

  lemma ProgressMeetsOne(l: SimpleRange, caches: seq<SimpleRange>, c: seq<SimpleRange>, done: set<SimpleRange>, n: nat)
    requires Tidy(caches, n) && IsBlock(l, Pow2(n)) && Progress(c, caches, done, n)
    requires forall k :: k in done ==> IsBlock(k, Pow2(n)) && !Intersects(k, l)
    ensures MeetOne(caches, l, c)
  {
    forall x, a, b | x in caches && Intersects(x, l) && a in c && b in c && Intersects(a, x) && Intersects(b, x)
      ensures a == b
    {
      if a != b {
        DisjointMembers(c, n, a, b);
        if a in done && b in done {
          ThreeDoNotMeet(x, a, b, l, Pow2(n));
        } else {
          var o := if a in done then b else a;
          if o != x { DisjointMembers(caches, n, o, x); }
        }
      }
    }
  }

  lemma CheckLeaseCache(l: SimpleRange, caches: seq<SimpleRange>, s: State, done: set<SimpleRange>, n: nat)
    requires Tidy(caches, n) && IsBlock(l, Pow2(n)) && Progress(s.cache, caches, done, n)
    requires l !in done && forall k :: k in done ==> !Intersects(k, l)
    ensures CheckLease(l, caches, s).cache == if l in caches then s.cache else ScanCache(caches, l, s.cache).1 + [l]
  {
    ScanCacheExactly(caches, l, s.cache, n);
    var (found, d) := ScanCache(caches, l, s.cache);
    if !found {
      forall i | 0 <= i < |d| ensures !Intersects(d[i], l) {
        assert d[i] in d;
        assert d[i] in s.cache;
      }
      AppendExactly(d, l, n);
    }
  }

  /** What one lease of the first loop does to the cache entries, exactly. */
  lemma CheckLeaseMembers(l: SimpleRange, caches: seq<SimpleRange>, s: State, done: set<SimpleRange>, n: nat)
    requires Tidy(caches, n) && IsBlock(l, Pow2(n)) && Progress(s.cache, caches, done, n)
    requires forall k :: k in done ==> k != l && IsBlock(k, Pow2(n)) && !Intersects(k, l)
    requires l in caches ==> l in s.cache
    ensures var t := CheckLease(l, caches, s).cache;
            && l in t
            && (forall b :: b in t && b != l ==> b in s.cache)
            && (forall b :: b in s.cache && b != l ==>
                  (b in t <==> l in caches || !Bridged(caches, l, b)))
            && (forall b :: b in done ==> l in caches ==> !Bridged(caches, l, b))
  {
    hide Bridged, MeetOne;
    CheckLeaseCache(l, caches, s, done, n);
    if l in caches {
      forall b | b in done ensures !Bridged(caches, l, b) {
        CachedLeaseIsAlone(caches, l, b, n);
      }
    } else {
      ProgressMeetsOne(l, caches, s.cache, done, n);
      ScanCacheMembers(caches, l, s.cache, n);
    }
  }

  lemma CachedLeaseIsAlone(caches: seq<SimpleRange>, l: SimpleRange, b: SimpleRange, n: nat)
    requires Tidy(caches, n) && l in caches && !Intersects(b, l)
    ensures !Bridged(caches, l, b)
  {
    if x :| x in caches && Intersects(x, l) && Intersects(x, b) {
      if x != l { DisjointMembers(caches, n, x, l); }
    }
  }

  /** No loaded block lies across two leases. */
  ghost predicate NoneAcross(caches: seq<SimpleRange>, own: seq<SimpleRange>) {
    forall l, m :: l in own && m in own && l != m ==> !Bridged(caches, l, m)
  }

  lemma BridgedSymmetric(caches: seq<SimpleRange>, l: SimpleRange, m: SimpleRange)
    ensures Bridged(caches, l, m) <==> Bridged(caches, m, l)
  {
  }

  lemma RestApart(own: seq<SimpleRange>, m: SimpleRange, n: nat)
    requires own != [] && Tidy(own, n) && m in own[1..]
    ensures m != own[0] && !Intersects(own[0], m) && m in own
  {
    var j :| 0 <= j < |own| - 1 && own[1..][j] == m;
    assert own[j + 1] == m && m in own;
  }

  /** The first loop before the leases `own`, with the leases `done` behind it. */
  ghost predicate Ready(own: seq<SimpleRange>, caches: seq<SimpleRange>, c: seq<SimpleRange>, done: set<SimpleRange>,
                      n: nat)
  {
    && Tidy(caches, n) && Tidy(own, n) && Progress(c, caches, done, n)
    && (forall k :: k in done ==> IsBlock(k, Pow2(n)))
    && (forall k, l :: k in done && l in own ==> k != l && !Intersects(k, l))
    && (forall l :: l in own && l in caches ==> l in c)
  }

  /** An earlier lease stays cached unless a loaded block lies across it and a later lease; all leases end up
      cached unless a loaded block lies across two of them. */
  ghost predicate Outcome(own: seq<SimpleRange>, caches: seq<SimpleRange>, c: seq<SimpleRange>, done: set<SimpleRange>,
                          t: seq<SimpleRange>)
  {
    && (forall b :: b in t ==> b in c || b in own)
    && (forall b :: b in done && b in c ==> (b in t <==> forall m :: m in own ==> !Bridged(caches, m, b)))
    && ((forall l :: l in own ==> l in t) <==> NoneAcross(caches, own))
  }

  lemma ReadyNext(own: seq<SimpleRange>, caches: seq<SimpleRange>, s: State, done: set<SimpleRange>, n: nat)
    requires own != [] && Ready(own, caches, s.cache, done, n)
    ensures Ready(own[1..], caches, CheckLease(own[0], caches, s).cache, done + {own[0]}, n)
  {
    hide Bridged, CheckLease, Progress;
    var l, rest := own[0], own[1..];
    assert l in own;
    CheckLeaseMembers(l, caches, s, done, n);
    CheckLeaseProgress(l, caches, s, done, n);
    forall m | m in rest ensures m in own && m != l && !Intersects(l, m) && (m in caches ==> !Bridged(caches, l, m)) {
      RestApart(own, m, n);
      if m in caches {
        CachedLeaseIsAlone(caches, m, l, n);
        BridgedSymmetric(caches, l, m);
      }
    }
  }

  lemma AcrossNext(own: seq<SimpleRange>, caches: seq<SimpleRange>, n: nat)
    requires own != [] && Tidy(own, n)
    ensures NoneAcross(caches, own) <==>
            NoneAcross(caches, own[1..]) && forall m :: m in own[1..] ==> !Bridged(caches, m, own[0])
  {
    hide Bridged;
    var l, rest := own[0], own[1..];
    assert l in own;
    forall m ensures m in own <==> m == l || m in rest {
    }
    forall m | m in rest ensures m != l && (Bridged(caches, l, m) <==> Bridged(caches, m, l)) {
      RestApart(own, m, n);
      BridgedSymmetric(caches, l, m);
    }
  }

  lemma OutcomeNext(own: seq<SimpleRange>, caches: seq<SimpleRange>, s: State, done: set<SimpleRange>, n: nat,
                    t: seq<SimpleRange>)
    requires own != [] && Ready(own, caches, s.cache, done, n)
    requires Outcome(own[1..], caches, CheckLease(own[0], caches, s).cache, done + {own[0]}, t)
    ensures Outcome(own, caches, s.cache, done, t)
  {
    hide Bridged, CheckLease, Progress, NoneAcross, PairwiseDisjoint;
    var l, rest := own[0], own[1..];
    assert l in own;
    CheckLeaseMembers(l, caches, s, done, n);
    AcrossNext(own, caches, n);
    forall m ensures m in own <==> m == l || m in rest {
    }
    forall b | b in done ensures Bridged(caches, l, b) <==> Bridged(caches, b, l) {
      BridgedSymmetric(caches, l, b);
    }
  }

  lemma {:induction false} CheckLeasesExactly(own: seq<SimpleRange>, caches: seq<SimpleRange>, s: State,
                      done: set<SimpleRange>, n: nat)
    requires Ready(own, caches, s.cache, done, n)
    ensures Outcome(own, caches, s.cache, done, CheckLeases(own, caches, s).cache)
    decreases own
  {
    if own != [] {
      hide Ready, Outcome, CheckLease;
      ReadyNext(own, caches, s, done, n);
      CheckLeasesExactly(own[1..], caches, CheckLease(own[0], caches, s), done + {own[0]}, n);
      OutcomeNext(own, caches, s, done, n, CheckLeases(own, caches, s).cache);
    }
  }

  /* ---------- the second loop ---------- */

  lemma CheckCachedExactly(csr: SimpleRange, own: seq<SimpleRange>, id: string, s: State, n: nat)
    requires Tidy(s.cache, n) && csr in s.cache
    ensures var t := CheckCached(csr, own, id, s);
            && Tidy(t.cache, n)
            && (forall b :: b in t.cache <==> b in s.cache && (b != csr || b in own || b !in s.leases))
            && (forall b :: b in t.leases <==> b in s.leases || (b == csr && b !in own))
            && (forall b :: b in t.leases ==> t.leases[b] == if b in s.leases then s.leases[b] else id)
            && (csr in own ==> t == s)
  {
    BlockIsSegment(csr, n);
    assert AnyMatches(csr, own) <==> csr in own by {
      if csr in own { var i :| 0 <= i < |own| && own[i] == csr; assert csr.Match(own[i]); }
    }
    DeletedMembers(s.cache, csr, n);
  }

  /** The blocks of the cache stay that are leased to the node or not leased at all, and the latter get a lease. */
  lemma {:induction false} CheckCacheExactly(caches: seq<SimpleRange>, own: seq<SimpleRange>, id: string, s: State,
                      n: nat)
    requires Tidy(s.cache, n) && Tidy(caches, n)
    requires forall b :: b in caches ==> b in s.cache
    ensures var t := CheckCache(caches, own, id, s);
            && Tidy(t.cache, n)
            && (forall b :: b in t.cache <==> b in s.cache && (b !in caches || b in own || b !in s.leases))
            && (forall b :: b in t.leases <==> b in s.leases || (b in caches && b !in own))
            && (forall b :: b in t.leases ==> t.leases[b] == if b in s.leases then s.leases[b] else id)
            && ((forall b :: b in caches ==> b in own) ==> t == s)
    decreases caches
  {
    hide CheckCached, Deleted, Pow2, AllBlocks, PairwiseDisjoint, Tidy, IsBlock;
    if caches != [] {
      var csr, rest := caches[0], caches[1..];
      assert csr in caches;
      assert forall b :: b in caches <==> b == csr || b in rest;
      assert Tidy(rest, n) && csr !in rest by {
        CutAt(caches, 0, n);
        assert caches[..0] + caches[1..] == rest;
      }
      CheckCachedExactly(csr, own, id, s, n);
      CheckCacheExactly(rest, own, id, CheckCached(csr, own, id, s), n);
    }
  }

  /* ---------- a lease that is given up ---------- */

  lemma {:induction false} FoundExactly(caches: seq<SimpleRange>, l: SimpleRange, c: seq<SimpleRange>)
    requires l.start <= l.end
    ensures ScanCache(caches, l, c).0 <==> l in caches
  {
    hide Deleted;
    if caches != [] {
      assert forall b :: b in caches <==> b == caches[0] || b in caches[1..];
      FoundExactly(caches[1..], l, if caches[0].Overlaps(l) then Deleted(c, caches[0]) else c);
    }
  }

  /** Whatever the cache holds, the first loop gives up a lease exactly if it is not among the loaded blocks and a
      block that overlaps it is still cached after the deletions. */
  lemma GivesUpExactly(l: SimpleRange, caches: seq<SimpleRange>, s: State)
    requires l.start <= l.end && l.Canonicalize() == l && l in s.leases
    ensures var t := CheckLease(l, caches, s);
            && (l !in t.leases <==> l !in caches && AnyOverlaps(ScanCache(caches, l, s.cache).1, l))
            && (forall b :: b in s.leases && b != l ==> b in t.leases && t.leases[b] == s.leases[b])
            && (forall b :: b in t.leases ==> b in s.leases)
            && (l in t.leases ==> t.leases[l] == s.leases[l])
  {
    hide ScanCache, AnyOverlaps, Canonicalized;
    FoundExactly(caches, l, s.cache);
  }

  /** It happens for a cached block inside another: deleting the outer one takes the inner one, and the lease that the
      outer one overlaps is lost. */
  lemma NestedBlockLosesLease(leases: Leases)
    ensures var inner, outer, l := SimpleRange(8, 9), SimpleRange(8, 15), SimpleRange(12, 19);
            l in leases ==> l !in CheckLease(l, [inner, outer], State([inner, outer], leases)).leases
  {
    var inner, outer, l := SimpleRange(8, 9), SimpleRange(8, 15), SimpleRange(12, 19);
    var c := [inner, outer];
    BlockIsSegment(l, 3);
    BlockIsSegment(outer, 3);
    assert RemoveFirst(c, outer) == [outer];
    assert Canonicalized([outer]) == [outer];
    assert c[1..] == [outer] && [outer][1..] == [];
    assert ScanCache([outer], l, c) == ScanCache([], l, [outer]) == (false, [outer]);
    assert ScanCache(c, l, c).1 == [outer] && [outer][0].Overlaps(l);
    assert l !in c;
    if l in leases {
      GivesUpExactly(l, c, State(c, leases));
    }
  }

  /* ---------- whole runs ---------- */

  lemma OwnListIsTidy(own: seq<SimpleRange>, s: State, id: string, n: nat)
    requires Sound(s, id, n) && ListsOwn(own, s.leases, id)
    ensures Tidy(own, n) && (set l | l in own) == OwnSet(s.leases, id)
  {
    forall i, j | 0 <= i < j < |own| ensures !Intersects(own[i], own[j]) {
      assert own[i] in own && own[j] in own;
      assert own[i] in OwnSet(s.leases, id) && own[j] in OwnSet(s.leases, id);
    }
    forall b | b in own ensures IsBlock(b, Pow2(n)) {
      assert b in OwnSet(s.leases, id);
    }
  }

  /** A run never takes or gives up a lease of the node or of another one, leases only blocks it has cached,
      and ends with a cache inside the node's leases. */
  lemma RunIsSound(own: seq<SimpleRange>, id: string, s: State, n: nat)
    requires Sound(s, id, n) && ListsOwn(own, s.leases, id)
    ensures var t := CheckNet(own, id, s);
            && Sound(t, id, n)
            && (forall b :: b in t.cache ==> b in OwnSet(t.leases, id))
            && (forall b :: b in s.leases ==> b in t.leases && t.leases[b] == s.leases[b])
            && (forall b :: b in t.leases && b !in s.leases ==> t.leases[b] == id && b in s.cache && b in t.cache)
  {
    OwnListIsTidy(own, s, id, n);
    assert Progress(s.cache, s.cache, {}, n);
    CheckLeasesProgress(own, s.cache, s, {}, n);
    var t := CheckLeases(own, s.cache, s);
    assert {} + (set l | l in own) == OwnSet(s.leases, id);
    CheckCacheExactly(t.cache, own, id, t, n);
    var u := CheckNet(own, id, s);
    forall b | b in OwnSet(u.leases, id)
      ensures IsBlock(b, Pow2(n)) && (b in OwnSet(s.leases, id) || (b in t.cache && b !in own))
    {
    }
    forall a, b | a in OwnSet(u.leases, id) && b in OwnSet(u.leases, id) && a != b ensures !Intersects(a, b) {
      NewOwnDisjoint(a, b, s, t.cache, id, n);
    }
  }

  lemma NewOwnDisjoint(a: SimpleRange, b: SimpleRange, s: State, c: seq<SimpleRange>, id: string, n: nat)
    requires Sound(s, id, n) && Progress(c, s.cache, OwnSet(s.leases, id), n) && a != b
    requires a in OwnSet(s.leases, id) || (a in c && a !in OwnSet(s.leases, id))
    requires b in OwnSet(s.leases, id) || (b in c && b !in OwnSet(s.leases, id))
    ensures !Intersects(a, b)
  {
    var o := OwnSet(s.leases, id);
    if a !in o && b !in o {
      DisjointMembers(c, n, a, b);
    } else if a !in o {
      assert !Intersects(a, b);
    } else if b !in o {
      assert !Intersects(b, a);
    }
  }

  /** One run reaches agreement exactly when no cached block meets two leases of the node: the check of the
      second lease would remove the block that the check of the first has just added. */
  lemma OneRunExactly(own: seq<SimpleRange>, id: string, s: State, n: nat)
    requires Sound(s, id, n) && ListsOwn(own, s.leases, id)
    ensures Agrees(CheckNet(own, id, s), id) <==> MeetsOneLease(s, id)
    ensures (forall b :: b in s.cache ==> b in OwnSet(s.leases, id)) ==> CheckNet(own, id, s).leases == s.leases
  {
    RunIsSound(own, id, s, n);
    OwnListIsTidy(own, s, id, n);
    CheckLeasesProgress(own, s.cache, s, {}, n);
    CheckLeasesExactly(own, s.cache, s, {}, n);
    hide Sound, CheckLeases;
    var t := CheckLeases(own, s.cache, s);
    CheckCacheExactly(t.cache, own, id, t, n);
    AcrossMeansTwo(own, s, id);
    var u := CheckNet(own, id, s);
    assert Agrees(u, id) <==> forall l :: l in own ==> l in t.cache by {
      AgreesWhenAllCached(own, id, s.leases, t.cache, u);
    }
    if forall b :: b in s.cache ==> b in OwnSet(s.leases, id) {
      assert u.leases == t.leases;
    }
  }

  /** After the second loop the cache agrees with the leases exactly when the first has cached all of them. */
  lemma AgreesWhenAllCached(own: seq<SimpleRange>, id: string, leases: Leases, c: seq<SimpleRange>, u: State)
    requires ListsOwn(own, leases, id)
    requires forall b :: b in u.cache <==> b in c && (b in own || b !in leases)
    requires forall b :: b in u.leases <==> b in leases || (b in c && b !in own)
    requires forall b :: b in u.leases ==> u.leases[b] == if b in leases then leases[b] else id
    ensures Agrees(u, id) <==> forall l :: l in own ==> l in c
  {
    if Agrees(u, id) {
      forall l | l in own ensures l in c {
        assert l in OwnSet(u.leases, id);
      }
    }
  }

  lemma AcrossMeansTwo(own: seq<SimpleRange>, s: State, id: string)
    requires ListsOwn(own, s.leases, id)
    ensures NoneAcross(s.cache, own) <==> MeetsOneLease(s, id)
  {
    forall l ensures l in own <==> l in OwnSet(s.leases, id) {
    }
    if MeetsOneLease(s, id) {
      forall l, m | l in own && m in own && l != m ensures !Bridged(s.cache, l, m) {
      }
    } else {
      var c, l, m :| c in s.cache && l in OwnSet(s.leases, id) && m in OwnSet(s.leases, id)
                     && Intersects(c, l) && Intersects(c, m) && l != m;
      assert Bridged(s.cache, l, m);
    }
  }

  /** From any sound state two runs make the cache equal to the node's leases, and the second changes no lease. */
  lemma TwoRunsConverge(own: seq<SimpleRange>, own': seq<SimpleRange>, id: string, s: State, n: nat)
    requires Sound(s, id, n) && ListsOwn(own, s.leases, id)
    requires ListsOwn(own', CheckNet(own, id, s).leases, id)
    ensures var t := CheckNet(own, id, s); var u := CheckNet(own', id, t);
            Agrees(u, id) && u.leases == t.leases
  {
    RunIsSound(own, id, s, n);
    var t := CheckNet(own, id, s);
    forall c, l, m | && c in t.cache && l in OwnSet(t.leases, id) && m in OwnSet(t.leases, id)
                     && Intersects(c, l) && Intersects(c, m)
      ensures l == m {
      assert c in OwnSet(t.leases, id) && c == l;
    }
    OneRunExactly(own', id, t, n);
  }

  /** A run that finds agreement writes nothing. */
  lemma FixedPointWritesNothing(own: seq<SimpleRange>, id: string, s: State, n: nat)
    requires Sound(s, id, n) && ListsOwn(own, s.leases, id) && Agrees(s, id)
    ensures CheckNet(own, id, s) == s
  {
    OwnListIsTidy(own, s, id, n);
    assert Progress(s.cache, s.cache, {}, n);
    forall b, l | b in s.cache && l in own && Intersects(b, l) ensures b == l {
      assert b in OwnSet(s.leases, id) && l in OwnSet(s.leases, id);
    }
    CheckLeasesAdds(own, s.cache, s, {}, n);
    CheckCacheExactly(s.cache, own, id, s, n);
  }

  /** What the write count of a run needs is agreement: a run makes no write exactly when it finds agreement. */
  lemma NoWriteMeansAgreement(own: seq<SimpleRange>, id: string, s: State, n: nat)
    requires Sound(s, id, n) && ListsOwn(own, s.leases, id)
    ensures Agrees(s, id) <==> (forall l :: l in own ==> l in s.cache) && (forall c :: c in s.cache ==> c in own)
    ensures Agrees(s, id) ==> forall l :: l in own ==> Calm(l, s.cache)
  {
    forall l ensures l in own <==> l in OwnSet(s.leases, id) {
    }
    if Agrees(s, id) {
      forall l, c | l in own && c in s.cache && c.Overlaps(l) ensures c == l {
        BlockOverlapIsIntersection(c, l, Pow2(n));
        if c != l { DisjointMembers(s.cache, n, c, l); }
      }
    }
  }

  lemma AcrossTwoLeases(a: SimpleRange, b: SimpleRange, c: SimpleRange, leases: Leases)
    requires a == SimpleRange(2, 5) && b == SimpleRange(6, 9) && c == SimpleRange(4, 7)
    ensures CheckLeases([a, b], [c], State([c], leases)) == State([b], leases)
  {
    assert Pow2(2) == 4;
    assert [c][1..] == [] && [a, b][1..] == [b] && [b][1..] == [];
    assert Deleted([c], c) == [] && Deleted([a], c) == [];
    AppendExactly([], a, 2);
    AppendExactly([], b, 2);
    assert [] + [a] == [a] && [] + [b] == [b];
    assert ScanCache([c], a, [c]) == ScanCache([], a, []) == (false, []);
    assert c.Overlaps(b) && !c.Match(b);
    assert ScanCache([c], b, [a]) == ScanCache([], b, []) == (false, []);
    assert CheckLease(a, [c], State([c], leases)) == State([a], leases);
    assert CheckLeases([a, b], [c], State([c], leases)) == CheckLeases([b], [c], State([a], leases));
    assert CheckLeases([b], [c], State([a], leases)) == State([b], leases);
  }

  /** One run is not enough in general: a cached block across two leases makes the second lease's check
      remove the block that the first one's has just added. */
  lemma OneRunMayNotSuffice(id: string)
    ensures var a, b, c := SimpleRange(2, 5), SimpleRange(6, 9), SimpleRange(4, 7);
            var s := State([c], map[a := id, b := id]);
            Sound(s, id, 2) && ListsOwn([a, b], s.leases, id) && CheckNet([a, b], id, s) == State([b], s.leases)
  {
    hide CheckLeases;
    var a, b, c := SimpleRange(2, 5), SimpleRange(6, 9), SimpleRange(4, 7);
    var s := State([c], map[a := id, b := id]);
    assert Pow2(2) == 4;
    assert OwnSet(s.leases, id) == {a, b};
    assert Sound(s, id, 2);
    AcrossTwoLeases(a, b, c, s.leases);
    assert AnyMatches(b, [a, b]) by { assert b.Match([a, b][1]); }
    assert CheckCached(b, [a, b], id, State([b], s.leases)) == State([b], s.leases);
    assert CheckCache([b], [a, b], id, State([b], s.leases)) == CheckCache([], [a, b], id, State([b], s.leases));
  }
}

/** The programs make the steps of the cluster: an allocation's try and the controller's purge. */
module ClusterLinks {
  import opened Words
  import opened Blocks
  import opened RangeSets
  import opened RangeIteration
  import opened DiskStore
  import opened Etcd
  import opened FirstFit
  import opened Allocator
  import opened Reconcile
  import opened Cluster
  import LeaseKeys
  import AllocationRuns
  import Allocation
  import Controller
  import FixInfo
  import Text

  /** A stretch of a history. */
  ghost predicate Leads(p: Net, run: seq<Cluster>, s: Cluster, t: Cluster) {
    && run != [] && run[0] == s && run[|run| - 1] == t
    && forall i :: 0 <= i < |run| - 1 ==> Step(p, run[i], run[i + 1])
  }

  /** The call works on the network of the cluster. */
  ghost predicate IsCallOn(p: Net, c: AllocationRuns.Call) {
    AllocationRuns.Usable(c.cfg) && c.cfg.ranges[0][0] == p.range && c.cfg.unit == p.unit
  }

  /** A try with a new block is four steps of the node: read, write, cache, Get. */
  lemma TryMakesSteps(p: Net, s: Cluster, c: AllocationRuns.Call, now: AllocationRuns.Stock, b: SimpleRange,
                      subIf: string) returns (run: seq<Cluster>, t: Cluster)
    requires IsCallOn(p, c) && c.node in s.live && s.live[c.node].pc.Idle?
    requires forall m :: m in s.live ==> !s.live[m].pc.Chosen?
    requires AllocationRuns.Takes(c, AllocationRuns.Stock(s.leases, s.live[c.node].cache), now, Some(b))
    ensures Leads(p, run, s, t)
    ensures t.leases == now.leases && t.live.Keys == s.live.Keys
    ensures forall m :: m in s.live && m != c.node ==> t.live[m] == s.live[m]
    ensures var nd, got := s.live[c.node],
                           GetOutcome(AllocationRuns.FreshSet(c.cfg, b), LastOf(s.live[c.node].last, 0),
                                      s.live[c.node].files, c.id, subIf);
            t.live[c.node] == nd.(cache := now.cache, files := FilesAfter(nd.files, got, c.id, subIf),
                                  last := LastAfter(nd.last, got, 0))
  {
    hide FreeRange, GetOutcome, Appended, IsListing, EffectiveStart, FilesAfter, LastAfter, Hangs;
    var n, nd := c.node, s.live[c.node];
    var listing :| IsListing(listing, s.leases) && Some(b) == FreeRange(listing, p.range, p.unit);
    var s1 := Update(s, n, nd.(pc := Chosen(b)));
    assert Next(p, s, ApplyRead(n, listing), s1);
    var s2 := Update(s1, n, nd.(pc := Written(b))).(leases := s.leases[b := n]);
    assert Next(p, s1, ApplyPut(n), s2);
    var s3 := Update(s2, n, nd.(cache := now.cache, pc := Fresh(b)));
    assert Next(p, s2, ApplyAppend(n), s3);
    t := FreshStep(p, s3, n, c.id, subIf);
    run := [s, s1, s2, s3, t];
  }

  lemma FreshStep(p: Net, s: Cluster, n: string, id: string, subIf: string) returns (t: Cluster)
    requires n in s.live && s.live[n].pc.Fresh? && s.live[n].pc.b.start <= s.live[n].pc.b.end
    ensures Step(p, s, t) && Iterable(FreshSet(p, s.live[n].pc.b))
    ensures var nd, rs := s.live[n], FreshSet(p, s.live[n].pc.b);
            var got := GetOutcome(rs, LastOf(nd.last, 0), nd.files, id, subIf);
            t == Update(s, n, nd.(files := FilesAfter(nd.files, got, id, subIf), last := LastAfter(nd.last, got, 0),
                                  pc := Idle))
  {
    hide GetOutcome, FilesAfter, LastAfter, Hangs;
    var rs := FreshSet(p, s.live[n].pc.b);
    Allocation.OneRange(rs[0], LastOf(s.live[n].last, 0), s.live[n].files, id, subIf);
    t := Update(s, n, AfterGet(rs, s.live[n], id, subIf).(pc := Idle));
    assert Next(p, s, GetFresh(n, id, subIf), t);
  }

  /** The registry holds exactly these leases below the directory of the network. */
  ghost predicate Stores(records: map<string, string>, dir: string, leases: Leases) {
    && (forall b :: b in leases ==> b.Canonicalize() == b && LeaseKeys.Encode(dir, b) in records
                                    && records[LeaseKeys.Encode(dir, b)] == leases[b])
    && (forall b: SimpleRange :: b.Canonicalize() == b && LeaseKeys.Encode(dir, b) in records ==> b in leases)
  }

  /** A node event leaves exactly the leases of the other nodes. */
  lemma EventPurgesExactly(records: map<string, string>, after: map<string, string>, dir: string, leases: Leases,
                           name: string)
    requires Stores(records, dir, leases) && Text.Trimmed(name, FixInfo.CUT)
    requires forall b :: b in leases ==> Text.Trimmed(leases[b], FixInfo.CUT)
    requires after == map k | k in records && !Controller.IsOwner(records[k], name) :: records[k]
    ensures Stores(after, dir, map b | b in leases && leases[b] != name :: leases[b])
  {
    hide LeaseKeys.Encode, SimpleRange.Canonicalize, Controller.IsOwner;
    forall b | b in leases
      ensures LeaseKeys.Encode(dir, b) in after <==> leases[b] != name
    {
      Controller.PlainOwner(leases[b], name);
    }
  }

  /** The purge of a dead node's leases, read by ListsOwn and deleted one by one, takes exactly these. */
  lemma {:induction false} PurgeMakesSteps(p: Net, s: Cluster, n: string, own: seq<SimpleRange>)
    returns (run: seq<Cluster>, t: Cluster)
    requires n in s.dead && s.purging == [] && ListsOwn(own, s.leases, n)
    ensures Leads(p, run, s, t)
    ensures t == s.(leases := map b | b in s.leases && s.leases[b] != n :: s.leases[b])
  {
    var u := s.(purging := own);
    assert Next(p, s, PurgeRead(n, own), u);
    var rest;
    rest, t := DeletesMakeSteps(p, u);
    run := [s] + rest;
    assert t.leases == map b | b in s.leases && s.leases[b] != n :: s.leases[b];
  }

  lemma {:induction false} DeletesMakeSteps(p: Net, s: Cluster)
    returns (run: seq<Cluster>, t: Cluster)
    ensures Leads(p, run, s, t)
    ensures t == s.(purging := [], leases := map b | b in s.leases && b !in s.purging :: s.leases[b])
    decreases |s.purging|
  {
    if s.purging == [] {
      run, t := [s], s;
      assert s.leases == map b | b in s.leases && b !in s.purging :: s.leases[b];
    } else {
      var u := s.(leases := s.leases - {s.purging[0]}, purging := s.purging[1..]);
      assert Next(p, s, PurgeDelete, u);
      var rest;
      rest, t := DeletesMakeSteps(p, u);
      run := [s] + rest;
      assert forall b :: b in s.purging <==> b == s.purging[0] || b in s.purging[1..];
    }
  }

  /* ---------- reconciliation ---------- */

  lemma OneStepMore(p: Net, s: Cluster, u: Cluster, run: seq<Cluster>, t: Cluster)
    requires Step(p, s, u) && Leads(p, run, u, t)
    ensures Leads(p, [s] + run, s, t)
  {
    hide Step;
  }

  lemma Joined(p: Net, a: seq<Cluster>, b: seq<Cluster>, s: Cluster, u: Cluster, t: Cluster)
    returns (run: seq<Cluster>)
    requires Leads(p, a, s, u) && Leads(p, b, u, t)
    ensures Leads(p, run, s, t)
  {
    hide Step;
    run := a + b[1..];
    forall i | 0 <= i < |run| - 1 ensures Step(p, run[i], run[i + 1]) {
      if |a| <= i + 1 {
        assert run[i + 1] == b[i + 2 - |a|] && run[i] == b[i + 1 - |a|];
      }
    }
  }

  /** The cluster after a node's share of a reconciliation. */
  function Reconciled(s: Cluster, n: string, u: State, pc: Pc): Cluster
    requires n in s.live
  {
    Update(s, n, s.live[n].(cache := u.cache, pc := pc)).(leases := u.leases)
  }

  lemma {:induction false} FirstLoopMakesSteps(p: Net, s: Cluster, n: string, own: seq<SimpleRange>, i: nat,
                                               caches: seq<SimpleRange>) returns (run: seq<Cluster>)
    requires n in s.live && s.live[n].pc == Checking(own, i, caches) && i <= |own|
    ensures Leads(p, run, s, Reconciled(s, n, CheckLeases(own[i..], caches, State(s.live[n].cache, s.leases)),
                                        Checking(own, |own|, caches)))
    decreases |own| - i
  {
    hide CheckLease;
    if i == |own| {
      run := [s];
      assert own[i..] == [];
      assert s.live == s.live[n := s.live[n]];
    } else {
      var v := CheckLease(own[i], caches, State(s.live[n].cache, s.leases));
      var u := Reconciled(s, n, v, Checking(own, i + 1, caches));
      assert Next(p, s, CheckLeaseOf(n), u);
      var rest := FirstLoopMakesSteps(p, u, n, own, i + 1, caches);
      run := [s] + rest;
      assert own[i..][0] == own[i] && own[i..][1..] == own[i + 1..];
      OneStepMore(p, s, u, rest, rest[|rest| - 1]);
      var w := CheckLeases(own[i + 1..], caches, v);
      assert Reconciled(u, n, w, Checking(own, |own|, caches)) == Reconciled(s, n, w, Checking(own, |own|, caches)) by {
        assert u.live[n := u.live[n].(cache := w.cache, pc := Checking(own, |own|, caches))] ==
               s.live[n := s.live[n].(cache := w.cache, pc := Checking(own, |own|, caches))];
      }
    }
  }

  lemma CompareMakesSteps(p: Net, s: Cluster, n: string, own: seq<SimpleRange>, caches: seq<SimpleRange>, j: nat)
    returns (run: seq<Cluster>)
    requires n in s.live && s.live[n].pc == Comparing(own, caches, j) && j < |caches|
    ensures Leads(p, run, s, Reconciled(s, n, CheckCached(caches[j], own, n, State(s.live[n].cache, s.leases)),
                                        Comparing(own, caches, j + 1)))
  {
    hide AnyMatches, Deleted, SimpleRange.Canonicalize;
    var nd, csr := s.live[n], caches[j];
    var t := Reconciled(s, n, CheckCached(csr, own, n, State(nd.cache, s.leases)), Comparing(own, caches, j + 1));
    var u := Update(s, n, Compared(nd, s.leases));
    assert Next(p, s, Compare(n), u);
    if AnyMatches(csr, own) || csr.Canonicalize() in s.leases {
      assert t == u;
      run := [s, u];
    } else {
      assert t.live == u.live[n := nd.(pc := Comparing(own, caches, j + 1))];
      assert Next(p, u, ComparePut(n), t);
      run := [s, u, t];
    }
  }

  lemma {:induction false} SecondLoopMakesSteps(p: Net, s: Cluster, n: string, own: seq<SimpleRange>,
                                                caches: seq<SimpleRange>, j: nat) returns (run: seq<Cluster>)
    requires n in s.live && s.live[n].pc == Comparing(own, caches, j) && j <= |caches|
    ensures Leads(p, run, s, Reconciled(s, n, CheckCache(caches[j..], own, n, State(s.live[n].cache, s.leases)),
                                        Comparing(own, caches, |caches|)))
    decreases |caches| - j
  {
    hide CheckCached, Leads;
    var nd := s.live[n];
    if j == |caches| {
      run := [s];
      assert caches[j..] == [];
      assert s.live == s.live[n := nd];
      StandingStill(p, s);
    } else {
      var v := CheckCached(caches[j], own, n, State(nd.cache, s.leases));
      var u := Reconciled(s, n, v, Comparing(own, caches, j + 1));
      var first := CompareMakesSteps(p, s, n, own, caches, j);
      var rest := SecondLoopMakesSteps(p, u, n, own, caches, j + 1);
      assert caches[j..][0] == caches[j] && caches[j..][1..] == caches[j + 1..];
      var w, pc := CheckCache(caches[j + 1..], own, n, v), Comparing(own, caches, |caches|);
      run := Joined(p, first, rest, s, u, Reconciled(u, n, w, pc));
      assert Reconciled(u, n, w, pc) == Reconciled(s, n, w, pc) by {
        assert u.live[n := u.live[n].(cache := w.cache, pc := pc)] == s.live[n := nd.(cache := w.cache, pc := pc)];
      }
    }
  }

  lemma StandingStill(p: Net, s: Cluster)
    ensures Leads(p, [s], s, s)
  {
  }

  lemma ReconciledTwice(s: Cluster, n: string, u: State, pc: Pc, v: State, pc': Pc)
    requires n in s.live
    ensures Reconciled(Reconciled(s, n, u, pc), n, v, pc') == Reconciled(s, n, v, pc')
  {
    var nd := s.live[n];
    assert s.live[n := nd.(cache := u.cache, pc := pc)][n := nd.(cache := v.cache, pc := pc')]
        == s.live[n := nd.(cache := v.cache, pc := pc')];
  }

  lemma StartStep(p: Net, s: Cluster, n: string, own: seq<SimpleRange>)
    requires n in s.live && s.live[n].pc.Idle? && ListsOwn(own, s.leases, n)
    ensures var nd := s.live[n]; Step(p, s, Reconciled(s, n, State(nd.cache, s.leases), Checking(own, 0, nd.cache)))
  {
    hide ListsOwn;
    var nd := s.live[n];
    assert Next(p, s, CheckStart(n, own), Reconciled(s, n, State(nd.cache, s.leases), Checking(own, 0, nd.cache)));
  }

  lemma ReloadStep(p: Net, s: Cluster, n: string, own: seq<SimpleRange>, v: State, caches: seq<SimpleRange>)
    requires n in s.live
    ensures Step(p, Reconciled(s, n, v, Checking(own, |own|, caches)), Reconciled(s, n, v, Comparing(own, v.cache, 0)))
  {
    var t := Reconciled(s, n, v, Checking(own, |own|, caches));
    ReconciledTwice(s, n, v, t.live[n].pc, v, Comparing(own, v.cache, 0));
    assert Next(p, t, CheckReload(n), Reconciled(s, n, v, Comparing(own, v.cache, 0)));
  }

  lemma EndStep(p: Net, s: Cluster, n: string, w: State, pc: Pc)
    requires n in s.live
    ensures Step(p, Reconciled(s, n, w, pc), Reconciled(s, n, w, Idle))
  {
    ReconciledTwice(s, n, w, pc, w, Idle);
    assert Next(p, Reconciled(s, n, w, pc), Abort(n), Reconciled(s, n, w, Idle));
  }

  lemma OneStep(p: Net, s: Cluster, t: Cluster) returns (run: seq<Cluster>)
    requires Step(p, s, t)
    ensures Leads(p, run, s, t)
  {
    hide Step;
    run := [s, t];
  }

  /** A whole run of ipamCheckNet is steps of its node: both loops, one lease and one cached block at a time. */
  lemma CheckMakesSteps(p: Net, s: Cluster, n: string, own: seq<SimpleRange>) returns (run: seq<Cluster>)
    requires n in s.live && s.live[n].pc.Idle? && ListsOwn(own, s.leases, n)
    ensures Leads(p, run, s, Reconciled(s, n, CheckNet(own, n, State(s.live[n].cache, s.leases)), Idle))
  {
    hide CheckLeases, CheckCache, Leads, Step, ListsOwn;
    var nd, st := s.live[n], State(s.live[n].cache, s.leases);
    var v := CheckLeases(own, nd.cache, st);
    var w := CheckCache(v.cache, own, n, v);
    var s1 := Reconciled(s, n, st, Checking(own, 0, nd.cache));
    var s3 := Reconciled(s, n, v, Comparing(own, v.cache, 0));
    assert own[0..] == own && v.cache[0..] == v.cache;
    var a := FirstLoopMakesSteps(p, s1, n, own, 0, nd.cache);
    ReconciledTwice(s, n, st, Checking(own, 0, nd.cache), v, Checking(own, |own|, nd.cache));
    var b := SecondLoopMakesSteps(p, s3, n, own, v.cache, 0);
    ReconciledTwice(s, n, v, Comparing(own, v.cache, 0), w, Comparing(own, v.cache, |v.cache|));
    hide Reconciled;
    StartStep(p, s, n, own);
    ReloadStep(p, s, n, own, v, nd.cache);
    EndStep(p, s, n, w, Comparing(own, v.cache, |v.cache|));
    var s2 := Reconciled(s, n, v, Checking(own, |own|, nd.cache));
    var s4 := Reconciled(s, n, w, Comparing(own, v.cache, |v.cache|));
    run := OneStep(p, s, s1);
    run := Joined(p, run, a, s, s1, s2);
    var middle := OneStep(p, s2, s3);
    run := Joined(p, run, middle, s, s2, s3);
    run := Joined(p, run, b, s, s3, s4);
    var back := OneStep(p, s4, Reconciled(s, n, w, Idle));
    run := Joined(p, run, back, s, s4, Reconciled(s, n, w, Idle));
  }
}

/** The delayed collection of fixed addresses whose pod is gone. */
module Controller {
  import FixInfo
  import Text

  /** Nanoseconds. */
  type Time = int

  const DEL_WAIT_TIME: Time := 24 * 3600 * 1_000_000_000

  datatype KeyValue = KeyValue(key: string, value: string)

  /** One check: the records it read, for the i-th of them whether a pod lookup failed, and when. */
  datatype Check = Check(kvs: seq<KeyValue>, fails: (nat, string, string) -> bool, clock: seq<Time>) {

    ghost predicate Valid() {
      && |clock| == |kvs|
      && forall i, j :: 0 <= i < j < |kvs| ==> kvs[i].key != kvs[j].key
    }

    /** The lookup of the pod that the i-th record names failed. */
    predicate Fails(i: nat)
      requires i < |kvs|
    {
      var (ns, name) := FixInfo.Parse(kvs[i].value);
      fails(i, ns, name)
    }

    ghost predicate Lost(k: string) {
      exists i :: 0 <= i < |kvs| && kvs[i].key == k && Fails(i)
    }

    ghost function TimeOf(k: string): Time
      requires Valid() && Lost(k)
    {
      var i :| 0 <= i < |kvs| && kvs[i].key == k && Fails(i);
      clock[i]
    }

    ghost predicate LostBefore(n: nat, k: string)
      requires n <= |kvs|
    {
      exists i :: 0 <= i < n && kvs[i].key == k && Fails(i)
    }

    /** What the n-th record adds: its key is new to the check. */
    lemma NextRecord(n: nat)
      requires Valid() && n < |kvs|
      ensures !LostBefore(n, kvs[n].key)
      ensures Fails(n) ==> Lost(kvs[n].key) && TimeOf(kvs[n].key) == clock[n]
      ensures forall k :: LostBefore(n + 1, k) <==> LostBefore(n, k) || (kvs[n].key == k && Fails(n))
    {
      hide FixInfo.Parse;
    }
  }

  ghost predicate Expired(waiting: map<string, Time>, c: Check, k: string)
    requires c.Valid()
  {
    c.Lost(k) && k in waiting && c.TimeOf(k) - waiting[k] > DEL_WAIT_TIME
  }

  /** The table of waiting keys after a check. */
  ghost predicate IsWaitingAfter(waiting: map<string, Time>, c: Check, t: map<string, Time>)
    requires c.Valid()
  {
    && (forall k :: k in t <==> c.Lost(k) && !Expired(waiting, c, k))
    && (forall k :: k in t ==> t[k] == if k in waiting then waiting[k] else c.TimeOf(k))
  }

  function WithoutKeys<V>(m: map<string, V>, keys: seq<string>): map<string, V> {
    map k | k in m && k !in keys :: m[k]
  }

  lemma WithoutNext<V>(m: map<string, V>, keys: seq<string>, i: nat)
    requires i < |keys|
    ensures WithoutKeys(m, keys[..i + 1]) == WithoutKeys(m, keys[..i]) - {keys[i]}
    ensures WithoutKeys(m, keys[..0]) == m && WithoutKeys(m, keys[..|keys|]) == WithoutKeys(m, keys)
  {
    assert keys[..i + 1] == keys[..i] + [keys[i]];
    assert keys[..|keys|] == keys;
  }

  /** The waiting keys that the pruning loop has not dropped while `todo` is still to be looked at. */
  ghost function Pruned(full: map<string, Time>, todo: set<string>, tmp: map<string, Time>): map<string, Time> {
    map k | k in full && (k in todo || k in tmp) :: full[k]
  }

  lemma PrunedNext(full: map<string, Time>, todo: set<string>, tmp: map<string, Time>, k: string)
    requires k in todo
    ensures Pruned(full, todo - {k}, tmp) == if k in tmp then Pruned(full, todo, tmp) else Pruned(full, todo, tmp) - {k}
  {
  }

  /** The loop over the records after the first `n`: what was seen lost, what waits, what is to go. */
  ghost predicate Processed(was: map<string, Time>, c: Check, n: nat, tmp: map<string, Time>, waiting: map<string,
                      Time>, del: seq<string>)
    requires c.Valid() && n <= |c.kvs|
  {
    && (forall k :: k in tmp <==> c.LostBefore(n, k))
    && (forall k :: k in waiting <==> k in was || c.LostBefore(n, k))
    && (forall k :: k in waiting ==> if k in was then waiting[k] == was[k] else c.Lost(k) && waiting[k] == c.TimeOf(k))
    && (forall k :: k in del <==> c.LostBefore(n, k) && Expired(was, c, k))
  }

  lemma NoneProcessed(was: map<string, Time>, c: Check)
    requires c.Valid()
    ensures Processed(was, c, 0, map[], was, [])
  {
  }

  lemma ProcessedNext(was: map<string, Time>, c: Check, n: nat, tmp: map<string, Time>, waiting: map<string, Time>,
                      del: seq<string>)
    requires c.Valid() && n < |c.kvs| && Processed(was, c, n, tmp, waiting, del)
    ensures var key, now := c.kvs[n].key, c.clock[n];
            if c.Fails(n) then
              Processed(was, c, n + 1, tmp[key := now],
                        if key in waiting then waiting else waiting[key := now],
                        if key in waiting && now - waiting[key] > DEL_WAIT_TIME then del + [key] else del)
            else Processed(was, c, n + 1, tmp, waiting, del)
  {
    hide FixInfo.Parse, Check.LostBefore, Check.Lost, Check.TimeOf, Check.Fails;
    c.NextRecord(n);
  }

  lemma AllProcessed(was: map<string, Time>, c: Check, tmp: map<string, Time>, waiting: map<string, Time>,
                     del: seq<string>)
    requires c.Valid() && Processed(was, c, |c.kvs|, tmp, waiting, del)
    ensures forall k :: k in del <==> Expired(was, c, k)
    ensures IsWaitingAfter(was, c, WithoutKeys(Pruned(waiting, {}, tmp), del[..|del|]))
  {
    hide FixInfo.Parse, Check.Fails;
    assert forall k :: c.LostBefore(|c.kvs|, k) <==> c.Lost(k);
    assert del[..|del|] == del;
  }

  ghost function Remaining(records: map<string, string>, waiting: map<string, Time>, c: Check): map<string, string>
    requires c.Valid()
  {
    map k | k in records && !Expired(waiting, c, k) :: records[k]
  }

  lemma Collected(was: map<string, Time>, c: Check, records: map<string, string>, del: seq<string>)
    requires c.Valid() && forall k :: k in del <==> Expired(was, c, k)
    ensures WithoutKeys(records, del) == Remaining(records, was, c)
    ensures |del| == 0 ==> records == Remaining(records, was, c)
  {
    hide Expired;
  }

  /** The keys of etcd below the root: leases, fixed addresses, tunnel records. */
  class Registry {
    var records: map<string, string>

    /** TransDelKeys */
    method Delete(keys: seq<string>)
      modifies this
      ensures records == WithoutKeys(old(records), keys)
    {
      for i := 0 to |keys|
        invariant records == WithoutKeys(old(records), keys[..i])
      {
        WithoutNext(old(records), keys, i);
        records := records - {keys[i]};
      }
      assert keys[..|keys|] == keys;
    }
  }

  predicate IsOwner(value: string, name: string) {
    Text.Trim(value, FixInfo.CUT) == Text.Trim(name, FixInfo.CUT)
  }

  /** A value names the node exactly if it is the name, whatever blanks surround either. */
  lemma IsOwnerExactly(front: string, value: string, back: string, front': string, name: string, back': string)
    requires Text.AllIn(front + back + front' + back', FixInfo.CUT)
    requires Text.Trimmed(value, FixInfo.CUT) && Text.Trimmed(name, FixInfo.CUT)
    ensures IsOwner(front + value + back, front' + name + back') <==> value == name
  {
    var all := front + back + front' + back';
    assert forall c :: c in front || c in back || c in front' || c in back' ==> c in all;
    Text.TrimPadded(front, value, back, FixInfo.CUT);
    Text.TrimPadded(front', name, back', FixInfo.CUT);
  }

  lemma PlainOwner(value: string, name: string)
    ensures Text.Trimmed(value, FixInfo.CUT) && Text.Trimmed(name, FixInfo.CUT) ==>
              (IsOwner(value, name) <==> value == name)
  {
    if Text.Trimmed(value, FixInfo.CUT) && Text.Trimmed(name, FixInfo.CUT) {
      IsOwnerExactly("", value, "", "", name, "");
      assert "" + value + "" == value && "" + name + "" == name;
    }
  }

  class KubeManager {
    var waitDelFixIPs: map<string, Time>

    constructor ()
      ensures waitDelFixIPs == map[]
    {
      waitDelFixIPs := map[];
    }

    /** handleNodeDelEvent: the keys whose value is the node's name go, and no others. */
    method HandleNodeDelEvent(em: Registry, name: string)
      modifies em
      ensures em.records == map k | k in old(em.records) && !IsOwner(old(em.records)[k], name) :: old(em.records)[k]
      ensures Text.Trimmed(name, FixInfo.CUT) ==>
                forall k :: k in old(em.records) && Text.Trimmed(old(em.records)[k], FixInfo.CUT) ==>
                              (k in em.records <==> old(em.records)[k] != name)
    {
      forall v { PlainOwner(v, name); }
      hide IsOwner;
      var kvs := em.records;
      var delList: seq<string> := [];
      var keys := kvs.Keys;
      while keys != {}
        invariant keys <= kvs.Keys && em.records == kvs
        invariant forall k :: k in delList <==> k in kvs && k !in keys && IsOwner(kvs[k], name)
        decreases |keys|
      {
        var k :| k in keys;
        keys := keys - {k};
        if IsOwner(kvs[k], name) {
          delList := delList + [k];
        }
      }
      if |delList| > 0 {
        em.Delete(delList);
      }
    }

    /** CheckFixIP, for the records `c` that the read returned. */
    method CheckFixIP(em: Registry, c: Check)
      requires c.Valid()
      modifies this, em
      ensures IsWaitingAfter(old(waitDelFixIPs), c, waitDelFixIPs)
      ensures em.records == Remaining(old(em.records), old(waitDelFixIPs), c)
    {
      hide IsWaitingAfter, Expired, Remaining, FixInfo.Parse, Check.Fails, Processed;
      ghost var was := waitDelFixIPs;
      var delList: seq<string> := [];
      var tmpMap: map<string, Time> := map[];
      NoneProcessed(was, c);
      for i := 0 to |c.kvs|
        invariant em.records == old(em.records)
        invariant Processed(was, c, i, tmpMap, waitDelFixIPs, delList)
      {
        var key := c.kvs[i].key;
        ProcessedNext(was, c, i, tmpMap, waitDelFixIPs, delList);
        if c.Fails(i) {
          tmpMap := tmpMap[key := c.clock[i]];
          if key in waitDelFixIPs {
            if c.clock[i] - waitDelFixIPs[key] > DEL_WAIT_TIME {
              delList := delList + [key];
            }
          } else {
            waitDelFixIPs := waitDelFixIPs[key := c.clock[i]];
          }
        }
      }
      var keys := waitDelFixIPs.Keys;
      ghost var full := waitDelFixIPs;
      assert Pruned(full, keys, tmpMap) == full;
      while keys != {}
        invariant em.records == old(em.records)
        invariant waitDelFixIPs == Pruned(full, keys, tmpMap)
        decreases |keys|
      {
        hide Pruned;
        var k :| k in keys;
        PrunedNext(full, keys, tmpMap, k);
        keys := keys - {k};
        if k in tmpMap {
          continue;
        }
        waitDelFixIPs := waitDelFixIPs - {k};
      }
      ghost var kept := waitDelFixIPs;
      for i := 0 to |delList|
        invariant em.records == old(em.records)
        invariant waitDelFixIPs == WithoutKeys(kept, delList[..i])
      {
        hide WithoutKeys, Pruned;
        WithoutNext(kept, delList, i);
        waitDelFixIPs := waitDelFixIPs - {delList[i]};
      }
      AllProcessed(was, c, tmpMap, full, delList);
      if |delList| > 0 {
        em.Delete(delList);
      }
      Collected(was, c, old(em.records), delList);
    }
  }

  /* ---------- every sequence of checks ---------- */

  /** The waiting tables before, between and after a sequence of checks. */
  datatype Trace = Trace(checks: seq<Check>, tables: seq<map<string, Time>>) {

    ghost predicate Valid() {
      && |tables| == |checks| + 1 && tables[0] == map[]
      && forall m :: 0 <= m < |checks| ==> checks[m].Valid() && IsWaitingAfter(tables[m], checks[m], tables[m + 1])
    }

    ghost predicate Lost(m: nat, k: string)
      requires m < |checks|
    {
      checks[m].Lost(k)
    }

    ghost function TimeOf(m: nat, k: string): Time
      requires Valid() && m < |checks| && Lost(m, k)
    {
      checks[m].TimeOf(k)
    }

    /** The m-th check deletes the record. */
    ghost predicate Deletes(m: nat, k: string)
      requires Valid() && m < |checks|
    {
      Expired(tables[m], checks[m], k)
    }

    ghost predicate LostThroughout(s: nat, m: nat, k: string)
      requires s <= m < |checks|
    {
      forall j :: s <= j <= m ==> Lost(j, k)
    }

    /** The failed lookups that end at check m began at check s: before s the lookup succeeded, or the record was
        absent or deleted. */
    ghost predicate RunStart(s: nat, m: nat, k: string)
      requires Valid() && s <= m < |checks|
    {
      && LostThroughout(s, m, k)
      && (s == 0 || !Lost(s - 1, k) || Deletes(s - 1, k))
      && forall j :: s <= j < m ==> !Deletes(j, k)
    }

    lemma Step(m: nat, k: string)
      requires Valid() && m < |checks|
      ensures k in tables[m + 1] <==> Lost(m, k) && !Deletes(m, k)
      ensures k in tables[m + 1] ==> tables[m + 1][k] == if k in tables[m] then tables[m][k] else TimeOf(m, k)
    {
    }

    /** A stored time is the first check of the current run. */
    lemma {:induction false} StoredIsRunStart(m: nat, k: string) returns (s: nat)
      requires Valid() && m < |checks| && k in tables[m + 1]
      ensures s <= m && RunStart(s, m, k) && tables[m + 1][k] == TimeOf(s, k)
    {
      hide Check.Lost, Check.TimeOf, Expired, IsWaitingAfter;
      Step(m, k);
      if m > 0 && k in tables[m] {
        s := StoredIsRunStart(m - 1, k);
        Step(m - 1, k);
      } else {
        s := m;
        if m > 0 {
          Step(m - 1, k);
        }
      }
    }

    lemma {:induction false} RunStartIsUnique(s: nat, s': nat, m: nat, k: string)
      requires Valid() && s <= s' <= m < |checks| && RunStart(s, m, k) && RunStart(s', m, k)
      ensures s == s'
    {
      hide Check.Lost, Expired;
    }

    lemma DeletedRunIsLong(m: nat, k: string) returns (s: nat)
      requires Valid() && m < |checks| && Deletes(m, k)
      ensures s < m && RunStart(s, m, k) && TimeOf(m, k) - TimeOf(s, k) > DEL_WAIT_TIME
    {
      hide IsWaitingAfter, Check.Lost, Check.TimeOf;
      assert m > 0;
      Step(m - 1, k);
      s := StoredIsRunStart(m - 1, k);
    }

    lemma LongRunIsDeleted(s: nat, m: nat, k: string)
      requires Valid() && s < m < |checks| && RunStart(s, m, k)
      requires TimeOf(m, k) - TimeOf(s, k) > DEL_WAIT_TIME
      ensures Deletes(m, k)
    {
      hide IsWaitingAfter, Check.Lost, Check.TimeOf;
      assert Lost(m, k) && Lost(m - 1, k) && !Deletes(m - 1, k);
      Step(m - 1, k);
      var s' := StoredIsRunStart(m - 1, k);
      assert RunStart(s, m - 1, k);
      RunStartIsUnique(if s < s' then s else s', if s < s' then s' else s, m - 1, k);
    }

    /** A check deletes a record exactly when the lookups have failed without a break for longer than the wait. */
    lemma DeletesExactly(m: nat, k: string)
      requires Valid() && m < |checks|
      ensures Deletes(m, k) <==>
              exists s :: 0 <= s <= m && RunStart(s, m, k) && TimeOf(m, k) - TimeOf(s, k) > DEL_WAIT_TIME
    {
      hide IsWaitingAfter, Check.Lost, Check.TimeOf, Expired;
      if Deletes(m, k) {
        var s := DeletedRunIsLong(m, k);
      }
      if s :| 0 <= s <= m && RunStart(s, m, k) && TimeOf(m, k) - TimeOf(s, k) > DEL_WAIT_TIME {
        LongRunIsDeleted(s, m, k);
      }
    }

    /** Safe: no record goes unless every lookup of a span longer than the wait failed. */
    lemma NeverTooEarly(m: nat, k: string)
      requires Valid() && m < |checks| && Deletes(m, k)
      ensures exists s :: 0 <= s < m && LostThroughout(s, m, k)
                          && TimeOf(m, k) - TimeOf(s, k) > 24 * 3600 * 1_000_000_000
    {
      DeletesExactly(m, k);
      var s :| 0 <= s <= m && RunStart(s, m, k) && TimeOf(m, k) - TimeOf(s, k) > DEL_WAIT_TIME;
      assert LostThroughout(s, m, k);
    }

    lemma {:induction false} FindRunStart(m: nat, k: string) returns (s: nat)
      requires Valid() && m < |checks| && Lost(m, k)
      ensures s <= m && RunStart(s, m, k)
    {
      hide Check.Lost, Expired;
      if m > 0 && Lost(m - 1, k) && !Deletes(m - 1, k) {
        s := FindRunStart(m - 1, k);
      } else {
        s := m;
      }
    }

    /** Live: under a clock that does not run backwards, failed lookups over a longer span than the wait end in a
        deletion. */
    lemma EventuallyDeletes(s: nat, m: nat, k: string)
      requires Valid() && s <= m < |checks| && LostThroughout(s, m, k)
      requires forall i, j :: 0 <= i <= j <= m && Lost(i, k) && Lost(j, k) ==> TimeOf(i, k) <= TimeOf(j, k)
      requires TimeOf(m, k) - TimeOf(s, k) > 24 * 3600 * 1_000_000_000
      ensures exists j :: s <= j <= m && Deletes(j, k)
    {
      hide Check.Lost, Check.TimeOf, Expired, IsWaitingAfter;
      assert Lost(m, k);
      var r := FindRunStart(m, k);
      if r <= s {
        assert Lost(r, k) && Lost(s, k);
        DeletesExactly(m, k);
      } else {
        assert Lost(r - 1, k);
      }
    }
  }

  /** A record of a pod with a clean name stays while that pod's lookup succeeds. */
  lemma LivePodKeepsItsAddress(waiting: map<string, Time>, c: Check, i: nat, ns: string, pod: string, n: nat)
    requires c.Valid() && i < |c.kvs| && c.kvs[i].value == FixInfo.Generate(ns, pod, n)
    requires FixInfo.CleanNamespace(ns) && '/' !in pod
    requires !c.fails(i, ns, pod)
    ensures !Expired(waiting, c, c.kvs[i].key)
  {
    FixInfo.ParseGenerateExactly(ns, pod, n);
    hide FixInfo.Parse;
  }
}

/** The lease directory of one network in etcd: every lease key with the node that owns it. */
module Etcd {
  import opened Blocks

  /** A lease is named by the range its key decodes to; `LeaseKeys.EncodeInjective` says that this loses nothing. */
  type Leases = map<SimpleRange, string>

  /** A prefix read sorted by key: each lease once, in address order. */
  ghost predicate IsListing(s: seq<SimpleRange>, leases: Leases) {
    && (forall b :: b in s <==> b in leases)
    && (forall i, j :: 0 <= i < j < |s| ==> s[i] != s[j] && s[i].start <= s[j].start)
  }

  class LeaseDir {
    var leases: Leases

    constructor ()
      ensures leases == map[]
    {
      leases := map[];
    }

    method Lowest(s: set<SimpleRange>) returns (m: SimpleRange)
      requires s != {}
      ensures m in s && forall b :: b in s ==> m.start <= b.start
    {
      m :| m in s;
      var rest := s - {m};
      while rest != {}
        invariant m in s && rest <= s
        invariant forall b :: b in s && b !in rest ==> m.start <= b.start
        decreases |rest|
      {
        var b :| b in rest;
        rest := rest - {b};
        if b.start < m.start {
          m := b;
        }
      }
    }

    /** Get with prefix and ascending key order. */
    method List() returns (s: seq<SimpleRange>)
      ensures IsListing(s, leases)
    {
      s := [];
      var rest := leases.Keys;
      while rest != {}
        invariant rest <= leases.Keys
        invariant forall b :: b in s <==> b in leases && b !in rest
        invariant forall i, j :: 0 <= i < j < |s| ==> s[i] != s[j] && s[i].start <= s[j].start
        invariant forall i, b :: 0 <= i < |s| && b in rest ==> s[i].start <= b.start
        decreases |rest|
      {
        var b := Lowest(rest);
        rest := rest - {b};
        s := s + [b];
      }
    }

    method Put(sr: SimpleRange, id: string)
      modifies this
      ensures leases == old(leases)[sr.Canonicalize() := id]
    {
      leases := leases[sr.Canonicalize() := id];
    }

    /** TransPutKey with the existence check. */
    method PutIfAbsent(sr: SimpleRange, id: string) returns (ok: bool)
      modifies this
      ensures ok <==> sr.Canonicalize() !in old(leases)
      ensures leases == if ok then old(leases)[sr.Canonicalize() := id] else old(leases)
    {
      if sr.Canonicalize() in leases {
        return false;
      }
      Put(sr, id);
      return true;
    }

    /** TransDelKey */
    method Delete(sr: SimpleRange)
      modifies this
      ensures leases == old(leases) - {sr.Canonicalize()}
    {
      leases := leases - {sr.Canonicalize()};
    }
  }
}

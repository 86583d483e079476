/** Round robin: what a container sees that keeps getting an address and giving it back. */
module Fairness {
  import opened Words
  import opened RangeSets
  import opened RangeIteration
  import opened DiskStore
  import opened Allocator
  import Text

  /** Ranges the source's containment test sees whole. */
  predicate Regular(rs: seq<Range>) {
    Iterable(rs) && forall i :: 0 <= i < |rs| ==> rs[i].Valid()
  }

  predicate FreeSlot(rs: seq<Range>, files: Files, s: Slot) {
    s.idx < |rs| && s.addr != rs[s.idx].gateway && s.addr !in files
  }

  /** The free addresses of a stretch of slots, in order. */
  function FreeSeq(rs: seq<Range>, files: Files, s: seq<Slot>): seq<uint32> {
    if s == [] then []
    else (if FreeSlot(rs, files, s[0]) then [s[0].addr] else []) + FreeSeq(rs, files, s[1..])
  }

  lemma FreeSeqUnfolds(rs: seq<Range>, files: Files, s: seq<Slot>)
    ensures s == [] ==> FreeSeq(rs, files, s) == []
    ensures s != [] ==> FreeSeq(rs, files, s) == FreeSeq(rs, files, [s[0]]) + FreeSeq(rs, files, s[1..])
  {
    hide FreeSlot;
    if s != [] {
      assert [s[0]][1..] == [];
    }
  }

  lemma {:induction false} FreeSeqConcat(rs: seq<Range>, files: Files, s: seq<Slot>, t: seq<Slot>)
    ensures FreeSeq(rs, files, s + t) == FreeSeq(rs, files, s) + FreeSeq(rs, files, t)
    decreases s
  {
    hide FreeSlot, FreeSeq;
    FreeSeqUnfolds(rs, files, s);
    if s == [] {
      assert s + t == t;
    } else {
      FreeSeqConcat(rs, files, s[1..], t);
      FreeSeqUnfolds(rs, files, s + t);
      assert (s + t)[1..] == s[1..] + t && (s + t)[0] == s[0];
    }
  }

  lemma {:induction false} FreeSeqMembers(rs: seq<Range>, files: Files, s: seq<Slot>)
    ensures forall a :: a in FreeSeq(rs, files, s) <==>
                        exists i :: 0 <= i < |s| && s[i].addr == a && FreeSlot(rs, files, s[i])
  {
    if s != [] {
      FreeSeqMembers(rs, files, s[1..]);
      forall a
        ensures a in FreeSeq(rs, files, s) <==> exists i :: 0 <= i < |s| && s[i].addr == a && FreeSlot(rs, files, s[i])
      {
        if i :| 0 < i < |s| && s[i].addr == a && FreeSlot(rs, files, s[i]) {
          assert s[1..][i - 1] == s[i];
        }
        if a in FreeSeq(rs, files, s[1..]) {
          var i :| 0 <= i < |s| - 1 && s[1..][i].addr == a && FreeSlot(rs, files, s[1..][i]);
          assert s[i + 1] == s[1..][i];
        }
      }
    }
  }

  predicate Distinct(s: seq<uint32>) {
    forall i, j :: 0 <= i < j < |s| ==> s[i] != s[j]
  }

  ghost predicate DistinctSlots(s: seq<Slot>) {
    forall i, j :: 0 <= i < j < |s| ==> s[i].addr != s[j].addr
  }

  lemma {:induction false} FreeSeqDistinct(rs: seq<Range>, files: Files, s: seq<Slot>)
    requires DistinctSlots(s)
    ensures Distinct(FreeSeq(rs, files, s))
  {
    if s != [] {
      FreeSeqDistinct(rs, files, s[1..]);
      FreeSeqMembers(rs, files, s[1..]);
      var rest := FreeSeq(rs, files, s[1..]);
      assert s[0].addr !in rest;
      if FreeSlot(rs, files, s[0]) {
        assert FreeSeq(rs, files, s) == [s[0].addr] + rest;
      }
    }
  }

  lemma {:induction false} FreeSeqNone(rs: seq<Range>, files: Files, s: seq<Slot>)
    requires forall i :: 0 <= i < |s| ==> !FreeSlot(rs, files, s[i])
    ensures FreeSeq(rs, files, s) == []
  {
    if s != [] {
      FreeSeqNone(rs, files, s[1..]);
    }
  }

  /** Turning a cycle behind a free slot puts its address last among the free ones. */
  lemma FreeSeqRotated(rs: seq<Range>, files: Files, o: seq<Slot>, j: nat)
    requires j < |o| && FreeSlot(rs, files, o[j])
    ensures var front, back := FreeSeq(rs, files, o[..j]), FreeSeq(rs, files, o[j + 1..]);
            && FreeSeq(rs, files, o) == front + ([o[j].addr] + back)
            && FreeSeq(rs, files, Rotation(o, j + 1)) == back + (front + [o[j].addr])
  {
    assert FreeSeq(rs, files, [o[j]]) == [o[j].addr];
    assert o == o[..j] + ([o[j]] + o[j + 1..]);
    FreeSeqConcat(rs, files, o[..j], [o[j]] + o[j + 1..]);
    FreeSeqConcat(rs, files, [o[j]], o[j + 1..]);
    assert Rotation(o, j + 1) == o[j + 1..] + (o[..j] + [o[j]]);
    FreeSeqConcat(rs, files, o[j + 1..], o[..j] + [o[j]]);
    FreeSeqConcat(rs, files, o[..j], [o[j]]);
  }

  /* ---------- the order behind an address ---------- */

  /** The address of a slot of a regular set is found in the slot's own range. */
  lemma LastSlotIs(rs: seq<Range>, s: Slot)
    requires Regular(rs) && SlotOf(rs, s)
    ensures Resumes(rs, Some(s.addr)) && LastSlot(rs, Some(s.addr)) == s
  {
    ContainsExactly(rs[s.idx], s.addr);
    var i := FirstContaining(rs, s.addr).value;
    ContainsExactly(rs[i], s.addr);
    assert i < s.idx ==> Apart(rs[i], rs[s.idx]);
  }

  /** How far the order is turned against the flat sequence. */
  function Turn(rs: seq<Range>, last: Option<uint32>): nat
    requires Ordered(rs)
  {
    if Resumes(rs, last) then Position(rs, LastSlot(rs, last)) + 1 else 0
  }

  lemma OrderIsTurned(rs: seq<Range>, last: Option<uint32>)
    requires Ordered(rs)
    ensures Turn(rs, last) <= |Flat(rs)| && Order(rs, last) == Rotation(Flat(rs), Turn(rs, last))
  {
    if Resumes(rs, last) {
      SlotAtPosition(rs, 0, LastSlot(rs, last));
    } else {
      assert Rotation(Flat(rs), 0) == Flat(rs);
    }
  }

  lemma RotationTwice(s: seq<Slot>, k: nat, j: nat, p: nat)
    requires k <= |s| && j <= |s| && p <= |s|
    requires p == k + j || p == k + j - |s|
    ensures Rotation(Rotation(s, k), j) == Rotation(s, p)
  {
    RotationAt(s, k);
    RotationAt(Rotation(s, k), j);
    RotationAt(s, p);
  }

  lemma FlatPosition(rs: seq<Range>, p: nat)
    requires Ordered(rs) && p < |Flat(rs)|
    ensures SlotOf(rs, Flat(rs)[p]) && Position(rs, Flat(rs)[p]) == p
  {
    PositionOfSlot(rs, 0, p);
  }

  /** Resuming behind slot `j` of an order turns the order to just behind it. */
  lemma OrderBehind(rs: seq<Range>, last: Option<uint32>, j: nat)
    requires Regular(rs) && j < |Order(rs, last)|
    ensures var a := Some(Order(rs, last)[j].addr);
            Resumes(rs, a) && Order(rs, a) == Rotation(Order(rs, last), j + 1)
  {
    hide SlotsFrom, Offset, Order, Flat, FirstContaining;
    var f, k, n := Flat(rs), Turn(rs, last), |Flat(rs)|;
    OrderIsTurned(rs, last);
    RotationAt(f, k);
    var p := if j < n - k then j + k else j + k - n;
    var s := Order(rs, last)[j];
    assert s == f[p];
    FlatPosition(rs, p);
    LastSlotIs(rs, s);
    OrderIsTurned(rs, Some(s.addr));
    RotationTwice(f, k, j + 1, p + 1);
  }

  /* ---------- an address is held ---------- */

  /** A second Get for the same interface, or one whose name starts the same, is refused as a duplicate, wherever the
      iterator stands. */
  lemma SecondGetIsDuplicate(rs: seq<Range>, last: Option<uint32>, files: Files, id: string, ifname: string,
                             again: string, next: Option<uint32>)
    requires Regular(rs) && ProperNames(id, ifname) && again <= ifname
    ensures var res := GetOutcome(rs, last, files, id, ifname);
            res.Got? ==> GetOutcome(rs, next, FilesAfter(files, res, id, ifname), id, again) == Duplicate
  {
    hide OwnedBy, Record, Pick, Order;
    var res := GetOutcome(rs, last, files, id, ifname);
    if res.Got? {
      GotIsFirstFree(rs, last, files, id, ifname);
      var i :| 0 <= i < |rs| && InRange(rs, i, res.addr);
      LastSlotIs(rs, Slot(i, res.addr));
      RecordIsOwned(id, ifname, again);
      assert res.addr in Owned(FilesAfter(files, res, id, ifname), id, again);
    }
  }

  lemma RecordIsOwned(id: string, ifname: string, again: string)
    requires ProperNames(id, ifname) && again <= ifname
    ensures OwnedBy(Record(id, ifname), id, again)
  {
    RecordPrefixExactly(id, again, ifname);
  }

  /* ---------- rounds ---------- */

  /** Before a round: the sub-interface holds no address of the set, and nothing is recorded under the name that
      the container is released by. */
  predicate Idle(rs: seq<Range>, files: Files, id: string, ifname: string, rel: string) {
    rel <= ifname && !HoldsOne(files, rs, id, ifname) && !AnyHasPrefix(files, Record(id, rel))
  }

  /** `k` rounds of one container: it gets an address for its sub-interface `ifname` and gives it back under the
      name `rel`. The result are the addresses it sees. */
  function Rounds(rs: seq<Range>, last: Option<uint32>, files: Files, id: string, ifname: string, rel: string,
                  k: nat): seq<uint32>
    requires Iterable(rs)
    decreases k
  {
    if k == 0 then []
    else
      match GetOutcome(rs, last, files, id, ifname)
      case Got(a, _) =>
        [a] + Rounds(rs, Some(a), AfterRelease(files[a := Record(id, ifname)], id, rel), id, ifname, rel, k - 1)
      case _ => []
  }

  /** One round: it takes the first free address, leaves the files as they were, and goes on behind that address. */
  lemma RoundUnfolds(rs: seq<Range>, last: Option<uint32>, files: Files, id: string, ifname: string, rel: string,
                     k: nat)
    requires Iterable(rs) && ProperNames(id, ifname) && Idle(rs, files, id, ifname, rel) && k > 0
    requires Pick(rs, last, files).Some?
    ensures var a := Order(rs, last)[Pick(rs, last, files).value].addr;
            Rounds(rs, last, files, id, ifname, rel, k) == [a] + Rounds(rs, Some(a), files, id, ifname, rel, k - 1)
  {
    hide Record, HoldsOne, AnyHasPrefix, AfterRelease;
    var a := Order(rs, last)[Pick(rs, last, files).value].addr;
    ReleaseUndoesReserve(files, id, ifname, rel, a);
  }

  /** A round that finds nothing ends the rounds. */
  lemma NothingEndsRounds(rs: seq<Range>, last: Option<uint32>, files: Files, id: string, ifname: string, rel: string,
                          k: nat)
    requires Iterable(rs) && Pick(rs, last, files).None?
    ensures Rounds(rs, last, files, id, ifname, rel, k) == []
  {
  }

  /** When resuming, the first free address of the order is the one that Get picks. */
  lemma PickIsHead(rs: seq<Range>, last: Option<uint32>, files: Files)
    requires Iterable(rs) && Resumes(rs, last) && FreeSeq(rs, files, Order(rs, last)) != []
    ensures Pick(rs, last, files).Some?
    ensures var o, j := Order(rs, last), Pick(rs, last, files).value;
            FreeSlot(rs, files, o[j]) && FreeSeq(rs, files, o[..j]) == []
  {
    var o := Order(rs, last);
    FirstFreeIsFirst(rs, o, false, files, 0);
    FreeSeqMembers(rs, files, o);
    assert FreeSeq(rs, files, o)[0] in FreeSeq(rs, files, o);
    FreeSeqNone(rs, files, o[..Pick(rs, last, files).value]);
  }

  /** A round that resumes takes the first free address and moves it to the end of the free ones. */
  lemma ResumedRound(rs: seq<Range>, last: Option<uint32>, files: Files, id: string, ifname: string, rel: string,
                     k: nat)
    requires Regular(rs) && ProperNames(id, ifname) && Idle(rs, files, id, ifname, rel) && Resumes(rs, last) && k > 0
    requires FreeSeq(rs, files, Order(rs, last)) != []
    ensures var g := FreeSeq(rs, files, Order(rs, last));
            var a := Some(g[0]);
            && Resumes(rs, a)
            && FreeSeq(rs, files, Order(rs, a)) == g[1..] + [g[0]]
            && Rounds(rs, last, files, id, ifname, rel, k) == [g[0]] + Rounds(rs, a, files, id, ifname, rel, k - 1)
  {
    hide Order, Pick, Rounds, AfterRelease, GetOutcome, FreeSeq, Rotation;
    PickIsHead(rs, last, files);
    var o, j := Order(rs, last), Pick(rs, last, files).value;
    FreeSeqRotated(rs, files, o, j);
    OrderBehind(rs, last, j);
    RoundUnfolds(rs, last, files, id, ifname, rel, k);
  }

  lemma NoRounds(rs: seq<Range>, last: Option<uint32>, files: Files, id: string, ifname: string, rel: string)
    requires Iterable(rs)
    ensures Rounds(rs, last, files, id, ifname, rel, 0) == []
  {
  }

  lemma {:induction false} ResumedRounds(rs: seq<Range>, last: Option<uint32>, files: Files, id: string,
                                         ifname: string, rel: string, k: nat)
    requires Regular(rs) && ProperNames(id, ifname) && Idle(rs, files, id, ifname, rel) && Resumes(rs, last)
    requires k <= |FreeSeq(rs, files, Order(rs, last))|
    ensures Rounds(rs, last, files, id, ifname, rel, k) == FreeSeq(rs, files, Order(rs, last))[..k]
    decreases k
  {
    hide Order, Rounds, FreeSeq, FirstContaining, Idle, ProperNames, Apart;
    if k == 0 {
      NoRounds(rs, last, files, id, ifname, rel);
    } else {
      var g := FreeSeq(rs, files, Order(rs, last));
      ResumedRound(rs, last, files, id, ifname, rel, k);
      ResumedRounds(rs, Some(g[0]), files, id, ifname, rel, k - 1);
      assert [g[0]] + (g[1..] + [g[0]])[..k - 1] == g[..k];
    }
  }

  /** The number of free addresses does not depend on where the order starts. */
  lemma FreeSeqLength(rs: seq<Range>, last: Option<uint32>, files: Files)
    requires Ordered(rs)
    ensures |FreeSeq(rs, files, Order(rs, last))| == |FreeSeq(rs, files, Flat(rs))|
  {
    var k, f := Turn(rs, last), Flat(rs);
    OrderIsTurned(rs, last);
    assert f == f[..k] + f[k..];
    FreeSeqConcat(rs, files, f[..k], f[k..]);
    FreeSeqConcat(rs, files, f[k..], f[..k]);
  }

  /** With the other reservations fixed, as many consecutive rounds as there are free addresses see
      pairwise distinct ones: the container gets no address back before all others were offered. They all find one
      exactly when the first one does. */
  lemma RoundRobinIsFair(rs: seq<Range>, last: Option<uint32>, files: Files, id: string, ifname: string, rel: string,
                         k: nat)
    requires Regular(rs) && ProperNames(id, ifname) && Idle(rs, files, id, ifname, rel)
    requires k <= |FreeSeq(rs, files, Flat(rs))|
    ensures Distinct(Rounds(rs, last, files, id, ifname, rel, k))
    ensures |Rounds(rs, last, files, id, ifname, rel, k)| == k <==> k == 0 || Pick(rs, last, files).Some?
  {
    hide Order, Rounds, FreeSeq, Flat, FirstContaining, Idle, ProperNames, Apart, Pick;
    FreeSeqLength(rs, last, files);
    var o := Order(rs, last);
    if k == 0 {
      NoRounds(rs, last, files, id, ifname, rel);
    } else if Pick(rs, last, files).None? {
      NothingEndsRounds(rs, last, files, id, ifname, rel, k);
    } else if Resumes(rs, last) {
      OrderIsCycle(rs, last);
      FreeSeqDistinct(rs, files, o);
      ResumedRounds(rs, last, files, id, ifname, rel, k);
    } else {
      FirstRound(rs, last, files, id, ifname, rel, k);
    }
  }

  /** With a free address in the set, the first round fails exactly for a fresh start whose one free address is a
      reserve in first place. */
  lemma FirstRoundFailsExactly(rs: seq<Range>, last: Option<uint32>, files: Files)
    requires Iterable(rs) && FreeSeq(rs, files, Flat(rs)) != []
    ensures Pick(rs, last, files).None? <==>
            !Resumes(rs, last) && rs[0].start in rs[0].reserves && FreeSeq(rs, files, Flat(rs)) == [rs[0].start]
  {
    hide FreeSeq, Flat, Apart, FirstContaining, Pick;
    NothingFreeExactly(rs, last, files);
    FreeSeqExactly(rs, files);
    var g, anew, first := FreeSeq(rs, files, Flat(rs)), !Resumes(rs, last), rs[0].start;
    if Pick(rs, last, files).None? {
      forall i | 0 <= i < |g| ensures g[i] == first && anew && first in rs[0].reserves {
        assert g[i] in g;
        assert Handed(rs, false, g[i]) && !Handed(rs, anew, g[i]);
      }
      assert g[0] == g[|g| - 1] == first;
    } else {
      var a: uint32 :| Handed(rs, anew, a) && a !in files;
      assert a in g;
    }
  }

  /** A first round that starts afresh is followed by rounds that meet its address again only at the very end. */
  lemma FirstRound(rs: seq<Range>, last: Option<uint32>, files: Files, id: string, ifname: string, rel: string,
                     k: nat)
    requires Regular(rs) && ProperNames(id, ifname) && Idle(rs, files, id, ifname, rel)
    requires Pick(rs, last, files).Some? && 0 < k <= |FreeSeq(rs, files, Order(rs, last))|
    ensures |Rounds(rs, last, files, id, ifname, rel, k)| == k
    ensures Distinct(Rounds(rs, last, files, id, ifname, rel, k))
  {
    hide Order, Rounds, AfterRelease, FreeSeq, Rotation, FirstContaining, Idle, ProperNames, Apart;
    var o, j := Order(rs, last), Pick(rs, last, files).value;
    var a := o[j].addr;
    FreeSeqRotated(rs, files, o, j);
    OrderBehind(rs, last, j);
    var g := FreeSeq(rs, files, Order(rs, Some(a)));
    assert g[|g| - 1] == a && |g| == |FreeSeq(rs, files, o)|;
    OrderIsCycle(rs, Some(a));
    FreeSeqDistinct(rs, files, Order(rs, Some(a)));
    RoundUnfolds(rs, last, files, id, ifname, rel, k);
    ResumedRounds(rs, Some(a), files, id, ifname, rel, k - 1);
    assert Rounds(rs, last, files, id, ifname, rel, k) == [a] + g[..k - 1];
  }

  /** The free addresses counted above: every address of the set that is neither its range's gateway nor reserved. */
  lemma FreeSeqExactly(rs: seq<Range>, files: Files)
    requires Iterable(rs)
    ensures Distinct(FreeSeq(rs, files, Flat(rs)))
    ensures forall a: uint32 :: a in FreeSeq(rs, files, Flat(rs)) <==> Handed(rs, false, a) && a !in files
  {
    hide FreeSeq, Flat, Apart, FirstContaining;
    var f := Flat(rs);
    FlatExactly(rs);
    FreeSeqMembers(rs, files, f);
    FreeSeqDistinct(rs, files, f);
    forall a: uint32 ensures a in FreeSeq(rs, files, f) <==> Handed(rs, false, a) && a !in files {
      if a in FreeSeq(rs, files, f) {
        var i :| 0 <= i < |f| && f[i].addr == a && FreeSlot(rs, files, f[i]);
        assert SlotOf(rs, f[i]) && InRange(rs, f[i].idx, a);
      }
      if Handed(rs, false, a) && a !in files {
        var i :| 0 <= i < |rs| && InRange(rs, i, a) && a != rs[i].gateway;
        assert SlotOf(rs, Slot(i, a));
        var p :| 0 <= p < |f| && f[p] == Slot(i, a);
        assert FreeSlot(rs, files, f[p]);
      }
    }
  }
}

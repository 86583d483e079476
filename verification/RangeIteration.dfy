/** The round-robin iterator over the addresses of a range set. */
module RangeIteration {
  import opened Words
  import opened RangeSets

  /* ---------- the addresses of a set as one cycle ---------- */

  /** An address together with the index of its range. */
  datatype Slot = Slot(idx: nat, addr: uint32)

  /** A non-empty set whose ranges have their ends in order. */
  predicate Ordered(rs: seq<Range>) {
    rs != [] && forall i :: 0 <= i < |rs| ==> rs[i].start <= rs[i].end
  }

  predicate Apart(r: Range, s: Range) {
    r.end < s.start || s.end < r.start
  }

  /** An ordered set whose ranges share no address. */
  predicate Iterable(rs: seq<Range>) {
    Ordered(rs) && forall i, j :: 0 <= i < j < |rs| ==> Apart(rs[i], rs[j])
  }

  predicate SlotOf(rs: seq<Range>, s: Slot) {
    s.idx < |rs| && rs[s.idx].start <= s.addr <= rs[s.idx].end
  }

  function SlotsOf(i: nat, r: Range): (s: seq<Slot>)
    requires r.start <= r.end
    ensures |s| == r.end - r.start + 1
    ensures forall j :: 0 <= j < |s| ==> s[j] == Slot(i, r.start + j)
  {
    seq(r.end - r.start + 1, j requires 0 <= j <= r.end - r.start => Slot(i, r.start + j))
  }

  /** The slots of the ranges from index `i` on, range after range. */
  function SlotsFrom(rs: seq<Range>, i: nat): seq<Slot>
    requires Ordered(rs) && i <= |rs|
    decreases |rs| - i
  {
    if i == |rs| then [] else SlotsOf(i, rs[i]) + SlotsFrom(rs, i + 1)
  }

  predicate Indexed(rs: seq<Range>, o: seq<Slot>) {
    forall i :: 0 <= i < |o| ==> o[i].idx < |rs|
  }

  lemma {:induction false} SlotsIndexed(rs: seq<Range>, i: nat)
    requires Ordered(rs) && i <= |rs|
    ensures Indexed(rs, SlotsFrom(rs, i))
    decreases |rs| - i
  {
    if i < |rs| {
      SlotsIndexed(rs, i + 1);
    }
  }

  function Flat(rs: seq<Range>): (o: seq<Slot>)
    requires Ordered(rs)
    ensures Indexed(rs, o)
  {
    SlotsIndexed(rs, 0);
    SlotsFrom(rs, 0)
  }

  /** The number of addresses in the ranges before index `i`. */
  function Offset(rs: seq<Range>, i: nat): nat
    requires Ordered(rs) && i <= |rs|
  {
    if i == 0 then 0 else Offset(rs, i - 1) + (rs[i - 1].end - rs[i - 1].start + 1)
  }

  function Position(rs: seq<Range>, s: Slot): nat
    requires Ordered(rs) && SlotOf(rs, s)
  {
    Offset(rs, s.idx) + (s.addr - rs[s.idx].start)
  }

  lemma {:induction false} SlotAtPosition(rs: seq<Range>, b: nat, s: Slot)
    requires Ordered(rs) && SlotOf(rs, s) && b <= s.idx
    ensures Offset(rs, b) <= Position(rs, s)
    ensures var p := Position(rs, s) - Offset(rs, b); p < |SlotsFrom(rs, b)| && SlotsFrom(rs, b)[p] == s
    decreases |rs| - b
  {
    if b < s.idx {
      SlotAtPosition(rs, b + 1, s);
    }
  }

  lemma {:induction false} PositionOfSlot(rs: seq<Range>, b: nat, p: nat)
    requires Ordered(rs) && b <= |rs| && p < |SlotsFrom(rs, b)|
    ensures var s := SlotsFrom(rs, b)[p]; SlotOf(rs, s) && b <= s.idx && Position(rs, s) == Offset(rs, b) + p
    decreases |rs| - b
  {
    if b < |rs| && |SlotsOf(b, rs[b])| <= p {
      PositionOfSlot(rs, b + 1, p - |SlotsOf(b, rs[b])|);
    }
  }

  lemma {:induction false} FlatLength(rs: seq<Range>, b: nat)
    requires Ordered(rs) && b <= |rs|
    ensures Offset(rs, b) + |SlotsFrom(rs, b)| == Offset(rs, |rs|)
    decreases |rs| - b
  {
    hide Offset;
    if b < |rs| {
      FlatLength(rs, b + 1);
      OffsetNext(rs, b);
      assert |SlotsFrom(rs, b)| == |SlotsOf(b, rs[b])| + |SlotsFrom(rs, b + 1)|;
    }
  }

  lemma OffsetNext(rs: seq<Range>, b: nat)
    requires Ordered(rs) && b < |rs|
    ensures Offset(rs, b + 1) == Offset(rs, b) + |SlotsOf(b, rs[b])|
  {
  }

  function NextIndex(i: nat, n: nat): nat {
    if i + 1 == n then 0 else i + 1
  }

  lemma NextIndexIsModular(i: nat, n: nat)
    requires i < n
    ensures (i + 1) % n == NextIndex(i, n)
  {
  }

  /** How the cursor moves: to the next address, or to the start of the next range, cyclically. */
  function NextSlot(rs: seq<Range>, s: Slot): Slot
    requires SlotOf(rs, s)
  {
    if s.addr == rs[s.idx].end then
      var i := NextIndex(s.idx, |rs|);
      Slot(i, rs[i].start)
    else Slot(s.idx, s.addr + 1)
  }

  lemma FlatSuccessor(rs: seq<Range>, p: nat)
    requires Ordered(rs) && p < |Flat(rs)|
    ensures SlotOf(rs, Flat(rs)[p])
    ensures NextSlot(rs, Flat(rs)[p]) == Flat(rs)[if p + 1 == |Flat(rs)| then 0 else p + 1]
  {
    hide SlotsFrom, SlotsOf;
    PositionOfSlot(rs, 0, p);
    FlatLength(rs, 0);
    var s := Flat(rs)[p];
    var t := NextSlot(rs, s);
    if s.addr == rs[s.idx].end && s.idx + 1 == |rs| {
      assert t == Slot(0, rs[0].start);
      assert Offset(rs, |rs|) == Position(rs, s) + 1;
    } else if s.addr == rs[s.idx].end {
      assert t == Slot(s.idx + 1, rs[s.idx + 1].start);
      assert Offset(rs, s.idx + 1) == Position(rs, s) + 1;
    } else {
      assert Position(rs, t) == Position(rs, s) + 1;
    }
    assert SlotOf(rs, t);
    SlotAtPosition(rs, 0, t);
  }

  /** Every slot of the set appears in the flat sequence exactly once. */
  lemma FlatExactly(rs: seq<Range>)
    requires Iterable(rs)
    ensures Flat(rs) != []
    ensures forall p :: 0 <= p < |Flat(rs)| ==> SlotOf(rs, Flat(rs)[p])
    ensures forall s :: SlotOf(rs, s) ==> s in Flat(rs)
    ensures forall p, q :: 0 <= p < q < |Flat(rs)| ==> Flat(rs)[p].addr != Flat(rs)[q].addr
  {
    forall p | 0 <= p < |Flat(rs)| ensures SlotOf(rs, Flat(rs)[p]) {
      PositionOfSlot(rs, 0, p);
    }
    forall s | SlotOf(rs, s) ensures s in Flat(rs) {
      SlotAtPosition(rs, 0, s);
    }
    forall p, q | 0 <= p < q < |Flat(rs)| ensures Flat(rs)[p].addr != Flat(rs)[q].addr {
      PositionOfSlot(rs, 0, p);
      PositionOfSlot(rs, 0, q);
    }
    assert SlotOf(rs, Slot(0, rs[0].start));
  }

  function Rotation<T>(s: seq<T>, k: nat): (t: seq<T>)
    requires k <= |s|
    ensures |t| == |s|
  {
    s[k..] + s[..k]
  }

  /** The last reserved address belongs to the set. */
  predicate Resumes(rs: seq<Range>, last: Option<uint32>) {
    last.Some? && FirstContaining(rs, last.value).Some?
  }

  function LastSlot(rs: seq<Range>, last: Option<uint32>): (s: Slot)
    requires Resumes(rs, last)
    ensures SlotOf(rs, s)
  {
    Slot(FirstContaining(rs, last.value).value, last.value)
  }

  /** The cyclic order the iterator goes through: from the start, or from behind the last reserved address. */
  function Order(rs: seq<Range>, last: Option<uint32>): (o: seq<Slot>)
    requires Ordered(rs)
    ensures |o| == |Flat(rs)| && Indexed(rs, o)
  {
    if Resumes(rs, last) then
      SlotAtPosition(rs, 0, LastSlot(rs, last));
      Rotation(Flat(rs), Position(rs, LastSlot(rs, last)) + 1)
    else Flat(rs)
  }

  /** A cycle of the set: each slot is followed by the next, and the first address does not come back. */
  ghost predicate IsCycle(rs: seq<Range>, o: seq<Slot>) {
    && o != [] && Indexed(rs, o)
    && (forall j :: 0 <= j < |o| ==> SlotOf(rs, o[j]))
    && (forall j {:trigger NextSlot(rs, o[j])} :: 0 <= j < |o| ==>
          NextSlot(rs, o[j]) == o[if j + 1 == |o| then 0 else j + 1])
    && (forall j :: 0 < j < |o| ==> o[j].addr != o[0].addr)
  }

  /** Each slot of the set is in the cycle, once. */
  ghost predicate Covers(rs: seq<Range>, o: seq<Slot>) {
    && (forall s :: SlotOf(rs, s) ==> s in o)
    && (forall i, j :: 0 <= i < j < |o| ==> o[i].addr != o[j].addr)
  }

  lemma RotationAt(o: seq<Slot>, k: nat)
    requires k <= |o|
    ensures forall j :: 0 <= j < |o| ==> Rotation(o, k)[j] == o[if j < |o| - k then j + k else j + k - |o|]
  {
  }

  lemma RotationCovers(rs: seq<Range>, o: seq<Slot>, k: nat)
    requires k <= |o| && Covers(rs, o)
    ensures Covers(rs, Rotation(o, k))
  {
    RotationAt(o, k);
    var t := Rotation(o, k);
    forall s | SlotOf(rs, s) ensures s in t {
      var p :| 0 <= p < |o| && o[p] == s;
      assert t[if k <= p then p - k else p + |o| - k] == s;
    }
  }

  lemma RotationIsCycle(rs: seq<Range>, o: seq<Slot>, k: nat)
    requires k <= |o| && IsCycle(rs, o) && Covers(rs, o)
    ensures IsCycle(rs, Rotation(o, k)) && Covers(rs, Rotation(o, k))
  {
    RotationCovers(rs, o, k);
    RotationAt(o, k);
    var t := Rotation(o, k);
    forall j | 0 <= j < |t| ensures SlotOf(rs, t[j]) && NextSlot(rs, t[j]) == t[if j + 1 == |t| then 0 else j + 1] {
      var p := if j < |o| - k then j + k else j + k - |o|;
      assert t[j] == o[p];
      assert NextSlot(rs, o[p]) == o[if p + 1 == |o| then 0 else p + 1];
    }
  }

  lemma FlatIsCycle(rs: seq<Range>)
    requires Iterable(rs)
    ensures IsCycle(rs, Flat(rs)) && Covers(rs, Flat(rs))
    ensures Flat(rs)[0] == Slot(0, rs[0].start)
  {
    FlatExactly(rs);
    forall p | 0 <= p < |Flat(rs)|
      ensures NextSlot(rs, Flat(rs)[p]) == Flat(rs)[if p + 1 == |Flat(rs)| then 0 else p + 1]
    {
      FlatSuccessor(rs, p);
    }
  }

  lemma OrderIsCycle(rs: seq<Range>, last: Option<uint32>)
    requires Iterable(rs)
    ensures IsCycle(rs, Order(rs, last)) && Covers(rs, Order(rs, last))
    ensures Resumes(rs, last) ==> Order(rs, last)[|Flat(rs)| - 1] == LastSlot(rs, last)
    ensures !Resumes(rs, last) ==> Order(rs, last)[0] == Slot(0, rs[0].start)
  {
    hide Flat, IsCycle, Covers, Rotation, Position, FirstContaining, Apart;
    FlatIsCycle(rs);
    if Resumes(rs, last) {
      var s := LastSlot(rs, last);
      LastSlotPosition(rs, s);
      RotationIsCycle(rs, Flat(rs), Position(rs, s) + 1);
      RotationAt(Flat(rs), Position(rs, s) + 1);
    }
  }

  lemma LastSlotPosition(rs: seq<Range>, s: Slot)
    requires Ordered(rs) && SlotOf(rs, s)
    ensures Position(rs, s) < |Flat(rs)| && Flat(rs)[Position(rs, s)] == s
  {
    SlotAtPosition(rs, 0, s);
  }

  /* ---------- when the iterator can stop ---------- */

  function StartRange(rs: seq<Range>, last: Option<uint32>): nat {
    if Resumes(rs, last) then LastSlot(rs, last).idx else 0
  }

  /** One range, or a fresh start, or a last reserved address that does not end its range. */
  predicate Stops(rs: seq<Range>, last: Option<uint32>) {
    |rs| == 1 || !Resumes(rs, last) || last.value != rs[LastSlot(rs, last).idx].end
  }

  /** The stop test compares the address and the range index with the start. It succeeds somewhere on the
      cycle exactly under `Stops`, and then only back at the first slot. Otherwise the iterator never ends. */
  lemma StopTestExactly(rs: seq<Range>, last: Option<uint32>)
    requires Iterable(rs)
    ensures var o := Order(rs, last);
            && o != []
            && (Stops(rs, last) <==>
                  exists j :: 0 <= j < |o| && o[j].idx == StartRange(rs, last) && o[j].addr == o[0].addr)
            && (Stops(rs, last) <==> o[0].idx == StartRange(rs, last))
            && (forall j :: 0 < j < |o| ==> o[j].addr != o[0].addr)
  {
    OrderIsCycle(rs, last);
    var o := Order(rs, last);
    if Resumes(rs, last) {
      assert o[0] == NextSlot(rs, o[|o| - 1]);
      if |rs| > 1 && last.value == rs[LastSlot(rs, last).idx].end {
        var i := LastSlot(rs, last).idx;
        assert o[0].idx == NextIndex(i, |rs|);
      }
    }
  }

  /* ---------- the iterator ---------- */

  /** Slot `j` of the order is handed out: not a gateway and, on a fresh start, not a reserve in first place. */
  predicate Candidate(rs: seq<Range>, o: seq<Slot>, anew: bool, j: nat)
    requires j < |o| && o[j].idx < |rs|
  {
    && o[j].addr != rs[o[j].idx].gateway
    && !(anew && j == 0 && o[j].addr in rs[o[j].idx].reserves)
  }

  /** The first position from `k` on that is handed out. */
  function NextCandidate(rs: seq<Range>, o: seq<Slot>, anew: bool, k: nat): (j: Option<nat>)
    requires k <= |o| && Indexed(rs, o)
    ensures j.Some? ==> k <= j.value < |o| && Candidate(rs, o, anew, j.value)
    decreases |o| - k
  {
    if k == |o| then None
    else if Candidate(rs, o, anew, k) then Some(k)
    else NextCandidate(rs, o, anew, k + 1)
  }

  lemma {:induction false} NextCandidateIsFirst(rs: seq<Range>, o: seq<Slot>, anew: bool, k: nat)
    requires k <= |o| && Indexed(rs, o)
    ensures forall i :: k <= i < |o| && Candidate(rs, o, anew, i) ==>
                          NextCandidate(rs, o, anew, k).Some? && NextCandidate(rs, o, anew, k).value <= i
    decreases |o| - k
  {
    if k < |o| {
      NextCandidateIsFirst(rs, o, anew, k + 1);
    }
  }

  class RangeIter {
    const rangeset: seq<Range>
    var rangeIdx: nat
    var cur: Option<uint32>
    var startIP: Option<uint32>
    const startRange: nat

    ghost const order: seq<Slot>
    ghost const anew: bool
    ghost var count: nat  // slots visited in the current lap

    ghost predicate Stoppable() {
      order != [] && order[0].idx == startRange
    }

    ghost predicate Valid()
      reads this
    {
      && Ordered(rangeset) && IsCycle(rangeset, order) && count <= |order|
      && (anew ==> Stoppable())
      && (count == 0 && anew ==> cur == None && rangeIdx == startRange == 0 && order[0] == Slot(0, rangeset[0].start))
      && (count == 0 && !anew ==>
            cur == Some(order[|order| - 1].addr) && rangeIdx == order[|order| - 1].idx && startIP == None)
      && (count > 0 ==>
            cur == Some(order[count - 1].addr) && rangeIdx == order[count - 1].idx && startIP == Some(order[0].addr))
    }

    /** The first position from `k` on that is handed out. */
    ghost function Upcoming(k: nat): Option<nat>
      requires IsCycle(rangeset, order) && k <= |order|
    {
      NextCandidate(rangeset, order, anew, k)
    }

    /** IPAllocator.GetIter */
    constructor (rs: seq<Range>, last: Option<uint32>)
      requires Iterable(rs)
      ensures Valid() && count == 0
      ensures rangeset == rs && order == Order(rs, last) && anew == !Resumes(rs, last)
      ensures startRange == StartRange(rs, last)
    {
      hide Order, Flat, NextSlot, FirstContaining;
      OrderIsCycle(rs, last);
      rangeset := rs;
      var found := None;
      if last.Some? {
        found := RangeFor(rs, last.value);
      }
      if found.Some? {
        rangeIdx := found.value;
        startRange := found.value;
        cur := last;
        startIP := None;
      } else {
        rangeIdx := 0;
        startRange := 0;
        cur := None;
        startIP := Some(rs[0].start);
      }
      order := Order(rs, last);
      anew := !Resumes(rs, last);
      count := 0;
    }

    /** The part of Next that moves the cursor and tests for the start; the source has it inline. */
    method Advance() returns (r: Range, stop: bool)
      requires Valid() && cur != None
      modifies this
      ensures Valid()
      ensures count == if old(count) == 0 || old(count) == |order| then 1 else old(count) + 1
      ensures r == rangeset[order[count - 1].idx]
      ensures stop <==> old(count) == |order| && Stoppable()
    {
      ghost var at := if count == 0 then |order| - 1 else count - 1;
      assert NextSlot(rangeset, order[at]) == order[if at + 1 == |order| then 0 else at + 1];
      r := rangeset[rangeIdx];
      if cur.value == r.end {
        assert (rangeIdx + 1) % |rangeset| == NextIndex(rangeIdx, |rangeset|) by {
          NextIndexIsModular(rangeIdx, |rangeset|);
        }
        rangeIdx := (rangeIdx + 1) % |rangeset|;
        r := rangeset[rangeIdx];
        cur := Some(r.start);
      } else {
        cur := Some(cur.value + 1);
      }
      count := if at + 1 == |order| then 1 else at + 2;
      stop := false;
      if startIP == None {
        startIP := cur;
      } else if rangeIdx == startRange && cur == startIP {
        stop := true;
      }
    }

    /** The next address of the lap with its gateway, or None once the iterator is back where it started.
        An iterator that cannot stop goes into another lap; without an address to hand out the source
        would then recurse for ever. */
    method Next() returns (ip: Option<uint32>, gateway: uint32)
      requires Valid()
      requires Stoppable() || Upcoming(0).Some?
      modifies this
      ensures Valid()
      ensures var ahead := old(Upcoming(count));
              var found := if ahead.None? && !Stoppable() then Upcoming(0) else ahead;
              match found
              case Some(j) => ip == Some(order[j].addr) && gateway == rangeset[order[j].idx].gateway && count == j + 1
              case None => ip == None
      decreases if Upcoming(count).None? then 1 else 0, |order| - count
    {
      var r := rangeset[rangeIdx];
      if cur == None {
        cur := Some(r.start);
        startIP := cur;
        count := 1;
        if cur.value == r.gateway || cur.value in r.reserves {
          ip, gateway := Next();
          return;
        }
        return cur, r.gateway;
      }
      var stop: bool;
      r, stop := Advance();
      if stop {
        return None, 0;
      }
      if cur.value == r.gateway {
        ip, gateway := Next();
        return;
      }
      return cur, r.gateway;
    }

    /** The first `n` steps inside Next when the iterator cannot stop and each of its addresses is a gateway: no
        step stops, and each comes to a gateway, so Next calls itself again. */
    method NeverReturns(n: nat) returns (stopped: bool, left: bool)
      requires Valid() && !Stoppable() && Upcoming(0).None?
      modifies this
      ensures !stopped && !left
    {
      NextCandidateIsFirst(rangeset, order, anew, 0);
      stopped, left := false, false;
      for i := 0 to n
        invariant Valid() && !Stoppable() && !anew && !stopped && !left
      {
        var r, stop := Advance();
        assert !Candidate(rangeset, order, anew, count - 1);
        stopped, left := stopped || stop, left || cur.value != r.gateway;
      }
    }
  }

  /* ---------- exact coverage ---------- */

  /** The addresses handed out from the first `k` positions of the order. */
  function Yielded(rs: seq<Range>, o: seq<Slot>, anew: bool, k: nat): seq<uint32>
    requires k <= |o| && Indexed(rs, o)
  {
    if k == 0 then []
    else Yielded(rs, o, anew, k - 1) + if Candidate(rs, o, anew, k - 1) then [o[k - 1].addr] else []
  }

  lemma {:induction false} YieldedNext(rs: seq<Range>, o: seq<Slot>, anew: bool, k: nat)
    requires k <= |o| && Indexed(rs, o)
    ensures match NextCandidate(rs, o, anew, k)
            case None => Yielded(rs, o, anew, |o|) == Yielded(rs, o, anew, k)
            case Some(j) => Yielded(rs, o, anew, j + 1) == Yielded(rs, o, anew, k) + [o[j].addr]
    decreases |o| - k
  {
    if k < |o| && !Candidate(rs, o, anew, k) {
      YieldedNext(rs, o, anew, k + 1);
      assert Yielded(rs, o, anew, k + 1) == Yielded(rs, o, anew, k);
    }
  }

  /** Calling Next until it gives up. */
  method Walk(rs: seq<Range>, last: Option<uint32>) returns (addrs: seq<uint32>)
    requires Iterable(rs) && Stops(rs, last)
    ensures var o := Order(rs, last); Indexed(rs, o) && addrs == Yielded(rs, o, !Resumes(rs, last), |o|)
  {
    hide Order, Flat, Candidate, NextCandidate, FirstContaining, NextSlot, SlotOf, Apart;
    assert Order(rs, last) != [] && Order(rs, last)[0].idx == StartRange(rs, last) by {
      StopTestExactly(rs, last);
    }
    var iter := new RangeIter(rs, last);
    ghost var o, anew := iter.order, iter.anew;
    addrs := [];
    var ip: Option<uint32>, gateway: uint32 := Some(0), 0;
    while ip.Some?
      invariant fresh(iter) && iter.Valid() && iter.Stoppable()
      invariant iter.rangeset == rs && iter.order == o && iter.anew == anew
      invariant addrs == Yielded(rs, o, anew, if ip.Some? then iter.count else |o|)
      decreases ip.Some?, |o| - iter.count
    {
      YieldedNext(rs, o, anew, iter.count);
      ip, gateway := iter.Next();
      if ip.Some? {
        addrs := addrs + [ip.value];
      }
    }
  }

  lemma {:induction false} YieldedMembers(rs: seq<Range>, o: seq<Slot>, anew: bool, k: nat)
    requires Indexed(rs, o) && Covers(rs, o) && k <= |o|
    ensures forall a :: a in Yielded(rs, o, anew, k) <==>
                    exists j :: 0 <= j < k && o[j].addr == a && Candidate(rs, o, anew, j)
    ensures forall x, y :: 0 <= x < y < |Yielded(rs, o, anew, k)| ==>
                             Yielded(rs, o, anew, k)[x] != Yielded(rs, o, anew, k)[y]
  {
    if k > 0 {
      YieldedMembers(rs, o, anew, k - 1);
      var init := Yielded(rs, o, anew, k - 1);
      if Candidate(rs, o, anew, k - 1) {
        assert Yielded(rs, o, anew, k) == init + [o[k - 1].addr];
        assert o[k - 1].addr !in init;
      }
    }
  }

  predicate InRange(rs: seq<Range>, i: nat, a: int)
    requires i < |rs|
  {
    rs[i].start <= a <= rs[i].end
  }

  /** An address some range hands out; a fresh walk leaves out the very first address if it is a reserve. */
  ghost predicate Handed(rs: seq<Range>, anew: bool, a: uint32)
    requires rs != []
  {
    && (exists i :: 0 <= i < |rs| && InRange(rs, i, a) && a != rs[i].gateway)
    && !(anew && a == rs[0].start && a in rs[0].reserves)
  }

  lemma CandidateIsHanded(rs: seq<Range>, last: Option<uint32>, j: nat)
    requires Iterable(rs) && IsCycle(rs, Order(rs, last)) && j < |Order(rs, last)|
    requires Candidate(rs, Order(rs, last), !Resumes(rs, last), j)
    ensures Handed(rs, !Resumes(rs, last), Order(rs, last)[j].addr)
  {
    OrderIsCycle(rs, last);
    var s := Order(rs, last)[j];
    assert SlotOf(rs, s) && InRange(rs, s.idx, s.addr);
  }

  lemma HandedIsCandidate(rs: seq<Range>, last: Option<uint32>, a: uint32) returns (j: nat)
    requires Iterable(rs) && IsCycle(rs, Order(rs, last))
    requires Handed(rs, !Resumes(rs, last), a)
    ensures j < |Order(rs, last)| && Order(rs, last)[j].addr == a
    ensures Candidate(rs, Order(rs, last), !Resumes(rs, last), j)
  {
    OrderIsCycle(rs, last);
    var i :| 0 <= i < |rs| && InRange(rs, i, a) && a != rs[i].gateway;
    assert SlotOf(rs, Slot(i, a));
    j :| 0 <= j < |Order(rs, last)| && Order(rs, last)[j] == Slot(i, a);
  }

  /** The walk hands out every address of the set that is not the gateway of its range exactly once;
      a fresh walk leaves out the very first address if it is a reserve, and only that one. */
  lemma WalkCoversExactly(rs: seq<Range>, last: Option<uint32>)
    requires Iterable(rs)
    ensures Indexed(rs, Order(rs, last))
    ensures var o := Order(rs, last);
            var y := Yielded(rs, o, !Resumes(rs, last), |o|);
            && (forall i, j :: 0 <= i < j < |y| ==> y[i] != y[j])
            && (forall a: uint32 :: a in y <==> Handed(rs, !Resumes(rs, last), a))
  {
    OrderIsCycle(rs, last);
    var o, anew := Order(rs, last), !Resumes(rs, last);
    YieldedMembers(rs, o, anew, |o|);
    forall a: uint32 ensures a in Yielded(rs, o, anew, |o|) <==> Handed(rs, anew, a) {
      if a in Yielded(rs, o, anew, |o|) {
        var j :| 0 <= j < |o| && o[j].addr == a && Candidate(rs, o, anew, j);
        CandidateIsHanded(rs, last, j);
      }
      if Handed(rs, anew, a) {
        var j := HandedIsCandidate(rs, last, a);
      }
    }
  }
}
